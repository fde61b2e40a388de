/** What holds of the question ledger over every sequence of records. */
module QuestionBookFacts {
  import opened Lines
  import opened Text
  import opened QuestionBook

  // ---- the invariant -------------------------------------------------------------------------------

  ghost function Ids(questions: seq<AskedQuestion>): set<string> {
    set q | q in questions :: q.id
  }

  /** The index is a bijection from the known call ids onto the call positions. */
  ghost predicate IndexOk(b: Book) {
    && (forall id :: id in b.index ==> b.index[id] < |b.calls| && b.calls[b.index[id]].callId == id)
    && (forall i :: 0 <= i < |b.calls| ==> b.calls[i].callId in b.index && b.index[b.calls[i].callId] == i)
  }

  /** The two maps of a call that may still take an answer: both nil or both real, the same keys, and some
      question left unanswered. */
  ghost predicate PartlyAnswered(c: BookCall) {
    && (c.answers.Nil? <==> c.answerTimes.Nil?)
    && Entries(c.answers).Keys == Entries(c.answerTimes).Keys
    && Entries(c.answers).Keys <= Ids(c.questions)
    && (c.questions != [] ==> Entries(c.answers).Keys != Ids(c.questions))
    && (!c.isAsync ==> c.answers.Nil?)
  }

  /** Every time an answer was credited at lies after the ask. */
  ghost predicate CreditedAfterAsk(c: BookCall) {
    && (forall id :: id in Entries(c.answerTimes) ==> c.askedAt < c.answerTimes.entries[id])
    && (c.reply != "" ==> c.isAsync && c.askedAt < c.replyAt)
  }

  ghost predicate DistinctIds(questions: seq<AskedQuestion>) {
    forall j, k :: 0 <= j < k < |questions| ==> questions[j].id != questions[k].id
  }

  ghost predicate CallOk(c: BookCall) {
    && (c.isAsync ==> DistinctIds(c.questions))
    && (c.state == Outstanding ==> PartlyAnswered(c))
    && CreditedAfterAsk(c)
  }

  ghost predicate BookOk(b: Book) {
    IndexOk(b) && forall i :: 0 <= i < |b.calls| ==> CallOk(b.calls[i])
  }

  // ---- counting answers ----------------------------------------------------------------------------

  /** The ids an async ask is given are distinct: `<call>:<position>`. */
  lemma AsyncIdsDistinct(callId: string, questions: seq<AskedQuestion>)
    ensures DistinctIds(WithAsyncIds(callId, questions))
  {
    var named := WithAsyncIds(callId, questions);
    forall j, k | 0 <= j < k < |named| ensures named[j].id != named[k].id {
      assert named[j].id[|callId| + 1..] == Itoa(j);
      assert named[k].id[|callId| + 1..] == Itoa(k);
      if named[j].id == named[k].id {
        ItoaInjective(j, k);
      }
    }
  }

  lemma {:induction false} IdsCount(questions: seq<AskedQuestion>)
    requires DistinctIds(questions)
    ensures |Ids(questions)| == |questions|
  {
    if questions != [] {
      var n := |questions| - 1;
      var init := questions[..n];
      IdsCount(init);
      assert questions == init + [questions[n]];
      assert Ids(questions) == Ids(init) + {questions[n].id};
      assert questions[n].id !in Ids(init);
    }
  }

  lemma SubsetOfSameSize<T>(a: set<T>, b: set<T>)
    requires a <= b
    ensures |a| == |b| <==> a == b
  {
    assert b == a + (b - a);
    assert |b| == |a| + |b - a|;
  }

  /** The count test marks a call answered exactly when every question has an answer. */
  lemma CountTest(questions: seq<AskedQuestion>, answered: set<string>)
    requires DistinctIds(questions) && answered <= Ids(questions)
    ensures |answered| == |questions| <==> answered == Ids(questions)
  {
    IdsCount(questions);
    SubsetOfSameSize(answered, Ids(questions));
  }

  // ---- a tagged batch ------------------------------------------------------------------------------

  /** The question id a reply names. */
  ghost function NamedId(b: Book, r: QuestionReply): string
    requires Names(b, r)
  {
    b.calls[b.index[r.item.id]].questions[r.item.question].id
  }

  /** The answers a batch gives to call `i`, by question id. */
  ghost function Given(b: Book, replies: seq<QuestionReply>, i: int): map<string, Answer> {
    if replies == [] then map[]
    else
      var init, r := replies[..|replies| - 1], replies[|replies| - 1];
      if Names(b, r) && b.index[r.item.id] == i then Given(b, init, i)[NamedId(b, r) := Answer([r.answer], "")]
      else Given(b, init, i)
  }

  ghost function Stamped(given: map<string, Answer>, at: Time): map<string, Time> {
    map id | id in given :: at
  }

  /** What crediting `given` does to a call: exactly those questions, none answered before, gain those
      answers, stamped with the message's time; and the call is answered exactly when no question is left. */
  ghost predicate Credited(c: BookCall, c': BookCall, given: map<string, Answer>, at: Time) {
    && given.Keys !! Entries(c.answers).Keys && given.Keys <= Ids(c.questions)
    && Entries(c'.answers) == Entries(c.answers) + given
    && Entries(c'.answerTimes) == Entries(c.answerTimes) + Stamped(given, at)
    && (given != map[] ==> c'.answers.Table? && c'.answerTimes.Table?)
    && c' == c.(answers := c'.answers, answerTimes := c'.answerTimes, state := c'.state, resolvedAt := c'.resolvedAt)
    && c'.state == (if Entries(c'.answers).Keys == Ids(c.questions) then Answered else Outstanding)
    && c'.resolvedAt == (if c'.state == Answered then at else c.resolvedAt)
  }

  /** One answer more than a map that keeps the ones already held. */
  lemma UnionThenOne<V>(m: map<string, V>, g: map<string, V>, id: string, v: V)
    ensures (m + g)[id := v] == m + g[id := v]
    ensures |(m + g)[id := v]| == |(m + g)[id := v].Keys|
  {
  }

  lemma StampedOne(g: map<string, Answer>, id: string, v: Answer, at: Time)
    ensures Stamped(g[id := v], at) == Stamped(g, at)[id := at]
  {
  }

  /** One more reply of a batch, to the call it names. */
  lemma CreditOneMore(c: BookCall, c': BookCall, given: map<string, Answer>, r: QuestionReply, at: Time)
    requires DistinctIds(c.questions) && Entries(c.answers).Keys <= Ids(c.questions)
    requires r.item.Item? && 0 <= r.item.question < |c.questions|
    requires c.questions[r.item.question].id !in Entries(c.answers)
    requires c.questions[r.item.question].id !in given
    requires Credited(c, c', given, at)
    ensures Credited(c, Credit(c', r, at), given[c.questions[r.item.question].id := Answer([r.answer], "")], at)
  {
    var id := c.questions[r.item.question].id;
    var answer := Answer([r.answer], "");
    assert id in Ids(c.questions) by {
      assert c.questions[r.item.question] in c.questions;
    }
    UnionThenOne(Entries(c.answers), given, id, answer);
    UnionThenOne(Entries(c.answerTimes), Stamped(given, at), id, at);
    StampedOne(given, id, answer, at);
    CountTest(c.questions, (Entries(c.answers) + given)[id := answer].Keys);
    assert id !in Entries(c'.answers).Keys;
  }

  /** Only replies of the batch give anything. */
  lemma {:induction false} GivenByReply(b: Book, replies: seq<QuestionReply>, i: int, id: string) returns (k: nat)
    requires id in Given(b, replies, i)
    ensures k < |replies| && Names(b, replies[k]) && b.index[replies[k].item.id] == i && NamedId(b, replies[k]) == id
  {
    var n := |replies| - 1;
    if Names(b, replies[n]) && b.index[replies[n].item.id] == i && NamedId(b, replies[n]) == id {
      k := n;
    } else {
      k := GivenByReply(b, replies[..n], i, id);
    }
  }

  /** A question the last reply of a batch names is not among those named before it. */
  lemma NamedOnce(codec: Codec, b: Book, replies: seq<QuestionReply>, at: Time)
    requires IndexInRange(|b.calls|, b.index) && Standing(codec, b, replies, at)
    requires replies != [] && Names(b, replies[|replies| - 1])
    requires DistinctIds(b.calls[b.index[replies[|replies| - 1].item.id]].questions)
    ensures var r := replies[|replies| - 1]; NamedId(b, r) !in Given(b, replies[..|replies| - 1], b.index[r.item.id])
  {
    var n := |replies| - 1;
    var r := replies[n];
    assert forall k :: 0 <= k < n ==> Key(b, replies[k]) != Key(b, replies[n]);
    if NamedId(b, r) in Given(b, replies[..n], b.index[r.item.id]) {
      var k := GivenByReply(b, replies[..n], b.index[r.item.id], NamedId(b, r));
      assert false;
    }
  }

  /** Call `i` after the batch: credited exactly what the batch gives it, or unchanged. */
  ghost predicate AfterBatch(b: Book, replies: seq<QuestionReply>, at: Time, i: nat)
    requires i < |b.calls|
  {
    var c, c', given := b.calls[i], CreditAll(b, replies, at).calls[i], Given(b, replies, i);
    if given == map[] then c' == c
    else Credited(c, c', given, at) && c.state == Outstanding && c.isAsync && at > c.askedAt
  }

  lemma CreditLast(c: BookCall, c': BookCall, given: map<string, Answer>, r: QuestionReply, at: Time)
    requires CallOk(c) && c.state == Outstanding && c.isAsync
    requires r.item.Item? && 0 <= r.item.question < |c.questions|
    requires c.questions[r.item.question].id !in Entries(c.answers)
    requires c.questions[r.item.question].id !in given
    requires if given == map[] then c' == c else Credited(c, c', given, at)
    ensures Credited(c, Credit(c', r, at), given[c.questions[r.item.question].id := Answer([r.answer], "")], at)
  {
    if given == map[] {
      assert Credited(c, c, map[], at);
    }
    CreditOneMore(c, c', given, r, at);
  }

  lemma LastOfBatch(b: Book, replies: seq<QuestionReply>, at: Time, i: nat)
    requires replies != [] && i < |b.calls| && Names(b, replies[|replies| - 1])
    ensures var init, r := replies[..|replies| - 1], replies[|replies| - 1];
            var here := b.index[r.item.id] == i;
            && CreditAll(b, replies, at).calls[i] ==
               (if here then Credit(CreditAll(b, init, at).calls[i], r, at) else CreditAll(b, init, at).calls[i])
            && Given(b, replies, i) ==
               (if here then Given(b, init, i)[NamedId(b, r) := Answer([r.answer], "")] else Given(b, init, i))
  {
  }

  lemma {:induction false} CreditAllMeaning(codec: Codec, b: Book, replies: seq<QuestionReply>, at: Time, i: nat)
    requires IndexInRange(|b.calls|, b.index) && Standing(codec, b, replies, at)
    requires i < |b.calls| && CallOk(b.calls[i])
    ensures AfterBatch(b, replies, at, i)
  {
    if replies != [] {
      var init, r := replies[..|replies| - 1], replies[|replies| - 1];
      CreditAllMeaning(codec, b, init, at, i);
      assert ReplyStands(codec, b, r, at);
      LastOfBatch(b, replies, at, i);
      if b.index[r.item.id] == i {
        NamedOnce(codec, b, replies, at);
        CreditLast(b.calls[i], CreditAll(b, init, at).calls[i], Given(b, init, i), r, at);
        assert NamedId(b, r) in Given(b, replies, i);
      }
    }
  }

  /** Every reply of an admitted batch has its answer in the book afterwards. */
  lemma {:induction false} EveryReplyGiven(codec: Codec, b: Book, replies: seq<QuestionReply>, at: Time, k: nat)
    requires IndexInRange(|b.calls|, b.index) && Standing(codec, b, replies, at) && k < |replies|
    requires CallOk(b.calls[b.index[replies[k].item.id]])
    ensures Names(b, replies[k])
    ensures var given := Given(b, replies, b.index[replies[k].item.id]);
            NamedId(b, replies[k]) in given && given[NamedId(b, replies[k])] == Answer([replies[k].answer], "")
  {
    var n := |replies| - 1;
    assert ReplyStands(codec, b, replies[n], at) && ReplyStands(codec, b, replies[k], at);
    var i := b.index[replies[k].item.id];
    if k == n {
      LastOfBatch(b, replies, at, i);
    } else {
      EveryReplyGiven(codec, b, replies[..n], at, k);
      GivenStays(codec, b, replies, at, i, NamedId(b, replies[k]));
    }
  }

  /** The last reply of a batch gives no question already given an answer another one. */
  lemma GivenStays(codec: Codec, b: Book, replies: seq<QuestionReply>, at: Time, i: nat, id: string)
    requires IndexInRange(|b.calls|, b.index) && Standing(codec, b, replies, at) && replies != []
    requires Names(b, replies[|replies| - 1]) && i < |b.calls| && DistinctIds(b.calls[i].questions)
    requires id in Given(b, replies[..|replies| - 1], i)
    ensures id in Given(b, replies, i) && Given(b, replies, i)[id] == Given(b, replies[..|replies| - 1], i)[id]
  {
    if b.index[replies[|replies| - 1].item.id] == i {
      NamedOnce(codec, b, replies, at);
    }
  }

  /** A tagged reply is taken whole or not at all. When it is taken, every answer in it lands in a slot that
      held none, stamped with the message's time, which is after the ask; calls it does not name and answers
      already held do not change. */
  lemma TaggedAllOrNone(codec: Codec, b: Book, text: string, at: Time)
    requires BookOk(b)
    ensures var b' := TaggedMessage(codec, b, text, at);
            || b' == b
            || (ReplyBody(codec, text).Some? &&
                var replies := codec.replies(ReplyBody(codec, text).value);
                && b'.index == b.index && |b'.calls| == |b.calls|
                && (forall i :: 0 <= i < |b.calls| ==> Untouched(b, replies, b', i) || Taken(b, replies, b', at, i))
                && (forall k :: 0 <= k < |replies| ==> Landed(b, b', replies[k], at)))
  {
    var b' := TaggedMessage(codec, b, text, at);
    if b' != b {
      var replies := codec.replies(ReplyBody(codec, text).value);
      forall i | 0 <= i < |b.calls| ensures Untouched(b, replies, b', i) || Taken(b, replies, b', at, i) {
        CreditAllMeaning(codec, b, replies, at, i);
      }
      forall k | 0 <= k < |replies| ensures Landed(b, b', replies[k], at) {
        assert ReplyStands(codec, b, replies[k], at);
        EveryReplyGiven(codec, b, replies, at, k);
        CreditAllMeaning(codec, b, replies, at, b.index[replies[k].item.id]);
      }
    }
  }

  ghost predicate Untouched(b: Book, replies: seq<QuestionReply>, b': Book, i: int)
    requires 0 <= i < |b.calls| == |b'.calls|
  {
    Given(b, replies, i) == map[] && b'.calls[i] == b.calls[i]
  }

  ghost predicate Taken(b: Book, replies: seq<QuestionReply>, b': Book, at: Time, i: int)
    requires 0 <= i < |b.calls| == |b'.calls|
  {
    && Given(b, replies, i) != map[] && Credited(b.calls[i], b'.calls[i], Given(b, replies, i), at)
    && b.calls[i].isAsync && b.calls[i].state == Outstanding && at > b.calls[i].askedAt
  }

  ghost predicate Landed(b: Book, b': Book, r: QuestionReply, at: Time) {
    && Names(b, r) && |b'.calls| == |b.calls|
    && var c, c' := b.calls[b.index[r.item.id]], b'.calls[b.index[r.item.id]];
    && NamedId(b, r) !in Entries(c.answers)
    && NamedId(b, r) in Entries(c'.answers) && Entries(c'.answers)[NamedId(b, r)] == Answer([r.answer], "")
    && NamedId(b, r) in Entries(c'.answerTimes) && Entries(c'.answerTimes)[NamedId(b, r)] == at
    && c.askedAt < at
  }

  // ---- a plain message -----------------------------------------------------------------------------

  lemma {:induction false} OnePending<A, T>(calls: seq<Call<A, T>>, i: nat)
    requires i < |calls| && PendingAsync(calls[i])
    ensures CountPending(calls) >= 1
    ensures CountPending(calls) == 1 ==> forall j :: 0 <= j < |calls| && PendingAsync(calls[j]) ==> j == i
  {
    var n := |calls| - 1;
    if i < n {
      OnePending(calls[..n], i);
    } else {
      forall j | 0 <= j < n && PendingAsync(calls[j]) ensures CountPending(calls) > 1 {
        OnePending(calls[..n], j);
      }
    }
  }

  /** A plain operator message becomes the reply of at most one call, one that held none, asked before it;
      it leaves no synchronous call open, and changes no answer. */
  lemma PlainCreditsAtMostOne(codec: Codec, b: Book, text: string, at: Time)
    ensures var b' := PlainMessage(codec, b, text, at);
            && b'.index == b.index && |b'.calls| == |b.calls|
            && (forall i :: 0 <= i < |b.calls| ==>
                  b'.calls[i] == b.calls[i].(state := b'.calls[i].state, reply := b'.calls[i].reply,
                                             replyAt := b'.calls[i].replyAt))
            && (forall i :: 0 <= i < |b.calls| && !b.calls[i].isAsync ==>
                  b'.calls[i].state != Outstanding && b'.calls[i].state != Expired)
            && (forall i :: 0 <= i < |b.calls| && b'.calls[i].reply != b.calls[i].reply ==>
                  b.calls[i].reply == "" && b'.calls[i].reply == text && b'.calls[i].replyAt == at > b.calls[i].askedAt)
            && (forall i, j :: 0 <= i < j < |b.calls| ==>
                  b'.calls[i].reply == b.calls[i].reply || b'.calls[j].reply == b.calls[j].reply)
  {
    var b' := PlainMessage(codec, b, text, at);
    forall i, j | 0 <= i < j < |b.calls|
      ensures b'.calls[i].reply == b.calls[i].reply || b'.calls[j].reply == b.calls[j].reply
    {
      if b'.calls[i].reply != b.calls[i].reply {
        OnePending(b.calls, i);
      }
    }
  }

  // ---- the invariant over every run ----------------------------------------------------------------

  lemma CreditedOk(c: BookCall, c': BookCall, given: map<string, Answer>, at: Time)
    requires CallOk(c) && c.isAsync && c.state == Outstanding && at > c.askedAt
    requires given != map[] && Credited(c, c', given, at)
    ensures CallOk(c')
  {
    assert Entries(c'.answers).Keys == Entries(c.answers).Keys + given.Keys;
    assert Entries(c'.answerTimes).Keys == Entries(c.answerTimes).Keys + given.Keys;
  }

  lemma TaggedKeepsOk(codec: Codec, b: Book, text: string, at: Time)
    requires BookOk(b)
    ensures BookOk(TaggedMessage(codec, b, text, at))
  {
    var b' := TaggedMessage(codec, b, text, at);
    if b' != b {
      var replies := codec.replies(ReplyBody(codec, text).value);
      forall i | 0 <= i < |b.calls| ensures CallOk(b'.calls[i]) && b'.calls[i].callId == b.calls[i].callId {
        CreditAllMeaning(codec, b, replies, at, i);
        if Given(b, replies, i) != map[] {
          CreditedOk(b.calls[i], b'.calls[i], Given(b, replies, i), at);
        }
      }
    }
  }

  lemma PlainKeepsOk(codec: Codec, b: Book, text: string, at: Time)
    requires BookOk(b)
    ensures BookOk(PlainMessage(codec, b, text, at))
  {
    var b' := PlainMessage(codec, b, text, at);
    forall i | 0 <= i < |b.calls| ensures CallOk(b'.calls[i]) && b'.calls[i].callId == b.calls[i].callId {
      assert CallOk(b.calls[i]);
    }
  }

  lemma AskKeepsOk(b: Book, r: Record)
    requires BookOk(b) && Asks(r)
    ensures BookOk(Ask(b, NewCall(r)))
  {
    NewCallOk(r);
    AskIndexed(b, NewCall(r));
  }

  lemma AskIndexed(b: Book, call: BookCall)
    requires IndexOk(b)
    ensures IndexOk(Ask(b, call))
    ensures forall i :: 0 <= i < |Ask(b, call).calls| ==> Ask(b, call).calls[i] == call || (i < |b.calls| && Ask(b, call).calls[i] == b.calls[i])
  {
  }

  lemma OutputKeepsOk(b: Book, r: Record)
    requires BookOk(b) && r.FunctionCallOutput?
    ensures BookOk(Output(b, r))
  {
    if r.callId in b.index {
      assert CallOk(b.calls[b.index[r.callId]]);
    }
  }

  lemma StepKeepsOk(codec: Codec, b: Book, r: Record)
    requires BookOk(b)
    ensures BookOk(Step(codec, b, r))
  {
    match r
    case Other =>
    case Message(role, parts, at) =>
      if OperatorMessage(parts).Some? {
        TaggedKeepsOk(codec, b, OperatorMessage(parts).value, at);
        PlainKeepsOk(codec, b, OperatorMessage(parts).value, at);
      }
    case FunctionCall(_, _, _, _) =>
      if Asks(r) {
        AskKeepsOk(b, r);
      }
    case FunctionCallOutput(_, _, _, _) => OutputKeepsOk(b, r);
  }

  lemma NewCallOk(r: Record)
    requires Asks(r)
    ensures CallOk(NewCall(r))
  {
    AsyncIdsDistinct(r.callId, r.questions);
    var c := NewCall(r);
    if c.questions != [] {
      assert c.questions[0].id in Ids(c.questions);
    }
  }

  lemma {:induction false} RunKeepsOk(codec: Codec, b: Book, lines: seq<Bytes>)
    requires BookOk(b)
    ensures BookOk(Run(codec, b, lines))
  {
    if lines != [] {
      RunKeepsOk(codec, b, lines[..|lines| - 1]);
      StepKeepsOk(codec, Run(codec, b, lines[..|lines| - 1]), codec.decode(lines[|lines| - 1]));
    }
  }

  /** The invariant holds of every rollout, whatever its records. */
  lemma EveryRolloutOk(codec: Codec, f: Bytes)
    ensures BookOk(ReadCalls(codec, f))
  {
    RunKeepsOk(codec, EMPTY_BOOK, CompleteLines(f));
  }

  // ---- over a whole run ----------------------------------------------------------------------------

  /** What no later record but a repeated ask of the same call can undo. */
  ghost predicate Persists(c: BookCall, c': BookCall) {
    && c'.callId == c.callId && c'.isAsync == c.isAsync && c'.askedAt == c.askedAt && c'.questions == c.questions
    && (c.state != Outstanding ==> c'.state != Outstanding)
    && (c.reply != "" ==> c'.reply == c.reply && c'.replyAt == c.replyAt)
    && (forall id :: id in Entries(c.answerTimes) ==>
          id in Entries(c'.answerTimes) && Entries(c'.answerTimes)[id] == Entries(c.answerTimes)[id])
  }

  /** The answers a call holds go on standing as they are. */
  ghost predicate AnswersStand(c: BookCall, c': BookCall) {
    forall id :: id in Entries(c.answers) ==>
      id in Entries(c'.answers) && Entries(c'.answers)[id] == Entries(c.answers)[id]
  }

  /** What becomes of a call's answers, `output` being what its last answering output gave. */
  ghost predicate AnswersAfter(c: BookCall, c': BookCall, output: Option<Table<Answer>>) {
    match output
    case Some(parsed) => c'.answers == parsed && c'.state != Outstanding
    case None => AnswersStand(c, c') && (c.state != Outstanding ==> c'.answers == c.answers)
  }

  ghost predicate Onward(c: BookCall, c': BookCall, output: Option<Table<Answer>>) {
    Persists(c, c') && AnswersAfter(c, c', output)
  }

  ghost predicate AsksAgain(r: Record, id: string) {
    Asks(r) && r.callId == id
  }

  /** An output that settles the call of that id with answers of its own. */
  ghost predicate AnswersFor(r: Record, id: string) {
    r.FunctionCallOutput? && r.callId == id && r.body.Fields? && r.body.answers.Table? && r.body.answers.entries != map[]
  }

  /** What the record gives as that call's answers, when it is such an output. */
  ghost function OutputOf(r: Record, id: string): Option<Table<Answer>> {
    if AnswersFor(r, id) then Some(r.parsed) else None
  }

  /** What the last such output among these lines gives. */
  ghost function LastOutput(codec: Codec, lines: seq<Bytes>, id: string): Option<Table<Answer>> {
    if lines == [] then None
    else
      var line := lines[|lines| - 1];
      if |line| <= MAX_LINE && AnswersFor(codec.decode(line), id) then Some(codec.decode(line).parsed)
      else LastOutput(codec, lines[..|lines| - 1], id)
  }

  lemma TaggedOnward(codec: Codec, b: Book, text: string, at: Time, i: nat)
    requires BookOk(b) && i < |b.calls|
    ensures Onward(b.calls[i], TaggedMessage(codec, b, text, at).calls[i], None)
  {
    var b' := TaggedMessage(codec, b, text, at);
    if b' != b {
      var replies := codec.replies(ReplyBody(codec, text).value);
      CreditAllMeaning(codec, b, replies, at, i);
      CreditedOnward(b, replies, at, i);
    }
  }

  lemma CreditedOnward(b: Book, replies: seq<QuestionReply>, at: Time, i: nat)
    requires i < |b.calls| && CallOk(b.calls[i]) && AfterBatch(b, replies, at, i)
    ensures Onward(b.calls[i], CreditAll(b, replies, at).calls[i], None)
  {
    var c, c', given := b.calls[i], CreditAll(b, replies, at).calls[i], Given(b, replies, i);
    if given != map[] {
      assert Stamped(given, at).Keys == given.Keys;
      assert Entries(c.answers).Keys == Entries(c.answerTimes).Keys;
    }
  }

  lemma PlainOnward(codec: Codec, b: Book, text: string, at: Time, i: nat)
    requires i < |b.calls|
    ensures Onward(b.calls[i], PlainMessage(codec, b, text, at).calls[i], None)
  {
  }

  lemma MessageOnward(codec: Codec, b: Book, role: string, parts: seq<Part>, at: Time, i: nat)
    requires BookOk(b) && i < |b.calls|
    ensures var b' := Step(codec, b, Message(role, parts, at));
            b'.index == b.index && |b'.calls| == |b.calls| && Onward(b.calls[i], b'.calls[i], None)
  {
    if role == "user" && OperatorMessage(parts).Some? {
      var text := OperatorMessage(parts).value;
      if Tagged(text) {
        TaggedOnward(codec, b, text, at, i);
      } else {
        PlainOnward(codec, b, text, at, i);
      }
    }
  }

  lemma AskOnward(b: Book, call: BookCall, id: string)
    requires IndexOk(b) && id in b.index && call.callId != id
    ensures var b' := Ask(b, call);
            id in b'.index && b'.index[id] == b.index[id] && b'.calls[b'.index[id]] == b.calls[b.index[id]]
  {
    if call.callId in b.index {
      assert b.index[call.callId] != b.index[id];
    }
  }

  /** An output touches no call but its own. That one keeps all but its state, its time of settling and, when
      the output answers, its answers; an output that says nothing about an answer changes nothing. */
  lemma OutputChanges(b: Book, r: Record, id: string)
    requires IndexOk(b) && id in b.index && r.FunctionCallOutput?
    ensures var b', i := Output(b, r), b.index[id];
            var c, c' := b.calls[i], b'.calls[i];
            && b'.index == b.index && |b'.calls| == |b.calls|
            && c' == c.(state := c'.state, resolvedAt := c'.resolvedAt, answers := c'.answers)
            && (c' != c ==> r.callId == id && c'.resolvedAt == r.at && c'.state == if AnswersFor(r, id) then Answered else Expired)
            && (c'.answers != c.answers ==> AnswersFor(r, id))
            && (AnswersFor(r, id) ==> c'.answers == r.parsed && c'.state == Answered)
  {
    if r.callId in b.index && r.callId != id {
      assert b.index[r.callId] != b.index[id];
    }
  }

  lemma SettledOnward(c: BookCall, c': BookCall, parsed: Table<Answer>, answering: bool)
    requires c' == c.(state := c'.state, resolvedAt := c'.resolvedAt, answers := c'.answers)
    requires c' != c ==> c'.state != Outstanding
    requires if answering then c'.answers == parsed && c'.state == Answered else c'.answers == c.answers
    ensures Onward(c, c', if answering then Some(parsed) else None)
  {
  }

  lemma StepOnward(codec: Codec, b: Book, r: Record, id: string)
    requires BookOk(b) && id in b.index && !AsksAgain(r, id)
    ensures var b' := Step(codec, b, r);
            && id in b'.index && b'.index[id] == b.index[id]
            && Onward(b.calls[b.index[id]], b'.calls[b'.index[id]], OutputOf(r, id))
  {
    var i := b.index[id];
    match r
    case Other =>
    case Message(role, parts, at) => MessageOnward(codec, b, role, parts, at, i);
    case FunctionCall(_, _, _, _) =>
      if Asks(r) {
        AskOnward(b, NewCall(r), id);
      }
    case FunctionCallOutput(_, _, _, _) =>
      OutputChanges(b, r, id);
      SettledOnward(b.calls[i], Output(b, r).calls[i], r.parsed, AnswersFor(r, id));
  }

  lemma OnwardTwice(c: BookCall, c': BookCall, c'': BookCall, first: Option<Table<Answer>>, next: Option<Table<Answer>>)
    requires Onward(c, c', first) && Onward(c', c'', next)
    ensures Onward(c, c'', if next.Some? then next else first)
  {
  }

  /** Answers are credited once over a whole run. From any point of a rollout on, until the same call id is
      asked again, a call keeps its position, its questions, its reply once it has one, and every answer
      time it holds, and it never becomes outstanding again. Every answer it holds stands too, until an output
      of that call answers it; from then on its answers are those of its last such output. */
  lemma {:induction false} CreditedOnce(codec: Codec, b: Book, lines: seq<Bytes>, id: string)
    requires BookOk(b) && id in b.index
    requires forall line :: line in lines ==> !AsksAgain(codec.decode(line), id)
    ensures var b' := Run(codec, b, lines);
            && id in b'.index && b'.index[id] == b.index[id]
            && Onward(b.calls[b.index[id]], b'.calls[b'.index[id]], LastOutput(codec, lines, id))
  {
    if lines != [] {
      var init, line := lines[..|lines| - 1], lines[|lines| - 1];
      var before := Run(codec, b, init);
      CreditedOnce(codec, b, init, id);
      if |line| <= MAX_LINE {
        RunKeepsOk(codec, b, init);
        StepOnward(codec, before, codec.decode(line), id);
        var after := Step(codec, before, codec.decode(line));
        OnwardTwice(b.calls[b.index[id]], before.calls[b.index[id]], after.calls[b.index[id]],
                    LastOutput(codec, init, id), OutputOf(codec.decode(line), id));
      }
    }
  }
}
