/** What each record does to the question ledger, told by the fields of the record and of the calls alone. */
module StepFacts {
  import opened Text
  import opened QuestionBook
  import opened QuestionBookFacts

  // ---- an output -----------------------------------------------------------------------------------

  /** The ledger with another call at a position. */
  function WithCall(b: Book, i: nat, c: BookCall): Book
    requires i < |b.calls|
  {
    b.(calls := b.calls[i := c])
  }

  /** An output for a known call: answers given settle it as answered, with those answers; an answers table that is
      there and empty is the timer giving up; a body that cannot be read, or has no answers, says nothing. An
      output for a call nobody made says nothing either. */
  lemma OutputOutcome(codec: Codec, b: Book, r: Record)
    requires IndexOk(b) && r.FunctionCallOutput?
    ensures r.callId !in b.index ==> Step(codec, b, r) == b
    ensures r.callId in b.index ==>
      var i := b.index[r.callId];
      var c := b.calls[i];
      && (r.body.Unreadable? ==> Step(codec, b, r) == b)
      && (r.body.Fields? && r.body.answers.Nil? ==> Step(codec, b, r) == b)
      && (r.body.Fields? && r.body.answers.Table? && r.body.answers.entries == map[] ==>
            Step(codec, b, r) == WithCall(b, i, c.(state := Expired, resolvedAt := r.at)))
      && (r.body.Fields? && r.body.answers.Table? && r.body.answers.entries != map[] ==>
            Step(codec, b, r) == WithCall(b, i, c.(state := Answered, resolvedAt := r.at, answers := r.parsed)))
  {
  }

  // ---- an ask --------------------------------------------------------------------------------------

  /** The questions of an asynchronous ask are numbered under the call; any other's are as they came. */
  ghost predicate AskedAs(r: Record, questions: seq<AskedQuestion>)
    requires r.FunctionCall?
  {
    if r.name == ASK_TOOL_ASYNC
    then |questions| == |r.questions|
         && forall k :: 0 <= k < |questions| ==> questions[k] == r.questions[k].(id := r.callId + ":" + Itoa(k))
    else questions == r.questions
  }

  /** An ask is outstanding, with nothing answered: where the call of its id stood, or at the end. No other call
      changes, and a call of any other tool changes nothing. */
  lemma AskOutcome(codec: Codec, b: Book, r: Record)
    requires IndexOk(b) && r.FunctionCall?
    ensures var b' := Step(codec, b, r);
            if r.name != ASK_TOOL && r.name != ASK_TOOL_ASYNC then b' == b
            else
              var i := if r.callId in b.index then b.index[r.callId] else |b.calls|;
              && b'.index == b.index[r.callId := i]
              && |b'.calls| == (if r.callId in b.index then |b.calls| else |b.calls| + 1)
              && AskedAs(r, b'.calls[i].questions)
              && b'.calls[i] == Call(r.callId, r.name == ASK_TOOL_ASYNC, r.at, b'.calls[i].questions, Outstanding, Nil, Nil, 0, "", 0)
              && forall j :: 0 <= j < |b.calls| && j != i ==> b'.calls[j] == b.calls[j]
  {
  }

  // ---- a message -----------------------------------------------------------------------------------

  /** The words of a message: its input texts, a newline between. */
  lemma {:induction false} JoinedOne(texts: seq<string>, text: string)
    requires texts != []
    ensures JoinLines([text]) == text
    ensures JoinLines(texts + [text]) == JoinLines(texts) + "\n" + text
  {
    assert (texts + [text])[..|texts|] == texts;
  }

  ghost predicate InputsOf(parts: seq<Part>, places: seq<nat>) {
    && (forall j :: 0 <= j < |places| ==> places[j] < |parts| && parts[places[j]].isInputText)
    && (forall j, k :: 0 <= j < k < |places| ==> places[j] < places[k])
    && forall i :: 0 <= i < |parts| && parts[i].isInputText ==> i in places
  }

  /** The texts joined are those of the input parts, all of them, in order. */
  lemma {:induction false} InputTexts(parts: seq<Part>) returns (places: seq<nat>)
    ensures InputsOf(parts, places) && |JoinInput(parts)| == |places|
    ensures forall j :: 0 <= j < |places| ==> JoinInput(parts)[j] == parts[places[j]].text
  {
    if parts == [] {
      places := [];
    } else {
      var n := |parts| - 1;
      places := InputTexts(parts[..n]);
      if parts[n].isInputText {
        places := places + [n];
        assert n in places;
      }
      assert forall i :: 0 <= i < n ==> parts[..n][i] == parts[i];
    }
  }

  /** Which of the two kinds of message one is: one not the user's, or with a hook prompt or a relay in it, is none. */
  lemma MessageOutcome(codec: Codec, b: Book, role: string, parts: seq<Part>, at: Time)
    requires IndexOk(b)
    ensures var b' := Step(codec, b, Message(role, parts, at));
            var text := JoinLines(JoinInput(parts));
            if role != "user" || exists k :: 0 <= k < |parts| && parts[k].isInputText && parts[k].relayed then b' == b
            else if Occurs(text, REPLY_OPEN) || Occurs(text, REPLY_CLOSE) then b' == TaggedMessage(codec, b, text, at)
            else b' == PlainMessage(codec, b, text, at)
  {
    TagsMeaning(JoinLines(JoinInput(parts)));
    StepOfMessage(codec, b, role, parts, at);
  }

  lemma StepOfMessage(codec: Codec, b: Book, role: string, parts: seq<Part>, at: Time)
    requires IndexOk(b)
    ensures var b' := Step(codec, b, Message(role, parts, at));
            var text := JoinLines(JoinInput(parts));
            if role != "user" || exists k :: 0 <= k < |parts| && parts[k].isInputText && parts[k].relayed then b' == b
            else b' == if Tagged(text) then TaggedMessage(codec, b, text, at) else PlainMessage(codec, b, text, at)
  {
  }

  lemma TagsMeaning(text: string)
    ensures Tagged(text) <==> Occurs(text, REPLY_OPEN) || Occurs(text, REPLY_CLOSE)
  {
    ContainsMeaning(text, REPLY_OPEN);
    ContainsMeaning(text, REPLY_CLOSE);
  }

  // ---- a plain message -----------------------------------------------------------------------------

  /** The call at `k` is the one asynchronous call that waits. */
  ghost predicate OnlyWaiting(b: Book, k: nat) {
    && k < |b.calls| && b.calls[k].isAsync && b.calls[k].state == Outstanding
    && forall j :: 0 <= j < |b.calls| && b.calls[j].isAsync && b.calls[j].state == Outstanding ==> j == k
  }

  /** The first approval among the questions offers no option the text is. */
  ghost predicate Undecided(codec: Codec, questions: seq<AskedQuestion>, text: string) {
    exists k :: 0 <= k < |questions| && FirstApproval(codec, questions, k)
                && forall o :: o in questions[k].options ==> codec.trim(o.text) != codec.trim(text)
  }

  predicate FirstApproval(codec: Codec, questions: seq<AskedQuestion>, k: nat)
    requires k < |questions|
  {
    codec.approval(questions[k]) && forall j :: 0 <= j < k ==> !codec.approval(questions[j])
  }

  lemma {:induction false} UndecidedMeaning(codec: Codec, questions: seq<AskedQuestion>, text: string)
    ensures ApprovalNeedsChoice(codec, questions, text) <==> Undecided(codec, questions, text)
  {
    if questions != [] {
      if codec.approval(questions[0]) {
        assert FirstApproval(codec, questions, 0);
        assert forall k :: 0 <= k < |questions| && FirstApproval(codec, questions, k) ==> k == 0;
      } else {
        var rest := questions[1..];
        UndecidedMeaning(codec, rest, text);
        forall k | 0 <= k < |rest| ensures FirstApproval(codec, rest, k) <==> FirstApproval(codec, questions, k + 1) {
          assert forall j :: 0 <= j < |rest| ==> rest[j] == questions[j + 1];
        }
        if Undecided(codec, questions, text) {
          var k :| 0 <= k < |questions| && FirstApproval(codec, questions, k)
                   && forall o :: o in questions[k].options ==> codec.trim(o.text) != codec.trim(text);
          assert FirstApproval(codec, rest, k - 1);
        }
        if Undecided(codec, rest, text) {
          var k :| 0 <= k < |rest| && FirstApproval(codec, rest, k)
                   && forall o :: o in rest[k].options ==> codec.trim(o.text) != codec.trim(text);
          assert FirstApproval(codec, questions, k + 1);
        }
      }
    }
  }

  lemma {:induction false} NoneWaiting(calls: seq<BookCall>)
    requires forall j :: 0 <= j < |calls| ==> !(calls[j].isAsync && calls[j].state == Outstanding)
    ensures CountPending(calls) == 0
  {
    if calls != [] {
      NoneWaiting(calls[..|calls| - 1]);
    }
  }

  lemma {:induction false} OneWaiting(calls: seq<BookCall>, k: nat)
    requires k < |calls| && calls[k].isAsync && calls[k].state == Outstanding
    requires forall j :: 0 <= j < |calls| && calls[j].isAsync && calls[j].state == Outstanding ==> j == k
    ensures CountPending(calls) == 1
  {
    var n := |calls| - 1;
    if k == n {
      NoneWaiting(calls[..n]);
    } else {
      OneWaiting(calls[..n], k);
    }
  }

  lemma {:induction false} SomeWaiting(calls: seq<BookCall>) returns (k: nat)
    requires CountPending(calls) > 0
    ensures k < |calls| && calls[k].isAsync && calls[k].state == Outstanding
  {
    var n := |calls| - 1;
    if calls[n].isAsync && calls[n].state == Outstanding {
      k := n;
    } else {
      k := SomeWaiting(calls[..n]);
    }
  }

  lemma OnlyWaitingCounts(b: Book)
    ensures CountPending(b.calls) == 1 <==> exists k :: OnlyWaiting(b, k)
  {
    if CountPending(b.calls) == 1 {
      var k := SomeWaiting(b.calls);
      OnePending(b.calls, k);
      assert OnlyWaiting(b, k);
    }
    if k :| OnlyWaiting(b, k) {
      OneWaiting(b.calls, k);
    }
  }

  /** What a plain operator message makes of each call. A settled one stays; a synchronous one is superseded; an
      asynchronous one stays too unless exactly one such call waits in the whole ledger, and its first approval, if
      it asks for any, is answered by one of the options. Then it is superseded, and if it is the one that waits,
      has a single question and no reply, and was asked before, the words are its reply. */
  lemma PlainOutcome(codec: Codec, b: Book, text: string, at: Time, i: nat)
    requires i < |b.calls|
    ensures var c, c' := b.calls[i], PlainMessage(codec, b, text, at).calls[i];
            var decided := (exists k :: OnlyWaiting(b, k)) && !Undecided(codec, c.questions, text);
            c' == if c.state == Answered || c.state == Superseded || (c.isAsync && !decided) then c
                  else if c.isAsync && c.state == Outstanding && |c.questions| == 1 && c.reply == "" && text != "" && at > c.askedAt
                  then c.(state := Superseded, reply := text, replyAt := at)
                  else c.(state := Superseded)
  {
    OnlyWaitingCounts(b);
    UndecidedMeaning(codec, b.calls[i].questions, text);
  }

  /** So when two asynchronous calls wait, a plain message leaves both as they are. */
  lemma TwoWaitingSurvive(codec: Codec, b: Book, text: string, at: Time, i: nat, j: nat)
    requires i < |b.calls| && j < |b.calls| && i != j
    requires b.calls[i].isAsync && b.calls[i].state == Outstanding && b.calls[j].isAsync && b.calls[j].state == Outstanding
    ensures PlainMessage(codec, b, text, at).calls[i] == b.calls[i] && PlainMessage(codec, b, text, at).calls[j] == b.calls[j]
  {
    PlainOutcome(codec, b, text, at, i);
    PlainOutcome(codec, b, text, at, j);
    assert forall k :: !OnlyWaiting(b, k);
  }

  // ---- a tagged message ----------------------------------------------------------------------------

  lemma Between(t: string, open: string, close: string, body: string)
    ensures (match CutPrefix(t, open) case None => None case Some(rest) => CutSuffix(rest, close)) == Some(body) <==>
            t == open + body + close
  {
    if t == open + body + close {
      assert t == open + (body + close) && t[|open|..] == body + close;
      assert (body + close)[|body|..] == close;
    }
    if open <= t && HasSuffix(t[|open|..], close) {
      var rest := t[|open|..];
      assert t == open + rest && rest == rest[..|rest| - |close|] + close;
    }
  }

  /** The reply body is what stands between the tags, when the trimmed text is all of that. */
  lemma ReplyBodyMeaning(codec: Codec, text: string, body: string)
    ensures ReplyBody(codec, text) == Some(body) <==> codec.trim(text) == REPLY_OPEN + body + REPLY_CLOSE
  {
    Between(codec.trim(text), REPLY_OPEN, REPLY_CLOSE, body);
  }

  /** A question that waits for an answer: of an asynchronous call that waits, asked before, quoted from its start,
      and not answered yet; and an answer that says something. */
  ghost predicate MayTake(codec: Codec, b: Book, r: QuestionReply, at: Time)
    requires IndexOk(b)
  {
    && r.item.Item? && r.item.id in b.index && codec.trim(r.answer) != "" && r.question != ""
    && var c := b.calls[b.index[r.item.id]];
    && c.isAsync && c.state == Outstanding && c.askedAt < at
    && 0 <= r.item.question < |c.questions|
    && var q := c.questions[r.item.question];
    r.question <= q.question && (c.answers.Table? ==> q.id !in c.answers.entries)
  }

  /** A batch to be taken: something in it, each reply to a question that waits, no two to the same. */
  ghost predicate Takeable(codec: Codec, b: Book, replies: seq<QuestionReply>, at: Time)
    requires IndexOk(b)
  {
    && replies != []
    && (forall k :: 0 <= k < |replies| ==> MayTake(codec, b, replies[k], at))
    && forall j, k :: 0 <= j < k < |replies| ==> replies[j].item != replies[k].item
  }

  lemma StandsExactly(codec: Codec, b: Book, r: QuestionReply, at: Time)
    requires IndexOk(b)
    ensures ReplyStands(codec, b, r, at) <==> MayTake(codec, b, r, at)
  {
  }

  lemma KeysDiffer(codec: Codec, b: Book, r: QuestionReply, s: QuestionReply, at: Time)
    requires IndexOk(b) && MayTake(codec, b, r, at) && MayTake(codec, b, s, at)
    ensures Key(b, r) == Key(b, s) <==> r.item == s.item
  {
  }

  lemma AdmittedExactly(codec: Codec, b: Book, replies: seq<QuestionReply>, at: Time)
    requires IndexOk(b)
    ensures Admitted(codec, b, replies, at) <==> Takeable(codec, b, replies, at)
  {
    forall k | 0 <= k < |replies| ensures ReplyStands(codec, b, replies[k], at) <==> MayTake(codec, b, replies[k], at) {
      StandsExactly(codec, b, replies[k], at);
    }
    if forall k :: 0 <= k < |replies| ==> MayTake(codec, b, replies[k], at) {
      forall j, k | 0 <= j < k < |replies| ensures Key(b, replies[j]) == Key(b, replies[k]) <==> replies[j].item == replies[k].item {
        KeysDiffer(codec, b, replies[j], replies[k], at);
      }
    }
  }

  /** When a tagged reply is taken, and when it changes nothing. */
  lemma TaggedExactly(codec: Codec, b: Book, text: string, body: string, at: Time)
    requires BookOk(b) && codec.trim(text) == REPLY_OPEN + body + REPLY_CLOSE
    ensures var b', replies := TaggedMessage(codec, b, text, at), codec.replies(body);
            if Takeable(codec, b, replies, at)
            then b'.index == b.index && |b'.calls| == |b.calls|
                 && (forall k :: 0 <= k < |replies| ==> Landed(b, b', replies[k], at))
                 && forall i :: 0 <= i < |b.calls| ==> Untouched(b, replies, b', i) || Taken(b, replies, b', at, i)
            else b' == b
  {
    var replies := codec.replies(body);
    ReplyBodyMeaning(codec, text, body);
    AdmittedExactly(codec, b, replies, at);
    if Takeable(codec, b, replies, at) {
      AnsweredSomething(codec, b, replies, at);
      TaggedAllOrNone(codec, b, text, at);
    }
  }

  lemma AnsweredSomething(codec: Codec, b: Book, replies: seq<QuestionReply>, at: Time)
    requires BookOk(b) && Admitted(codec, b, replies, at)
    ensures CreditAll(b, replies, at) != b
  {
    assert ReplyStands(codec, b, replies[0], at);
    var i := b.index[replies[0].item.id];
    EveryReplyGiven(codec, b, replies, at, 0);
    CreditAllMeaning(codec, b, replies, at, i);
  }

  /** Anything else with a tag in it changes nothing. */
  lemma NotAReply(codec: Codec, b: Book, text: string, at: Time)
    requires IndexOk(b) && forall body :: codec.trim(text) != REPLY_OPEN + body + REPLY_CLOSE
    ensures TaggedMessage(codec, b, text, at) == b
  {
    if ReplyBody(codec, text).Some? {
      ReplyBodyMeaning(codec, text, ReplyBody(codec, text).value);
    }
  }
}
