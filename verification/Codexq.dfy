/** The Codex question reader as it runs: a ledger whose calls stand in a shared array and hold references to
    answer maps, the two followers of a rollout (the tracker, which returns its own array, and the cache behind
    CallsAt, which copies), and the activity reader. */
module Codexq {
  import opened Lines
  import opened Text
  import opened QuestionBook
  import opened QuestionBookFacts
  import opened Rollout
  import opened Slices

  /** A Go map on the heap. Two calls, or a call and a list handed out earlier, may refer to the same one. */
  class Cell<V> {
    var entries: map<string, V>

    constructor (entries: map<string, V>)
      ensures this.entries == entries
    {
      this.entries := entries;
    }

    method Set(id: string, value: V)
      modifies this
      ensures entries == old(entries)[id := value]
    {
      entries := entries[id := value];
    }
  }

  type LiveCall = Call<Cell?<Answer>, Cell?<Time>>

  ghost function Cells(calls: seq<LiveCall>): set<object> {
    (set c | c in calls && c.answers != null :: c.answers as object) +
    (set c | c in calls && c.answerTimes != null :: c.answerTimes as object)
  }

  ghost function TableOf<V>(cell: Cell?<V>): Table<V>
    reads if cell == null then {} else {cell}
  {
    if cell == null then Nil else Table(cell.entries)
  }

  ghost function ViewOf(c: LiveCall): BookCall
    reads Cells([c])
  {
    assert c in [c];
    Call(c.callId, c.isAsync, c.askedAt, c.questions, c.state, TableOf(c.answers), TableOf(c.answerTimes),
         c.resolvedAt, c.reply, c.replyAt)
  }

  /** A list of calls read through its references. */
  ghost function ViewAll(calls: seq<LiveCall>): (r: seq<BookCall>)
    reads Cells(calls)
    ensures |r| == |calls|
    ensures forall i :: 0 <= i < |calls| ==> Cells([calls[i]]) <= Cells(calls) && r[i] == ViewOf(calls[i])
  {
    assert forall i :: 0 <= i < |calls| ==> Cells([calls[i]]) <= Cells(calls);
    seq(|calls|, i requires 0 <= i < |calls| reads Cells(calls) => ViewOf(calls[i]))
  }

  /** `maps.Clone`: a fresh map, or nil for nil. */
  method Clone<V>(cell: Cell?<V>) returns (copy: Cell?<V>)
    ensures copy != null ==> fresh(copy)
    ensures TableOf(copy) == TableOf(cell)
  {
    copy := null;
    if cell != null {
      copy := new Cell(cell.entries);
    }
  }

  method HasInput(parts: seq<Part>) returns (text: string, operator: bool)
    ensures operator <==> OperatorMessage(parts).Some?
    ensures operator ==> text == OperatorMessage(parts).value
  {
    var texts: seq<string> := [];
    text, operator := "", false;
    for k := 0 to |parts|
      invariant texts == JoinInput(parts[..k])
      invariant forall j :: 0 <= j < k && parts[j].isInputText ==> !parts[j].relayed
    {
      assert parts[..k + 1][..k] == parts[..k];
      if parts[k].isInputText {
        if parts[k].relayed {
          return;
        }
        texts := texts + [parts[k].text];
      }
    }
    assert parts[..|parts|] == parts;
    text, operator := JoinLines(texts), true;
  }

  method ApprovalUnanswered(codec: Codec, questions: seq<AskedQuestion>, text: string) returns (needs: bool)
    ensures needs == ApprovalNeedsChoice(codec, questions, text)
  {
    for k := 0 to |questions|
      invariant ApprovalNeedsChoice(codec, questions, text) == ApprovalNeedsChoice(codec, questions[k..], text)
    {
      var q := questions[k];
      if codec.approval(q) {
        for j := 0 to |q.options|
          invariant forall i :: 0 <= i < j ==> codec.trim(text) != codec.trim(q.options[i].text)
        {
          if codec.trim(text) == codec.trim(q.options[j].text) {
            return false;
          }
        }
        return true;
      }
    }
    return false;
  }

  /** One call's turn in the loop over a plain operator message. */
  method AfterPlain(codec: Codec, call: LiveCall, pending: nat, text: string, at: Time) returns (after: LiveCall)
    ensures after == Retire(codec, call, pending, text, at)
  {
    after := call;
    if call.state == Outstanding || call.state == Expired {
      var needs := ApprovalUnanswered(codec, call.questions, text);
      if call.isAsync && (pending != 1 || needs) {
        return;
      }
      if call.isAsync && call.state == Outstanding && pending == 1 && |call.questions| == 1 &&
         call.reply == "" && text != "" && at > call.askedAt {
        after := call.(reply := text, replyAt := at);
      }
      after := after.(state := Superseded);
    }
  }

  lemma PendingNext(calls: seq<LiveCall>, i: nat)
    requires i < |calls|
    ensures CountPending(calls[..i + 1]) == CountPending(calls[..i]) + if PendingAsync(calls[i]) then 1 else 0
  {
    assert calls[..i + 1][..i] == calls[..i];
  }

  lemma {:induction false} CountPendingView(calls: seq<LiveCall>)
    ensures CountPending(ViewAll(calls)) == CountPending(calls)
  {
    if calls != [] {
      var init := calls[..|calls| - 1];
      CountPendingView(init);
      assert ViewAll(calls)[..|calls| - 1] == ViewAll(init);
    }
  }

  /** One answer written into a call. The maps are copied first, since a list handed out earlier may still
      refer to them; a call that holds no map gets two new ones. */
  method Written(call: LiveCall, u: Update, at: Time) returns (after: LiveCall)
    requires Writable(ViewOf(call), u)
    ensures fresh(Cells([after]))
    ensures ViewOf(after) == Credit(ViewOf(call), AsReply(u), at)
  {
    var answers := Clone(call.answers);
    var times := Clone(call.answerTimes);
    if answers == null {
      answers := new Cell(map[]);
      times := new Cell(map[]);
    }
    var id := call.questions[u.question].id;
    answers.Set(id, Answer([u.answer], ""));
    times.Set(id, at);
    after := call.(answers := answers, answerTimes := times);
    if |answers.entries| == |call.questions| {
      after := after.(state := Answered, resolvedAt := at);
    }
  }

  method TaggedBody(codec: Codec, text: string) returns (body: Option<string>)
    ensures body == ReplyBody(codec, text)
  {
    var trimmed := codec.trim(text);
    if !(REPLY_OPEN <= trimmed) {
      return None;
    }
    var inner := trimmed[|REPLY_OPEN|..];
    if !HasSuffix(inner, REPLY_CLOSE) {
      return None;
    }
    return Some(inner[..|inner| - |REPLY_CLOSE|]);
  }

  /** A call that its output resolves; an answer's map is a new one. */
  method AfterOutput(call: LiveCall, state: State, parsed: Table<Answer>, at: Time) returns (after: LiveCall)
    ensures ViewOf(after) == Resolve(ViewOf(call), state, parsed, at)
    ensures fresh(Cells([after]) - Cells([call]))
  {
    after := call.(state := state, resolvedAt := at);
    if state == Answered {
      var cell: Cell?<Answer> := null;
      if parsed.Table? {
        cell := new Cell(parsed.entries);
      }
      after := after.(answers := cell);
    }
  }

  datatype Update = Update(call: nat, question: nat, answer: string)

  function AsReply(u: Update): QuestionReply {
    QuestionReply(u.answer, "", Item("", u.question))
  }

  /** The question is one of the call's, and the call holds both maps or neither. */
  predicate Writable(c: BookCall, u: Update) {
    u.question < |c.questions| && (c.answers.Nil? <==> c.answerTimes.Nil?)
  }

  function Updated(b: Book, u: Update, at: Time): Book
    requires u.call < |b.calls| && u.question < |b.calls[u.call].questions|
  {
    b.(calls := b.calls[u.call := Credit(b.calls[u.call], AsReply(u), at)])
  }

  /** The updates of a batch are its replies by position. */
  ghost predicate UpdatesFor(index: map<string, nat>, replies: seq<QuestionReply>, updates: seq<Update>) {
    && |updates| == |replies|
    && forall k :: 0 <= k < |replies| ==>
         && replies[k].item.Item? && replies[k].item.id in index && replies[k].item.question >= 0
         && updates[k] == Update(index[replies[k].item.id], replies[k].item.question, replies[k].answer)
  }

  /** What both followers keep of a rollout: how far it was read, the calls, and where each call id is. */
  class Ledger {
    const codec: Codec
    const calls: Slice<LiveCall>
    var index: map<string, nat>
    var offset: nat
    /** What the calls read as through their references, and every answer map they ever referred to. */
    ghost var book: Book
    ghost var cells: set<object>

    constructor (codec: Codec)
      ensures Valid() && fresh(Frame()) && cells == {} && this.codec == codec && Position() == START
    {
      this.codec := codec;
      calls := new Slice();
      index, offset, book, cells := map[], 0, EMPTY_BOOK, {};
    }

    /** What recording a line may write: the ledger, its slice, and the slice's array. No answer map. */
    ghost function Frame(): set<object>
      reads calls
    {
      {this, calls, calls.rows}
    }

    ghost predicate Valid()
      reads this, calls, calls.rows, cells
    {
      && calls.Valid() && Cells(calls.List()) <= cells && Frame() !! cells
      && book == Book(ViewAll(calls.List()), index)
    }

    /** Every answer map the ledger has come to refer to is a new one. */
    twostate predicate NewMaps()
      reads this
    {
      forall c :: c in cells ==> c in old(cells) || fresh(c)
    }

    ghost function Position(): Position
      reads this
    {
      Rollout.Position(offset, book)
    }

    lemma BookAt(i: nat)
      requires Valid() && i < calls.len
      ensures |book.calls| == calls.len && book.calls[i] == ViewOf(calls.rows[i]) && Cells([calls.rows[i]]) <= cells
    {
      assert calls.List()[i] == calls.rows[i];
    }

    /** One call written where it stands, which reads as `after`. */
    method Put(i: nat, call: LiveCall, ghost after: BookCall)
      requires Valid() && i < calls.len && Cells([call]) !! Frame() && ViewOf(call) == after
      modifies this`book, this`cells, calls.rows
      ensures Valid() && calls.rows == old(calls.rows) && cells == old(cells) + Cells([call])
      ensures book == old(book).(calls := old(book).calls[i := after])
    {
      ghost var list := calls.List()[i := call];
      ViewUpdated(calls.List(), i, call);
      CellsUpdated(calls.List(), i, call);
      label before:
      book, cells := book.(calls := ViewAll(list)), cells + Cells([call]);
      calls.Put(i, call);
      HeldUnchanged@before(list);
    }

    /** How many asynchronous calls wait. */
    method Waiting() returns (pending: nat)
      requires Valid()
      ensures pending == CountPending(book.calls)
    {
      ghost var list := calls.List();
      pending := 0;
      for i := 0 to calls.len
        invariant pending == CountPending(list[..i])
      {
        PendingNext(list, i);
        if calls.rows[i].isAsync && calls.rows[i].state == Outstanding {
          pending := pending + 1;
        }
      }
      assert list[..|list|] == list;
      CountPendingView(list);
    }

    /** An operator message without a reply tag: every call in turn, in place. */
    method Retired(text: string, at: Time)
      requires Valid()
      modifies this`book, this`cells, calls.rows
      ensures Valid() && calls.rows == old(calls.rows) && cells == old(cells) && book == PlainMessage(codec, old(book), text, at)
    {
      ghost var goal := PlainMessage(codec, book, text, at).calls;
      var pending := Waiting();
      RetireEach(pending, text, at, goal);
    }

    method RetireEach(pending: nat, text: string, at: Time, ghost goal: seq<BookCall>)
      requires Valid() && |goal| == |book.calls|
      requires forall j :: 0 <= j < |goal| ==> goal[j] == Retire(codec, book.calls[j], pending, text, at)
      modifies this`book, this`cells, calls.rows
      ensures Valid() && calls.rows == old(calls.rows) && cells == old(cells) && book == old(book).(calls := goal)
    {
      ghost var b := book;
      Partly(goal, b.calls);
      var n := Size();
      for i := 0 to n
        invariant Valid() && calls.rows == old(calls.rows) && cells == old(cells)
        invariant book == b.(calls := Mixed(goal, b.calls, i))
      {
        RetireNext(pending, text, at, goal, b, i);
      }
    }

    method Size() returns (n: nat)
      requires Valid()
      ensures n == |book.calls|
    {
      n := calls.len;
    }

    method RetireNext(pending: nat, text: string, at: Time, ghost goal: seq<BookCall>, ghost b: Book, i: nat)
      requires Valid() && i < |goal| == |b.calls| && book == b.(calls := Mixed(goal, b.calls, i))
      requires goal[i] == Retire(codec, b.calls[i], pending, text, at)
      modifies this`book, this`cells, calls.rows
      ensures Valid() && calls.rows == old(calls.rows) && cells == old(cells)
      ensures book == b.(calls := Mixed(goal, b.calls, i + 1))
    {
      OneMore(goal, b.calls, i);
      RetireOne(i, pending, text, at);
    }

    method RetireOne(i: nat, pending: nat, text: string, at: Time)
      requires Valid() && i < |book.calls|
      modifies this`book, this`cells, calls.rows
      ensures Valid() && calls.rows == old(calls.rows) && cells == old(cells)
      ensures book == old(book).(calls := old(book).calls[i := Retire(codec, old(book).calls[i], pending, text, at)])
    {
      BookAt(i);
      ghost var after := Retire(codec, book.calls[i], pending, text, at);
      var call := AfterPlain(codec, calls.rows[i], pending, text, at);
      RetireView(codec, calls.rows[i], call, pending, text, at);
      assert cells + Cells([call]) == cells;
      Put(i, call, after);
    }

    /** Phase one of a tagged reply: every reply must stand, or nothing is updated. */
    method Resolved(replies: seq<QuestionReply>, at: Time) returns (updates: seq<Update>, ok: bool)
      requires Valid() && IndexInRange(calls.len, index)
      ensures ok <==> Standing(codec, book, replies, at)
      ensures ok ==> UpdatesFor(index, replies, updates)
    {
      updates, ok := [], true;
      var seen: set<(int, int)> := {};
      ghost var b := book;
      for k := 0 to |replies|
        invariant Standing(codec, b, replies[..k], at) && UpdatesFor(index, replies[..k], updates)
        invariant KeysAre(b, replies[..k], seen)
      {
        var reply := replies[k];
        var stands := Stands(reply, at);
        StandsNext(codec, b, replies, k, at, seen);
        if !stands {
          return [], false;
        }
        var i := index[reply.item.id];
        if (i, reply.item.question) in seen {
          return [], false;
        }
        seen := seen + {(i, reply.item.question)};
        updates := updates + [Update(i, reply.item.question, reply.answer)];
      }
      assert replies[..|replies|] == replies;
    }

    /** One reply of a batch on its own. */
    method Stands(reply: QuestionReply, at: Time) returns (stands: bool)
      requires Valid() && IndexInRange(calls.len, index)
      ensures stands <==> ReplyStands(codec, book, reply, at)
    {
      if reply.item.BadItem? || codec.trim(reply.answer) == "" || reply.item.id !in index {
        return false;
      }
      var call := calls.rows[index[reply.item.id]];
      BookAt(index[reply.item.id]);
      if !call.isAsync || call.state != Outstanding || !(at > call.askedAt) ||
         reply.item.question < 0 || reply.item.question >= |call.questions| {
        return false;
      }
      var q := call.questions[reply.item.question];
      if reply.question == "" || !(reply.question <= q.question) {
        return false;
      }
      stands := !(call.answers != null && q.id in call.answers.entries);
    }

    /** Phase two: the updates of an admitted batch, in order. No write reaches a nil map. */
    method Store(ghost replies: seq<QuestionReply>, updates: seq<Update>, at: Time)
      requires Valid() && BookOk(book) && Standing(codec, book, replies, at) && UpdatesFor(index, replies, updates)
      modifies this`book, this`cells, calls.rows
      ensures Valid() && calls.rows == old(calls.rows) && NewMaps() && book == CreditAll(old(book), replies, at)
    {
      ghost var b := book;
      assert replies[..0] == [];
      for k := 0 to |updates|
        invariant Valid() && calls.rows == old(calls.rows) && NewMaps()
        invariant book == CreditAll(b, replies[..k], at)
      {
        StoreNext(b, replies, updates, at, k);
      }
      assert replies[..|replies|] == replies;
    }

    method StoreNext(ghost b: Book, ghost replies: seq<QuestionReply>, updates: seq<Update>, at: Time, k: nat)
      requires BookOk(b) && Standing(codec, b, replies, at) && UpdatesFor(b.index, replies, updates) && k < |updates|
      requires Valid() && book == CreditAll(b, replies[..k], at)
      modifies this`book, this`cells, calls.rows
      ensures Valid() && calls.rows == old(calls.rows) && NewMaps()
      ensures book == CreditAll(b, replies[..k + 1], at)
    {
      NextCredited(codec, b, replies, updates, at, k);
      StoreOne(updates[k], at);
    }

    method StoreOne(u: Update, at: Time)
      requires Valid() && u.call < |book.calls| && Writable(book.calls[u.call], u)
      modifies this`book, this`cells, calls.rows
      ensures Valid() && calls.rows == old(calls.rows) && NewMaps() && book == Updated(old(book), u, at)
    {
      BookAt(u.call);
      ghost var after := Credit(book.calls[u.call], AsReply(u), at);
      var call := Written(calls.rows[u.call], u, at);
      Put(u.call, call, after);
    }

    /** A message carrying a reply tag: taken whole, or not at all. */
    method QuestionReplied(text: string, at: Time)
      requires Valid() && BookOk(book)
      modifies this`book, this`cells, calls.rows
      ensures Valid() && calls.rows == old(calls.rows) && NewMaps() && book == TaggedMessage(codec, old(book), text, at)
    {
      var body := TaggedBody(codec, text);
      if body.None? {
        return;
      }
      var replies := codec.replies(body.value);
      if replies == [] {
        return;
      }
      TakeReplies(replies, at);
    }

    /** Both phases: every reply is checked before any is stored. */
    method TakeReplies(replies: seq<QuestionReply>, at: Time)
      requires Valid() && BookOk(book) && replies != []
      modifies this`book, this`cells, calls.rows
      ensures Valid() && calls.rows == old(calls.rows) && NewMaps()
      ensures book == if Admitted(codec, old(book), replies, at) then CreditAll(old(book), replies, at) else old(book)
    {
      var updates, ok := Resolved(replies, at);
      if ok {
        Store(replies, updates, at);
      }
    }

    method Asked(callId: string, isAsync: bool, questions: seq<AskedQuestion>, at: Time)
      requires Valid() && BookOk(book)
      modifies this`book, this`cells, this`index, calls, calls.rows
      ensures Valid() && cells == old(cells) && (calls.rows == old(calls.rows) || fresh(calls.rows))
      ensures book == Ask(old(book), Call(callId, isAsync, at,
                if isAsync then WithAsyncIds(callId, questions) else questions, Outstanding, Nil, Nil, 0, "", 0))
    {
      var named := questions;
      if isAsync {
        named := Named(callId, questions);
      }
      Enter(Call(callId, isAsync, at, named, Outstanding, null, null, 0, "", 0));
    }

    /** A call that holds no answers yet: where the call of that id stands, or at the end. */
    method Enter(call: LiveCall)
      requires Valid() && BookOk(book) && call.answers == null && call.answerTimes == null
      modifies this`book, this`cells, this`index, calls, calls.rows
      ensures Valid() && cells == old(cells) && (calls.rows == old(calls.rows) || fresh(calls.rows))
      ensures book == Ask(old(book), ViewOf(call))
    {
      assert Cells([call]) == {};
      if call.callId in index {
        Put(index[call.callId], call, ViewOf(call));
      } else {
        AppendCall(call);
      }
    }

    /** A new call, at the end of the slice. */
    method AppendCall(call: LiveCall)
      requires Valid() && Cells([call]) == {}
      modifies this`book, this`index, calls, calls.rows
      ensures Valid() && (calls.rows == old(calls.rows) || fresh(calls.rows))
      ensures book == Book(old(book).calls + [ViewOf(call)], old(book).index[call.callId := |old(book).calls|])
    {
      ghost var list := calls.List() + [call];
      ViewAppended(calls.List(), call);
      CellsAppended(calls.List(), call);
      label before:
      index, book := index[call.callId := calls.len], Book(ViewAll(list), index[call.callId := calls.len]);
      calls.Append(call);
      HeldUnchanged@before(list);
    }

    method Resolve(r: Record)
      requires r.FunctionCallOutput? && Valid() && IndexInRange(calls.len, index)
      modifies this`book, this`cells, calls.rows
      ensures Valid() && calls.rows == old(calls.rows) && NewMaps() && book == Output(old(book), r)
    {
      if r.callId !in index {
        return;
      }
      var i := index[r.callId];
      var state := OutputState(r.body);
      if state == Outstanding {
        return;
      }
      ghost var b := book;
      BookAt(i);
      ghost var after := QuestionBook.Resolve(book.calls[i], state, r.parsed, r.at);
      var call := AfterOutput(calls.rows[i], state, r.parsed, r.at);
      Put(i, call, after);
    }

    /** `recordCall`: one line of the rollout, already known to be short enough. The ledger invariant holds
        before and after; of what lists handed out earlier hold, nothing is written. */
    method RecordCall(line: Bytes)
      requires Valid() && BookOk(book)
      modifies this`book, this`cells, this`index, calls, calls.rows
      ensures Valid() && NewMaps() && (calls.rows == old(calls.rows) || fresh(calls.rows))
      ensures book == Step(codec, old(book), codec.decode(line)) && BookOk(book)
    {
      var r := codec.decode(line);
      Apply(r);
      StepKeepsOk(codec, old(book), r);
    }

    /** A line longer than the cap is taken as read and not looked at. */
    method TakeLine(line: Bytes)
      requires Valid() && BookOk(book)
      modifies this`book, this`cells, this`index, calls, calls.rows
      ensures Valid() && NewMaps() && (calls.rows == old(calls.rows) || fresh(calls.rows))
      ensures book == StepLine(codec, old(book), line) && BookOk(book)
    {
      if |line| <= MAX_LINE {
        RecordCall(line);
      }
    }

    method Apply(r: Record)
      requires Valid() && BookOk(book)
      modifies this`book, this`cells, this`index, calls, calls.rows
      ensures Valid() && NewMaps() && (calls.rows == old(calls.rows) || fresh(calls.rows))
      ensures book == Step(codec, old(book), r)
    {
      match r
      case Other =>
      case Message(role, parts, at) =>
        if role == "user" {
          UserMessage(parts, at);
        }
      case FunctionCall(name, callId, questions, at) =>
        if name == ASK_TOOL || name == ASK_TOOL_ASYNC {
          Asked(callId, name == ASK_TOOL_ASYNC, questions, at);
        }
      case FunctionCallOutput(_, _, _, _) =>
        Resolve(r);
    }

    method UserMessage(parts: seq<Part>, at: Time)
      requires Valid() && BookOk(book)
      modifies this`book, this`cells, calls.rows
      ensures Valid() && calls.rows == old(calls.rows) && NewMaps() && book == Step(codec, old(book), Message("user", parts, at))
    {
      var text, operator := HasInput(parts);
      if operator {
        if Contains(text, REPLY_OPEN) || Contains(text, REPLY_CLOSE) {
          QuestionReplied(text, at);
        } else {
          Retired(text, at);
        }
      }
    }

    /** `consume`, and the loop of CallsAt: takes every whole record from the offset on. */
    method Consume(f: Bytes)
      requires Valid() && BookOk(book) && offset <= |f|
      modifies Frame()
      ensures Valid() && BookOk(book) && NewMaps() && (calls.rows == old(calls.rows) || fresh(calls.rows))
      ensures Position() == Poll(codec, old(Position()), f)
    {
      ghost var goal := Poll(codec, Position(), f);
      var eof := false;
      while !eof
        invariant Valid() && BookOk(book) && NewMaps() && (calls.rows == old(calls.rows) || fresh(calls.rows))
        invariant offset <= |f| && goal == if eof then Position() else Poll(codec, Position(), f)
        decreases !eof, |f| - offset
      {
        eof := ConsumeNext(f);
      }
    }

    /** One round of the loop: a whole record is taken, an unfinished one is left. */
    method ConsumeNext(f: Bytes) returns (eof: bool)
      requires Valid() && BookOk(book) && offset <= |f|
      modifies Frame()
      ensures Valid() && BookOk(book) && NewMaps() && (calls.rows == old(calls.rows) || fresh(calls.rows))
      ensures old(offset) <= offset <= |f| && (!eof ==> old(offset) < offset)
      ensures old(Poll(codec, Position(), f)) == if eof then Position() else Poll(codec, Position(), f)
    {
      var line;
      line, eof := NextRecord(codec, book, f, offset);
      if !eof {
        TakeRecord(line);
      }
    }

    method TakeRecord(line: Bytes)
      requires Valid() && BookOk(book)
      modifies Frame()
      ensures Valid() && BookOk(book) && NewMaps() && (calls.rows == old(calls.rows) || fresh(calls.rows))
      ensures Position() == Rollout.Position(old(offset) + |line|, StepLine(codec, old(book), line))
    {
      Pass(|line|);
      TakeLine(line);
    }

    method Pass(size: nat)
      requires Valid()
      modifies this`offset
      ensures Valid() && offset == old(offset) + size
    {
      offset := offset + size;
    }

    /** What the file has gained, and then `append([]Call(nil), state.calls...)`: the calls as they stand, in an
        array of their own. */
    method ReadOn(f: Bytes) returns (list: array<LiveCall>)
      requires Valid() && BookOk(book) && offset <= |f|
      modifies Frame()
      ensures Valid() && BookOk(book) && NewMaps() && (calls.rows == old(calls.rows) || fresh(calls.rows))
      ensures Position() == Poll(codec, old(Position()), f)
      ensures fresh(list) && list != calls.rows && Cells(list[..]) <= cells && HeldView(list) == book.calls
    {
      if |f| > offset {
        Consume(f);
      } else {
        PollNothing(codec, Position(), f);
      }
      list := calls.Copy();
    }
  }

  lemma PollAfresh(codec: Codec, p: Position, f: Bytes)
    requires BookInRange(p.book)
    ensures Poll(codec, if |f| < p.offset then START else p, f) == Poll(codec, p, f)
  {
  }

  lemma PollNothing(codec: Codec, p: Position, f: Bytes)
    requires p.offset == |f| && BookInRange(p.book)
    ensures Poll(codec, p, f) == p
  {
    assert f[p.offset..] == [];
  }

  /** What a list somebody holds reads as. */
  ghost function HeldView(held: array<LiveCall>): seq<BookCall>
    reads held, Cells(held[..])
  {
    ViewAll(held[..])
  }

  /** The record at `offset`, and what a poll from there comes to once it is taken. */
  method NextRecord(ghost codec: Codec, ghost b: Book, f: Bytes, offset: nat) returns (line: Bytes, eof: bool)
    requires offset <= |f| && IndexInRange(|b.calls|, b.index)
    ensures offset + |line| <= |f| && (!eof ==> line != [])
    ensures Poll(codec, Position(offset, b), f) ==
            if eof then Position(offset, b) else Poll(codec, Position(offset + |line|, StepLine(codec, b, line)), f)
  {
    line, eof := ReadBytes(f, offset);
    if !eof {
      RunFirst(codec, b, line, CompleteLines(f[offset + |line|..]));
    }
  }

  method Named(callId: string, questions: seq<AskedQuestion>) returns (named: seq<AskedQuestion>)
    ensures named == WithAsyncIds(callId, questions)
  {
    named := questions;
    for i := 0 to |named|
      invariant |named| == |questions|
      invariant forall j :: 0 <= j < i ==> named[j] == questions[j].(id := AsyncId(callId, j))
      invariant forall j :: i <= j < |named| ==> named[j] == questions[j]
    {
      named := named[i := named[i].(id := callId + ":" + Itoa(i))];
    }
  }

  ghost predicate KeysAre(b: Book, replies: seq<QuestionReply>, seen: set<(int, int)>) {
    seen == set k | 0 <= k < |replies| :: Key(b, replies[k])
  }

  /** The next reply of a standing beginning: with it the beginning still stands when the reply stands and its
      question is not named yet, and else the batch falls. */
  lemma StandsNext(codec: Codec, b: Book, replies: seq<QuestionReply>, k: nat, at: Time, seen: set<(int, int)>)
    requires IndexInRange(|b.calls|, b.index) && k < |replies|
    requires Standing(codec, b, replies[..k], at) && KeysAre(b, replies[..k], seen)
    ensures var stands := ReplyStands(codec, b, replies[k], at) && Key(b, replies[k]) !in seen;
            if stands then Standing(codec, b, replies[..k + 1], at) else !Standing(codec, b, replies, at)
    ensures KeysAre(b, replies[..k + 1], seen + {Key(b, replies[k])})
    ensures replies[..k + 1] == replies[..k] + [replies[k]]
  {
    assert forall j :: 0 <= j < k ==> replies[..k][j] == replies[j];
    if Key(b, replies[k]) in seen {
      var j :| 0 <= j < k && Key(b, replies[..k][j]) == Key(b, replies[k]);
      assert Key(b, replies[j]) == Key(b, replies[k]);
    }
  }

  lemma CreditSame(c: BookCall, r: QuestionReply, s: QuestionReply, at: Time)
    requires r.item.Item? && s.item.Item? && r.item.question == s.item.question && r.answer == s.answer
    requires 0 <= r.item.question < |c.questions|
    ensures Credit(c, r, at) == Credit(c, s, at)
  {
  }

  lemma ViewUpdated(calls: seq<LiveCall>, i: nat, call: LiveCall)
    requires i < |calls|
    ensures ViewAll(calls[i := call]) == ViewAll(calls)[i := ViewOf(call)]
  {
  }

  lemma CellsUpdated(calls: seq<LiveCall>, i: nat, call: LiveCall)
    requires i < |calls|
    ensures Cells(calls[i := call]) <= Cells(calls) + Cells([call])
  {
    assert forall c :: c in calls[i := call] ==> c in calls || c in [call];
  }

  lemma CellsAppended(calls: seq<LiveCall>, call: LiveCall)
    ensures Cells(calls + [call]) <= Cells(calls) + Cells([call])
  {
    assert forall c :: c in calls + [call] ==> c in calls || c in [call];
  }

  lemma ViewAppended(calls: seq<LiveCall>, call: LiveCall)
    ensures ViewAll(calls + [call]) == ViewAll(calls) + [ViewOf(call)]
  {
  }

  /** In the middle of an admitted batch the next reply still names a question, of a call that holds both maps
      or neither. */
  lemma StandsHalfway(codec: Codec, b: Book, replies: seq<QuestionReply>, at: Time, k: nat)
    requires BookOk(b) && Standing(codec, b, replies, at) && k < |replies|
    ensures var soFar := CreditAll(b, replies[..k], at);
            && soFar.index == b.index && Names(soFar, replies[k])
            && var c := soFar.calls[b.index[replies[k].item.id]]; c.answers.Nil? <==> c.answerTimes.Nil?
  {
    assert ReplyStands(codec, b, replies[k], at);
    var i := b.index[replies[k].item.id];
    assert CallOk(b.calls[i]);
    CreditAllMeaning(codec, b, replies[..k], at, i);
  }

  /** The update of a reply writes what the reply credits. */
  lemma UpdateCredits(b: Book, r: QuestionReply, u: Update, at: Time)
    requires Names(b, r) && u == Update(b.index[r.item.id], r.item.question, r.answer)
    ensures CreditIn(b, r, at) == Updated(b, u, at)
  {
    CreditSame(b.calls[u.call], AsReply(u), r, at);
  }

  /** The next update has a call to write to, and writes the next reply. */
  lemma NextCredited(codec: Codec, b: Book, replies: seq<QuestionReply>, updates: seq<Update>, at: Time, k: nat)
    requires BookOk(b) && Standing(codec, b, replies, at) && UpdatesFor(b.index, replies, updates) && k < |replies|
    ensures var soFar := CreditAll(b, replies[..k], at);
            && updates[k].call < |soFar.calls| && Writable(soFar.calls[updates[k].call], updates[k])
            && CreditAll(b, replies[..k + 1], at) == Updated(soFar, updates[k], at)
  {
    var soFar := CreditAll(b, replies[..k], at);
    StandsHalfway(codec, b, replies, at, k);
    LastCredited(b, replies, k, at);
    UpdateCredits(soFar, replies[k], updates[k], at);
  }

  lemma LastCredited(b: Book, replies: seq<QuestionReply>, k: nat, at: Time)
    requires k < |replies|
    ensures CreditAll(b, replies[..k + 1], at) == CreditIn(CreditAll(b, replies[..k], at), replies[k], at)
  {
    assert replies[..k + 1][..k] == replies[..k];
  }

  /** The first `i` of one list, and the rest of another as long. */
  ghost function Mixed<T>(goal: seq<T>, start: seq<T>, i: nat): seq<T>
    requires i <= |goal| == |start|
  {
    goal[..i] + start[i..]
  }

  lemma OneMore<T>(goal: seq<T>, start: seq<T>, i: nat)
    requires |goal| == |start| && i < |goal|
    ensures Mixed(goal, start, i)[i] == start[i] && |Mixed(goal, start, i)| == |start|
    ensures Mixed(goal, start, i)[i := goal[i]] == Mixed(goal, start, i + 1)
  {
  }

  lemma Partly<T>(goal: seq<T>, start: seq<T>)
    requires |goal| == |start|
    ensures Mixed(goal, start, 0) == start && Mixed(goal, start, |goal|) == goal
  {
  }

  lemma RetireView(codec: Codec, call: LiveCall, after: LiveCall, pending: nat, text: string, at: Time)
    requires after == Retire(codec, call, pending, text, at)
    ensures ViewOf(after) == Retire(codec, ViewOf(call), pending, text, at) && Cells([after]) == Cells([call])
  {
  }

  /** What is written elsewhere leaves a list as it reads. */
  twostate lemma HeldUnchanged(held: seq<LiveCall>)
    requires unchanged(Cells(held))
    ensures ViewAll(held) == old(ViewAll(held))
  {
  }

  // ---- the followers -------------------------------------------------------------------------------

  lemma RunFirst(codec: Codec, b: Book, line: Bytes, more: seq<Bytes>)
    requires IndexInRange(|b.calls|, b.index)
    ensures Run(codec, b, [line] + more) == Run(codec, StepLine(codec, b, line), more)
  {
    RunAppend(codec, b, [line], more);
    assert [line][..0] == [];
  }

  /** What the board shows of one call. */
  datatype Question = Question(
    callId: string, isAsync: bool, header: string, prompt: string, askedAt: Time, state: State)

  function Summary<A, T>(c: Call<A, T>): Question {
    if c.questions == [] then Question(c.callId, c.isAsync, "", "", c.askedAt, c.state)
    else Question(c.callId, c.isAsync, c.questions[0].header, c.questions[0].question, c.askedAt, c.state)
  }

  /** The question is the call, under the header and the words of its first question, if it has any. */
  predicate ShownFor<A, T>(c: Call<A, T>, q: Question) {
    && q.callId == c.callId && q.isAsync == c.isAsync && q.askedAt == c.askedAt && q.state == c.state
    && (c.questions != [] ==> q.header == c.questions[0].header && q.prompt == c.questions[0].question)
    && (c.questions == [] ==> q.header == "" && q.prompt == "")
  }

  /** One question for each call, in order. */
  function Shown<A, T>(calls: seq<Call<A, T>>): (shown: seq<Question>)
    ensures |shown| == |calls| && forall j :: 0 <= j < |calls| ==> shown[j] == Summary(calls[j])
    ensures forall j :: 0 <= j < |calls| ==> ShownFor(calls[j], shown[j])
  {
    seq(|calls|, j requires 0 <= j < |calls| => Summary(calls[j]))
  }

  /** What an array reads as once a list has been written over its beginning, as far as it is long. */
  ghost function Overwritten<T>(before: seq<T>, list: seq<T>): seq<T> {
    if |list| <= |before| then list + before[|list|..] else list[..|before|]
  }

  lemma OverwrittenMore<T>(before: seq<T>, list: seq<T>, x: T)
    ensures |list| < |before| ==> Overwritten(before, list)[|list| := x] == Overwritten(before, list + [x])
    ensures |list| >= |before| ==> Overwritten(before, list) == Overwritten(before, list + [x])
  {
  }

  class Tracker {
    const codec: Codec
    var questions: Slice<Question>
    var ledger: Ledger

    constructor (codec: Codec)
      ensures Valid() && fresh(Frame()) && this.codec == codec && ledger.Position() == START
    {
      this.codec := codec;
      questions := new Slice();
      ledger := new Ledger(codec);
    }

    ghost function Frame(): set<object>
      reads this, questions, ledger.calls
    {
      {this, questions, questions.rows} + ledger.Frame()
    }

    ghost predicate Sound()
      reads this, questions, ledger, ledger.calls, ledger.calls.rows, ledger.cells
    {
      && ledger.codec == codec && ledger.Valid() && BookOk(ledger.book) && questions.Valid()
      && {this, questions, questions.rows} !! ledger.Frame() + ledger.cells
    }

    ghost predicate Valid()
      reads this, questions, questions.rows, ledger, ledger.calls, ledger.calls.rows, ledger.cells
    {
      Sound() && questions.List() == Shown(ledger.book.calls)
    }

    /** What the tracker has come to write is new. */
    twostate predicate FrameGrows()
      reads this, questions, ledger.calls
    {
      forall o :: o in Frame() ==> o in old(Frame()) || fresh(o)
    }

    /** One poll of the file as it stands. What is returned is the tracker's own array, as far as it is in use:
        an array handed out before is written over, unless the poll starts afresh. */
    method Update(f: Bytes) returns (shown: array<Question>, count: nat)
      requires Valid()
      modifies Frame()
      ensures Valid() && shown == questions.rows && count == questions.len && FrameGrows()
      ensures ledger.Position() == Poll(codec, old(ledger.Position()), f)
      ensures count <= shown.Length && shown[..count] == Shown(ledger.book.calls)
      ensures old(questions.rows)[..] ==
              if |f| < old(ledger.offset) then old(questions.rows[..]) else Overwritten(old(questions.rows[..]), Shown(ledger.book.calls))
    {
      PollAfresh(codec, ledger.Position(), f);
      if |f| < ledger.offset {
        Restart(f);
      } else {
        Refresh(f);
      }
      shown, count := questions.rows, questions.len;
    }

    /** The file is another one, so the tracker forgets what it holds, its array too. */
    method Restart(f: Bytes)
      modifies this
      ensures FrameGrows() && Valid() && ledger.Position() == Poll(codec, START, f)
    {
      Reset();
      Refresh(f);
    }

    method Reset()
      modifies this
      ensures FrameGrows() && Sound() && fresh(questions) && fresh(questions.rows) && fresh(ledger.Frame()) && ledger.Position() == START
    {
      questions := new Slice();
      ledger := new Ledger(codec);
    }

    /** What the file has gained, and the questions written anew. */
    method Refresh(f: Bytes)
      requires Sound() && ledger.offset <= |f|
      modifies questions, questions.rows, ledger.Frame()
      ensures FrameGrows() && Valid() && ledger.Position() == Poll(codec, old(ledger.Position()), f)
      ensures old(questions.rows)[..] == Overwritten(old(questions.rows[..]), Shown(ledger.book.calls))
    {
      Advance(f);
      Show();
    }

    method Advance(f: Bytes)
      requires Sound() && ledger.offset <= |f|
      modifies ledger.Frame()
      ensures FrameGrows() && Sound() && ledger.Position() == Poll(codec, old(ledger.Position()), f)
    {
      ledger.Consume(f);
    }

    method Show()
      requires Sound()
      modifies questions, questions.rows
      ensures Valid() && FrameGrows()
      ensures old(questions.rows)[..] == Overwritten(old(questions.rows[..]), Shown(ledger.book.calls))
    {
      var calls := ledger.calls.rows[..ledger.calls.len];
      ShownView(calls);
      Reshow(calls, questions);
    }
  }

  /** What a tracker handed out before is its own array: the next poll writes the new questions over it, unless
      it starts afresh, so it shows them as far as it was long. */
  method UpdateWhileHeld(tracker: Tracker, f: Bytes, held: array<Question>, count: nat)
    requires tracker.Valid() && held == tracker.questions.rows && count == tracker.questions.len
    modifies tracker.Frame()
    ensures tracker.ledger.Position() == Poll(tracker.codec, old(tracker.ledger.Position()), f)
    ensures tracker.Valid() && count <= held.Length && (|f| < old(tracker.ledger.offset) || count <= |tracker.ledger.book.calls|)
    ensures held[..count] ==
            if |f| < old(tracker.ledger.offset) then old(held[..count]) else Shown(tracker.ledger.book.calls)[..count]
  {
    ghost var afresh, before, p := |f| < tracker.ledger.offset, held[..], tracker.ledger.Position();
    if !afresh {
      CallsStay(tracker.codec, p.book, CompleteLines(f[p.offset..]));
    }
    var shown, n := tracker.Update(f);
    assert held[..count] == held[..][..count];
    if !afresh {
      OverwrittenBeginning(before, Shown(tracker.ledger.book.calls), count);
    }
  }

  lemma OverwrittenBeginning<T>(before: seq<T>, list: seq<T>, count: nat)
    requires count <= |before| && count <= |list|
    ensures Overwritten(before, list)[..count] == list[..count]
  {
  }

  lemma {:induction false} CallsStay(codec: Codec, b: Book, lines: seq<Bytes>)
    requires IndexInRange(|b.calls|, b.index)
    ensures |Run(codec, b, lines).calls| >= |b.calls|
  {
    if lines != [] {
      CallsStay(codec, b, lines[..|lines| - 1]);
    }
  }

  /** Two polls of a growing file: the array the first one returned, which showed the questions of its time, ends
      up showing those of the second. */
  method PollTwice(codec: Codec, f: Bytes, g: Bytes) returns (held: array<Question>, count: nat)
    requires f <= g
    ensures count == |ReadCalls(codec, f).calls| <= held.Length && count <= |ReadCalls(codec, g).calls|
    ensures held[..count] == Shown(ReadCalls(codec, g).calls)[..count]
  {
    TwoPolls(codec, f, g);
    var tracker;
    tracker, held, count := FirstPoll(codec, f);
    UpdateWhileHeld(tracker, g, held, count);
  }

  method FirstPoll(codec: Codec, f: Bytes) returns (tracker: Tracker, held: array<Question>, count: nat)
    ensures fresh(tracker.Frame()) && tracker.Valid() && tracker.codec == codec
    ensures held == tracker.questions.rows && count == tracker.questions.len
    ensures tracker.ledger.Position() == Poll(codec, START, f)
    ensures held[..count] == Shown(tracker.ledger.book.calls)
  {
    tracker := new Tracker(codec);
    held, count := tracker.Update(f);
  }

  lemma TwoPolls(codec: Codec, f: Bytes, g: Bytes)
    requires f <= g
    ensures Poll(codec, START, f) == Fresh(codec, f) && Poll(codec, Fresh(codec, f), g) == Fresh(codec, g)
    ensures CompleteEnd(f) <= |g|
  {
    assert f[0..] == f;
    PollGrown(codec, f, g);
  }

  /** So a tracker's earlier result does change: an ask shown outstanding is superseded by the operator's next
      message, in the very array handed out before it. */
  lemma SharedResultChanges() returns (codec: Codec, f: Bytes, g: Bytes)
    ensures f <= g && |g| >= CompleteEnd(f)
    ensures var before, after := Shown(ReadCalls(codec, f).calls), Shown(ReadCalls(codec, g).calls);
            |before| == |after| == 1 && before[0].state == Outstanding && after[0].state == Superseded
  {
    var ask, word: Bytes := [0, NEWLINE], [1, NEWLINE];
    codec := Codec(
      line => if line == [0, NEWLINE] then FunctionCall(ASK_TOOL, "id", [], 0) else Message("user", [], 1),
      text => [], text => text, question => false);
    f, g := ask, ask + word;
    FirstRecord([0], []);
    FirstRecord([0], word);
    FirstRecord([1], []);
    assert [0] + [NEWLINE] + [] == f && [0] + [NEWLINE] + word == g && [1] + [NEWLINE] + [] == word;
    RunOne(codec, EMPTY_BOOK, ask);
    RunFirst(codec, EMPTY_BOOK, ask, [word]);
    AskStep(codec, ask);
    RunOne(codec, ASKED, word);
    WordStep(codec, word);
  }

  const ASKED := Book([Call("id", false, 0, [], Outstanding, Nil, Nil, 0, "", 0)], map["id" := 0])

  lemma AskStep(codec: Codec, line: Bytes)
    requires |line| <= MAX_LINE && codec.decode(line) == FunctionCall(ASK_TOOL, "id", [], 0)
    ensures StepLine(codec, EMPTY_BOOK, line) == ASKED
  {
  }

  lemma WordStep(codec: Codec, line: Bytes)
    requires |line| <= MAX_LINE && codec.decode(line) == Message("user", [], 1)
    ensures var calls := StepLine(codec, ASKED, line).calls; |calls| == 1 && calls[0].state == Superseded
  {
    assert JoinLines([]) == "";
  }

  lemma RunOne(codec: Codec, b: Book, line: Bytes)
    requires IndexInRange(|b.calls|, b.index)
    ensures Run(codec, b, [line]) == StepLine(codec, b, line)
  {
    assert [line][..0] == [];
  }

  /** `questions[:0]`, and one question for each call appended: into the array there is while it has room. */
  method Reshow(calls: seq<LiveCall>, questions: Slice<Question>)
    requires questions.Valid()
    modifies questions, questions.rows
    ensures questions.Valid() && questions.List() == Shown(calls)
    ensures questions.rows == old(questions.rows) || fresh(questions.rows)
    ensures old(questions.rows)[..] == Overwritten(old(questions.rows[..]), Shown(calls))
  {
    ghost var shown, rows, before := Shown(calls), questions.rows, questions.rows[..];
    questions.Truncate();
    for i := 0 to |calls|
      invariant questions.Valid() && questions.List() == shown[..i]
      invariant questions.rows == rows || (fresh(questions.rows) && i > |before|)
      invariant rows[..] == Overwritten(before, shown[..i])
    {
      OverwrittenMore(before, shown[..i], shown[i]);
      assert shown[..i] + [shown[i]] == shown[..i + 1];
      questions.Append(Summary(calls[i]));
    }
    assert shown[..|shown|] == shown;
  }

  lemma ShownView(calls: seq<LiveCall>)
    ensures Shown(ViewAll(calls)) == Shown(calls)
  {
    assert forall j :: 0 <= j < |calls| ==> Summary(ViewAll(calls)[j]) == Summary(calls[j]);
  }

  /** The shared cache behind CallsAt: one ledger per path. */
  class CallCache {
    const codec: Codec
    var parsedBy: map<string, Ledger>
    /** Everything a read may write but the cache itself, and every answer map a ledger refers to. */
    ghost var repr: set<object>
    ghost var maps: set<object>

    constructor (codec: Codec)
      ensures Valid() && parsedBy == map[] && repr == {} && this.codec == codec
    {
      this.codec := codec;
      parsedBy, repr, maps := map[], {}, {};
    }

    ghost predicate Valid()
      reads this, repr, maps
    {
      Sound(repr, maps)
    }

    /** Each ledger is as it should be, writes within `written`, and refers to maps within `referred`; no two
        write the same, and nothing written is a map. */
    ghost predicate Sound(written: set<object>, referred: set<object>)
      reads this, written, referred
    {
      SoundAs(parsedBy, written, referred)
    }

    ghost predicate SoundAs(ledgers: map<string, Ledger>, written: set<object>, referred: set<object>)
      reads written, referred
    {
      && this !in written + referred && written !! referred
      && (forall p :: p in ledgers ==> Within(ledgers[p], written, referred) && EntryOk(ledgers[p]))
      && forall p, q :: p in ledgers && q in ledgers && p != q ==> ledgers[p].Frame() !! ledgers[q].Frame()
    }

    ghost predicate Within(l: Ledger, written: set<object>, referred: set<object>)
      reads written, referred
    {
      {l, l.calls} <= written && l.calls.rows in written && l.cells <= referred
    }

    ghost predicate EntryOk(l: Ledger)
      reads l, l.calls, l.calls.rows, l.cells
    {
      l.codec == codec && l.Valid() && BookOk(l.book)
    }

    /** A list the cache does not write; the answer maps in it are ones the cache knows, and writes none of. */
    ghost predicate Holds(list: array<LiveCall>)
      reads this, list
    {
      list !in repr && Cells(list[..]) <= maps
    }

    /** What the cache has come to write is new. */
    twostate predicate WritesMoreOnlyFresh()
      reads this
    {
      forall o :: o in repr ==> o in old(repr) || fresh(o)
    }

    ghost function PositionOf(path: string): Position
      reads this, set p | p in parsedBy :: parsedBy[p]
    {
      if path in parsedBy then parsedBy[path].Position() else START
    }

    /** The ledger to read `path` with: the one there is, or an empty one when there is none or the file is
        shorter than what was taken of it. */
    method Entry(path: string, size: nat) returns (state: Ledger)
      requires Valid()
      modifies this`parsedBy, this`repr
      ensures Valid() && path in parsedBy && state == parsedBy[path] && WritesMoreOnlyFresh()
      ensures (path in old(parsedBy) && old(parsedBy)[path] == state) || fresh(state.Frame())
      ensures state.Position() == if size < old(PositionOf(path)).offset then START else old(PositionOf(path))
    {
      if path !in parsedBy || size < parsedBy[path].offset {
        state := new Ledger(codec);
        Replace(path, state);
      } else {
        state := parsedBy[path];
      }
    }

    method Replace(path: string, state: Ledger)
      requires Valid() && EntryOk(state) && state.Frame() !! {this} + repr + maps && state.cells == {}
      modifies this`parsedBy, this`repr
      ensures Valid() && parsedBy == old(parsedBy)[path := state] && repr == old(repr) + state.Frame()
    {
      WithEntry(path, state);
      Install(path, state, repr + state.Frame());
    }

    /** With another ledger at `path`, writing only what no other does, the cache would be sound. */
    lemma WithEntry(path: string, state: Ledger)
      requires Valid() && EntryOk(state) && state.Frame() !! {this} + repr + maps && state.cells == {}
      ensures SoundAs(parsedBy[path := state], repr + state.Frame(), maps)
    {
      StillWithin(path, state);
      StillApart(path, state);
    }

    lemma StillWithin(path: string, state: Ledger)
      requires Valid() && EntryOk(state) && state.cells == {}
      ensures var next := parsedBy[path := state];
              forall p :: p in next ==> Within(next[p], repr + state.Frame(), maps) && EntryOk(next[p])
    {
      forall p | p in parsedBy ensures Within(parsedBy[p], repr + state.Frame(), maps) && EntryOk(parsedBy[p]) {
        assert Within(parsedBy[p], repr, maps);
      }
    }

    lemma StillApart(path: string, state: Ledger)
      requires Valid() && state.Frame() !! repr
      ensures var next := parsedBy[path := state];
              forall p, q :: p in next && q in next && p != q ==> next[p].Frame() !! next[q].Frame()
    {
      forall p | p in parsedBy ensures state.Frame() !! parsedBy[p].Frame() {
        assert Within(parsedBy[p], repr, maps);
      }
    }

    method Install(path: string, state: Ledger, ghost written: set<object>)
      requires SoundAs(parsedBy[path := state], written, maps)
      modifies this`parsedBy, this`repr
      ensures Valid() && parsedBy == old(parsedBy)[path := state] && repr == written
    {
      ghost var next := parsedBy[path := state];
      label before:
      parsedBy, repr := parsedBy[path := state], written;
      forall p | p in next ensures EntryOk(next[p]) && next[p].Frame() == old(next[p].Frame()) {
        LedgerUnchanged@before(next[p]);
      }
    }

    /** The calls of the file at `path`, which reads as `file` when it can be read. */
    method CallsAt(path: string, file: Option<Bytes>) returns (calls: Option<array<LiveCall>>)
      requires Valid()
      modifies this, repr
      ensures Valid() && WritesMoreOnlyFresh() && old(maps) <= maps
      ensures file.None? ==> calls.None? && parsedBy == old(parsedBy)
      ensures file.Some? ==> calls.Some? && fresh(calls.value) && Holds(calls.value)
      ensures file.Some? ==> PositionOf(path) == Poll(codec, old(PositionOf(path)), file.value)
      ensures file.Some? ==> HeldView(calls.value) == PositionOf(path).book.calls
    {
      calls := None;
      if file.Some? {
        var list := CallsIn(path, file.value);
        calls := Some(list);
      }
    }

    method CallsIn(path: string, f: Bytes) returns (calls: array<LiveCall>)
      requires Valid()
      modifies this, repr
      ensures Valid() && WritesMoreOnlyFresh() && old(maps) <= maps
      ensures fresh(calls) && Holds(calls)
      ensures PositionOf(path) == Poll(codec, old(PositionOf(path)), f)
      ensures HeldView(calls) == PositionOf(path).book.calls
    {
      PollAfresh(codec, PositionOf(path), f);
      var state := Entry(path, |f|);
      calls := ReadEntry(path, f);
    }

    method ReadEntry(path: string, f: Bytes) returns (calls: array<LiveCall>)
      requires Valid() && path in parsedBy && parsedBy[path].offset <= |f|
      modifies this`repr, this`maps, parsedBy[path].Frame()
      ensures Valid() && WritesMoreOnlyFresh() && old(maps) <= maps
      ensures fresh(calls) && Holds(calls)
      ensures path in parsedBy && parsedBy[path].Position() == Poll(codec, old(parsedBy[path].Position()), f)
      ensures HeldView(calls) == parsedBy[path].book.calls
    {
      var state := parsedBy[path];
      label before:
      calls := state.ReadOn(f);
      Regained@before(this, path);
      Enlarge(repr + state.Frame(), maps + state.cells, state, calls);
    }

    /** The bounds grow with what a ledger has come to write and refer to. */
    ghost method Enlarge(written: set<object>, referred: set<object>, state: Ledger, list: array<LiveCall>)
      requires Sound(written, referred) && Within(state, written, referred) && list !in written && Cells(list[..]) <= referred
      modifies this`repr, this`maps
      ensures Valid() && repr == written && maps == referred && Holds(list)
      ensures state.Position() == old(state.Position()) && HeldView(list) == old(HeldView(list))
    {
      label before:
      repr, maps := written, referred;
      HeldArrayUnchanged@before(list);
      forall p | p in parsedBy ensures EntryOk(parsedBy[p]) && parsedBy[p].Frame() == old(parsedBy[p].Frame()) {
        LedgerUnchanged@before(parsedBy[p]);
      }
    }
  }

  /** When nothing but the ledger of `path` was written, the cache is as sound as before. */
  twostate lemma Regained(cache: CallCache, new path: string)
    requires old(cache.Valid()) && path in cache.parsedBy && unchanged(cache)
    requires unchanged(old(cache.repr + cache.maps - cache.parsedBy[path].Frame()))
    requires cache.EntryOk(cache.parsedBy[path])
    requires cache.parsedBy[path].NewMaps()
    requires fresh(cache.parsedBy[path].Frame() - old(cache.parsedBy[path].Frame()))
    ensures cache.Sound(cache.repr + cache.parsedBy[path].Frame(), cache.maps + cache.parsedBy[path].cells)
  {
    OthersKept(cache, path);
    FramesApart(cache, path);
    AllWithin(cache, path);
    WritesNoMap(cache, path);
  }

  twostate lemma WritesNoMap(cache: CallCache, new path: string)
    requires old(cache.Valid()) && path in cache.parsedBy && unchanged(cache)
    requires cache.parsedBy[path].Valid() && cache.parsedBy[path].NewMaps()
    requires fresh(cache.parsedBy[path].Frame() - old(cache.parsedBy[path].Frame()))
    ensures var l := cache.parsedBy[path];
            cache !in cache.repr + l.Frame() + (cache.maps + l.cells) && cache.repr + l.Frame() !! cache.maps + l.cells
  {
    assert old(cache.Within(cache.parsedBy[path], cache.repr, cache.maps));
  }

  twostate lemma AllWithin(cache: CallCache, new path: string)
    requires unchanged(cache) && path in cache.parsedBy && cache.EntryOk(cache.parsedBy[path])
    requires forall p :: p in cache.parsedBy && p != path ==> Kept(cache, path, p)
    ensures var l := cache.parsedBy[path];
            forall p :: p in cache.parsedBy ==>
              cache.Within(cache.parsedBy[p], cache.repr + l.Frame(), cache.maps + l.cells) && cache.EntryOk(cache.parsedBy[p])
  {
    var l := cache.parsedBy[path];
    forall p | p in cache.parsedBy
      ensures cache.Within(cache.parsedBy[p], cache.repr + l.Frame(), cache.maps + l.cells) && cache.EntryOk(cache.parsedBy[p])
    {
      assert p != path ==> Kept(cache, path, p);
    }
  }

  twostate lemma OthersKept(cache: CallCache, new path: string)
    requires old(cache.Valid()) && path in cache.parsedBy && unchanged(cache)
    requires unchanged(old(cache.repr + cache.maps - cache.parsedBy[path].Frame()))
    ensures forall p :: p in cache.parsedBy && p != path ==> Kept(cache, path, p)
  {
    forall p | p in cache.parsedBy && p != path ensures Kept(cache, path, p) {
      assert old(cache.Within(cache.parsedBy[p], cache.repr, cache.maps) && cache.EntryOk(cache.parsedBy[p]));
      assert old(cache.parsedBy[p].Frame() !! cache.parsedBy[path].Frame());
      LedgerUnchanged(cache.parsedBy[p]);
    }
  }

  twostate lemma FramesApart(cache: CallCache, new path: string)
    requires old(cache.Valid()) && path in cache.parsedBy && unchanged(cache)
    requires fresh(cache.parsedBy[path].Frame() - old(cache.parsedBy[path].Frame()))
    requires forall p :: p in cache.parsedBy && p != path ==> Kept(cache, path, p)
    ensures forall p, q :: p in cache.parsedBy && q in cache.parsedBy && p != q ==> cache.parsedBy[p].Frame() !! cache.parsedBy[q].Frame()
  {
    forall p, q | p in cache.parsedBy && q in cache.parsedBy && p != q
      ensures cache.parsedBy[p].Frame() !! cache.parsedBy[q].Frame()
    {
      assert old(cache.parsedBy[p].Frame() !! cache.parsedBy[q].Frame());
      assert p != path ==> Kept(cache, path, p);
      assert q != path ==> Kept(cache, path, q);
    }
  }

  /** The ledger of `p` is as it was, and its frame too. */
  twostate predicate Kept(cache: CallCache, new path: string, new p: string)
    requires unchanged(cache) && path in cache.parsedBy && p in cache.parsedBy
    reads cache, cache.parsedBy[p], cache.parsedBy[p].calls, cache.parsedBy[p].calls.rows, cache.parsedBy[p].cells
  {
    var l := cache.parsedBy[p];
    && l.Frame() == old(l.Frame()) && l.cells == old(l.cells) && cache.EntryOk(l)
    && l.Frame() <= old(cache.repr) && l.cells <= old(cache.maps)
  }

  /** Writing elsewhere leaves a ledger as it is. */
  twostate lemma LedgerUnchanged(l: Ledger)
    requires unchanged(l) && unchanged(l.calls) && unchanged(l.calls.rows) && unchanged(l.cells)
    ensures l.Valid() == old(l.Valid()) && l.Position() == old(l.Position()) && l.Frame() == old(l.Frame())
  {
  }

  twostate lemma HeldArrayUnchanged(held: array<LiveCall>)
    requires unchanged(held) && unchanged(Cells(held[..]))
    ensures HeldView(held) == old(HeldView(held))
  {
  }

  /** Snapshot isolation: the lists the cache handed out, whatever path it reads next, go on showing what they
      showed, and are still none the cache writes. */
  method ReadWhileHeld(cache: CallCache, path: string, f: Bytes, held: seq<array<LiveCall>>) returns (list: array<LiveCall>)
    requires cache.Valid() && forall j :: 0 <= j < |held| ==> cache.Holds(held[j])
    modifies cache, cache.repr
    ensures cache.Valid() && cache.WritesMoreOnlyFresh() && fresh(list) && cache.Holds(list)
    ensures cache.PositionOf(path) == Poll(cache.codec, old(cache.PositionOf(path)), f)
    ensures HeldView(list) == cache.PositionOf(path).book.calls
    ensures forall j :: 0 <= j < |held| ==> cache.Holds(held[j]) && HeldView(held[j]) == old(HeldView(held[j]))
  {
    label before:
    list := cache.CallsIn(path, f);
    forall j | 0 <= j < |held| ensures cache.Holds(held[j]) && HeldView(held[j]) == old(HeldView(held[j])) {
      assert old(cache.Holds(held[j]));
      HeldArrayUnchanged@before(held[j]);
    }
  }

  /** Over a whole run: however many polls of a growing file, or of one replaced by a shorter one, follow it,
      every list handed out goes on showing what one pass over the file of its time gives. */
  method ReadAll(cache: CallCache, path: string, files: seq<Bytes>) returns (lists: seq<array<LiveCall>>)
    requires cache.Valid() && path !in cache.parsedBy && AppendOnlyOrReplaced(files)
    modifies cache, cache.repr
    ensures cache.Valid() && |lists| == |files|
    ensures forall j :: 0 <= j < |lists| ==> Showing(cache, lists[j], files[j])
  {
    lists := [];
    for i := 0 to |files|
      invariant cache.Valid() && cache.WritesMoreOnlyFresh() && |lists| == i
      invariant cache.PositionOf(path) == PollAll(cache.codec, files[..i])
      invariant forall j :: 0 <= j < i ==> Showing(cache, lists[j], files[j])
    {
      var list := ReadNextWhileHeld(cache, path, files, i, lists);
      lists := lists + [list];
    }
  }

  method ReadNextWhileHeld(cache: CallCache, path: string, files: seq<Bytes>, i: nat, held: seq<array<LiveCall>>)
      returns (list: array<LiveCall>)
    requires cache.Valid() && AppendOnlyOrReplaced(files) && i < |files| && |held| == i
    requires cache.PositionOf(path) == PollAll(cache.codec, files[..i])
    requires forall j :: 0 <= j < i ==> Showing(cache, held[j], files[j])
    modifies cache, cache.repr
    ensures cache.Valid() && cache.WritesMoreOnlyFresh()
    ensures cache.PositionOf(path) == PollAll(cache.codec, files[..i + 1])
    ensures Showing(cache, list, files[i]) && forall j :: 0 <= j < i ==> Showing(cache, held[j], files[j])
  {
    PollNext(cache.codec, files, i);
    list := ReadWhileHeld(cache, path, files[i], held);
  }

  /** The list shows what one pass over `f` gives, and is none the cache writes. */
  ghost predicate Showing(cache: CallCache, list: array<LiveCall>, f: Bytes)
    reads cache, list, Cells(list[..])
  {
    cache.Holds(list) && HeldView(list) == ReadCalls(cache.codec, f).calls
  }

  lemma PollNext(codec: Codec, files: seq<Bytes>, i: nat)
    requires AppendOnlyOrReplaced(files) && i < |files|
    ensures PollAll(codec, files[..i + 1]) == Poll(codec, PollAll(codec, files[..i]), files[i])
    ensures PollAll(codec, files[..i + 1]).book == ReadCalls(codec, files[i])
  {
    var first := files[..i + 1];
    assert first[..i] == files[..i];
    forall k | 0 < k < |first| ensures first[k - 1] <= first[k] || |first[k]| < CompleteEnd(first[k - 1]) {
      assert files[k - 1] <= files[k] || |files[k]| < CompleteEnd(files[k - 1]);
    }
    AnyCutsSame(codec, first);
  }

  /** `Since`: the operator's activity in what the rollout gained after `offset`. */
  method ActivitySince(decode: Bytes -> Sign, f: Bytes, offset: int) returns (act: Activity)
    ensures act == Since(decode, f, offset)
  {
    var start := if offset < 0 || |f| < offset then 0 else offset;
    var spoke, answered, next := false, [], start;
    while true
      invariant start <= next <= |f|
      invariant Since(decode, f, offset) == Ahead(decode, f, (spoke, answered), next)
      decreases |f| - next
    {
      var line, eof := ReadBytes(f, next);
      if eof {
        return Activity(spoke, answered, next);
      }
      AheadNext(decode, f, (spoke, answered), next, line);
      next := next + |line|;
      spoke, answered := WithSign(decode, spoke, answered, line);
    }
  }

  method WithSign(decode: Bytes -> Sign, spoke0: bool, answered0: seq<string>, line: Bytes)
      returns (spoke: bool, answered: seq<string>)
    ensures (spoke, answered) == TakeSign(decode, (spoke0, answered0), line)
  {
    spoke, answered := spoke0, answered0;
    if |line| <= MAX_LINE {
      match decode(line)
      case Nothing =>
      case Spoke => spoke := true;
      case AnsweredCall(id) => answered := answered + [id];
    }
  }
}
