/** The AskUserQuestion call a conversation waits on, read from a transcript's tail, and the calls it has
    answered, read from the whole of it. */
module Asks {
  import opened Lines
  import opened Text
  import Delta
  import Tails

  /** A question as the model wrote it; what it holds does not matter here. */
  type Question = string

  datatype Block = Block(asks: bool, id: string, questions: seq<Question>)

  type Answers = map<string, string>

  /** One decoded record; Skip for a line that does not decode or a record of another type. `answers` is what
      a user record's toolUseResult holds, None when that is no object. */
  datatype Entry =
    | Skip
    | Assistant(blocks: seq<Block>, at: int)
    | User(results: seq<string>, answers: Option<Answers>, at: int)

  /** The outside functions: trimming a line, finding one of the two marks in it, and decoding it. */
  datatype Reader = Reader(trim: Bytes -> Bytes, marked: Bytes -> bool, decode: Bytes -> Entry)

  function EntryOf(r: Reader, line: Bytes): Entry {
    var trimmed := r.trim(line);
    if trimmed == [] || trimmed[0] != Delta.OPEN_BRACE then Skip else r.decode(trimmed)
  }

  /** The ask in one record's content: the last, where it holds several. */
  function AskCall(blocks: seq<Block>): Option<Block> {
    if blocks == [] then None
    else
      var last := blocks[|blocks| - 1];
      if last.asks && last.id != "" then Some(last) else AskCall(blocks[..|blocks| - 1])
  }

  datatype Ask = Ask(toolUseId: string, questions: seq<Question>, askedAt: int)

  const NO_ASK := Ask("", [], 0)

  function AskOf(entry: Entry): Option<Ask> {
    if entry.Assistant? && AskCall(entry.blocks).Some? then
      var ask := AskCall(entry.blocks).value;
      Some(Ask(ask.id, ask.questions, entry.at))
    else None
  }

  function Take(pending: Ask, entry: Entry): Ask {
    match entry
    case Skip => pending
    case Assistant(_, _) => if AskOf(entry).Some? then AskOf(entry).value else pending
    case User(results, _, _) => if pending.toolUseId != "" && pending.toolUseId in results then NO_ASK else pending
  }

  function TakeAll(r: Reader, pending: Ask, lines: seq<Bytes>): Ask {
    if lines == [] then pending
    else Take(TakeAll(r, pending, lines[..|lines| - 1]), EntryOf(r, lines[|lines| - 1]))
  }

  function Standing(pending: Ask): Option<Ask> {
    if pending.toolUseId == "" || pending.questions == [] then None else Some(pending)
  }

  /** Every piece of the window but the first is a line, an unterminated last one included. */
  function TailLines(f: Bytes, start: nat): seq<Bytes>
    requires start <= |f|
  {
    if start == 0 then Split(f) else Split(f[start..])[1..]
  }

  function PendingFrom(r: Reader, f: Bytes, start: nat): Option<Ask>
    requires start <= |f|
  {
    Standing(TakeAll(r, NO_ASK, TailLines(f, start)))
  }

  // ---- the reader as it runs -----------------------------------------------------------------------

  const ASK_WINDOW: nat := 0x8_0000

  method FindAsk(blocks: seq<Block>) returns (found: Option<Block>)
    ensures found == AskCall(blocks)
  {
    found := None;
    for i := 0 to |blocks|
      invariant found == AskCall(blocks[..i])
    {
      assert blocks[..i + 1][..i] == blocks[..i];
      if blocks[i].asks && blocks[i].id != "" {
        found := Some(blocks[i]);
      }
    }
    assert blocks[..|blocks|] == blocks;
  }

  method PendingAskCall(r: Reader, f: Bytes) returns (call: Option<Ask>)
    ensures call == PendingFrom(r, f, Tails.TailStart(|f|, ASK_WINDOW))
  {
    var start := Tails.TailStart(|f|, ASK_WINDOW);
    var lines := Split(f[start..]);
    assert f[0..] == f;
    if start > 0 {
      lines := lines[1..];
    }
    var pending := NO_ASK;
    for i := 0 to |lines|
      invariant pending == TakeAll(r, NO_ASK, lines[..i])
    {
      assert lines[..i + 1][..i] == lines[..i];
      var line := r.trim(lines[i]);
      if line == [] || line[0] != Delta.OPEN_BRACE {
        continue;
      }
      match r.decode(line)
      case Skip =>
      case Assistant(blocks, at) =>
        var found := FindAsk(blocks);
        if found.Some? {
          pending := Ask(found.value.id, found.value.questions, at);
        }
      case User(results, _, _) =>
        ghost var before := pending;
        for k := 0 to |results|
          invariant pending == if before.toolUseId != "" && before.toolUseId in results[..k] then NO_ASK else before
        {
          assert results[..k + 1] == results[..k] + [results[k]];
          if pending.toolUseId != "" && results[k] == pending.toolUseId {
            pending := NO_ASK;
          }
        }
        assert results[..|results|] == results;
    }
    assert lines[..|lines|] == lines;
    call := if pending.toolUseId == "" || pending.questions == [] then None else Some(pending);
  }

  // ---- a bounded tail refines the whole file -------------------------------------------------------

  predicate AskIn(r: Reader, lines: seq<Bytes>) {
    exists i :: 0 <= i < |lines| && AskOf(EntryOf(r, lines[i])).Some?
  }

  lemma {:induction false} TakeAllAppend(r: Reader, pending: Ask, first: seq<Bytes>, more: seq<Bytes>)
    ensures TakeAll(r, pending, first + more) == TakeAll(r, TakeAll(r, pending, first), more)
  {
    if more == [] {
      assert first + more == first;
    } else {
      assert (first + more)[..|first + more| - 1] == first + more[..|more| - 1];
      TakeAllAppend(r, pending, first, more[..|more| - 1]);
    }
  }

  /** A later ask takes the place of whatever stood before; without one, nothing new comes to stand. */
  lemma {:induction false} AskReplaces(r: Reader, p: Ask, q: Ask, lines: seq<Bytes>)
    ensures AskIn(r, lines) ==> TakeAll(r, p, lines) == TakeAll(r, q, lines)
    ensures !AskIn(r, lines) ==> TakeAll(r, p, lines) in {p, NO_ASK}
  {
    if lines != [] {
      var n := |lines| - 1;
      var init := lines[..n];
      AskReplaces(r, p, q, init);
      if AskIn(r, init) {
        var i :| 0 <= i < n && AskOf(EntryOf(r, init[i])).Some?;
        assert AskOf(EntryOf(r, lines[i])).Some?;
      } else if AskOf(EntryOf(r, lines[n])).None? {
        forall i | 0 <= i < n ensures AskOf(EntryOf(r, lines[i])).None? {
          assert lines[i] == init[i];
        }
      }
    }
  }

  /** The lines of a window are the file's last lines. */
  lemma TailIsSuffix(f: Bytes, start: nat) returns (j: nat)
    requires start <= |f|
    ensures j <= |Split(f)| && TailLines(f, start) == Split(f)[j..]
  {
    if start == 0 {
      j := 0;
    } else if Records(f[start..]) == [] {
      j := |Split(f)|;
    } else {
      j := RecordsFrom(f, start);
      assert Split(f)[j..] == Records(f)[j..] + [Rest(f)];
    }
  }

  /** A bounded read returns what reading the whole file returns when the window holds an ask, and nothing
      otherwise; so a call it returns is the one the whole file says is pending. */
  lemma TailAgrees(r: Reader, f: Bytes, start: nat)
    requires start <= |f|
    ensures PendingFrom(r, f, start) == if AskIn(r, TailLines(f, start)) then PendingFrom(r, f, 0) else None
  {
    var lines := TailLines(f, start);
    var j := TailIsSuffix(f, start);
    var before := TakeAll(r, NO_ASK, Split(f)[..j]);
    assert Split(f)[..j] + lines == Split(f);
    TakeAllAppend(r, NO_ASK, Split(f)[..j], lines);
    AskReplaces(r, NO_ASK, before, lines);
  }

  /** `ask` was written by some record, no later record asks again, and none holds a result for it. */
  ghost predicate Unanswered(r: Reader, lines: seq<Bytes>, ask: Ask) {
    exists i :: 0 <= i < |lines| && AskOf(EntryOf(r, lines[i])) == Some(ask) && QuietFrom(r, lines, i + 1, ask.toolUseId)
  }

  ghost predicate QuietFrom(r: Reader, lines: seq<Bytes>, from: nat, id: string) {
    forall j :: from <= j < |lines| ==> Quiet(EntryOf(r, lines[j]), id)
  }

  predicate Quiet(entry: Entry, id: string) {
    AskOf(entry) == None && (entry.User? ==> id !in entry.results)
  }

  lemma LastRecord(r: Reader, lines: seq<Bytes>, ask: Ask)
    requires lines != []
    ensures var last := EntryOf(r, lines[|lines| - 1]);
            Unanswered(r, lines, ask) <==>
            if AskOf(last).Some? then AskOf(last) == Some(ask)
            else Quiet(last, ask.toolUseId) && Unanswered(r, lines[..|lines| - 1], ask)
  {
    var n := |lines| - 1;
    var init, last := lines[..n], EntryOf(r, lines[n]);
    assert forall j :: 0 <= j < n ==> init[j] == lines[j];
    if AskOf(last) == Some(ask) {
      assert QuietFrom(r, lines, n + 1, ask.toolUseId);
    }
    if Unanswered(r, lines, ask) {
      var i :| 0 <= i < |lines| && AskOf(EntryOf(r, lines[i])) == Some(ask) && QuietFrom(r, lines, i + 1, ask.toolUseId);
      if i < n {
        assert AskOf(EntryOf(r, init[i])) == Some(ask) && QuietFrom(r, init, i + 1, ask.toolUseId);
      }
    }
    if Quiet(last, ask.toolUseId) && Unanswered(r, init, ask) {
      var i :| 0 <= i < n && AskOf(EntryOf(r, init[i])) == Some(ask) && QuietFrom(r, init, i + 1, ask.toolUseId);
      assert AskOf(EntryOf(r, lines[i])) == Some(ask) && QuietFrom(r, lines, i + 1, ask.toolUseId);
    }
  }

  /** What is pending over a whole file is its last ask, while no result for it follows. */
  lemma {:induction false} PendingMeansUnanswered(r: Reader, lines: seq<Bytes>, ask: Ask)
    requires ask.toolUseId != ""
    ensures TakeAll(r, NO_ASK, lines) == ask <==> Unanswered(r, lines, ask)
  {
    if lines != [] {
      PendingMeansUnanswered(r, lines[..|lines| - 1], ask);
      LastRecord(r, lines, ask);
    }
  }

  // ---- what is pending, by the records alone -------------------------------------------------------

  /** The line decodes to that record. */
  predicate Says(r: Reader, line: Bytes, entry: Entry) {
    r.trim(line) != [] && r.trim(line)[0] == Delta.OPEN_BRACE && r.decode(r.trim(line)) == entry
  }

  /** The block at `i` is a record's last that asks something under an id. */
  predicate LastAsk(blocks: seq<Block>, i: int) {
    && 0 <= i < |blocks| && blocks[i].asks && blocks[i].id != ""
    && forall j :: i < j < |blocks| ==> !(blocks[j].asks && blocks[j].id != "")
  }

  lemma {:induction false} AskCallMeaning(blocks: seq<Block>, ask: Block)
    ensures AskCall(blocks) == Some(ask) <==> exists i :: LastAsk(blocks, i) && blocks[i] == ask
    ensures AskCall(blocks).None? <==> forall j :: 0 <= j < |blocks| ==> !(blocks[j].asks && blocks[j].id != "")
  {
    if blocks != [] {
      var n := |blocks| - 1;
      var init := blocks[..n];
      AskCallMeaning(init, ask);
      if blocks[n].asks && blocks[n].id != "" {
        assert LastAsk(blocks, n);
        assert forall i :: LastAsk(blocks, i) ==> i == n;
      } else {
        forall i | 0 <= i < n ensures LastAsk(init, i) <==> LastAsk(blocks, i) {
          assert forall j :: 0 <= j < n ==> init[j] == blocks[j];
        }
      }
    }
  }

  /** The line is an assistant's record whose last ask this is. */
  ghost predicate Writes(r: Reader, line: Bytes, ask: Ask) {
    exists blocks: seq<Block>, i :: Says(r, line, Assistant(blocks, ask.askedAt)) && LastAsk(blocks, i)
                        && blocks[i].id == ask.toolUseId && blocks[i].questions == ask.questions
  }

  /** The line is a user's record with a result for that call. */
  ghost predicate Returns(r: Reader, line: Bytes, id: string) {
    exists results, answers, at :: Says(r, line, User(results, answers, at)) && id in results
  }

  lemma WritesMeaning(r: Reader, line: Bytes, ask: Ask)
    ensures AskOf(EntryOf(r, line)) == Some(ask) <==> Writes(r, line, ask)
  {
    var trimmed := r.trim(line);
    if trimmed != [] && trimmed[0] == Delta.OPEN_BRACE && r.decode(trimmed).Assistant? {
      var blocks, at := r.decode(trimmed).blocks, r.decode(trimmed).at;
      assert Says(r, line, Assistant(blocks, at));
      AskOfMeaning(blocks, at, ask);
    }
  }

  lemma AskOfMeaning(blocks: seq<Block>, at: int, ask: Ask)
    ensures AskOf(Assistant(blocks, at)) == Some(ask) <==>
            at == ask.askedAt && exists i :: LastAsk(blocks, i) && blocks[i].id == ask.toolUseId && blocks[i].questions == ask.questions
  {
    if AskCall(blocks).Some? {
      AskCallMeaning(blocks, AskCall(blocks).value);
    }
    if i :| LastAsk(blocks, i) && blocks[i].id == ask.toolUseId && blocks[i].questions == ask.questions {
      AskCallMeaning(blocks, blocks[i]);
    }
  }

  lemma ReturnsMeaning(r: Reader, line: Bytes, id: string)
    ensures EntryOf(r, line).User? && id in EntryOf(r, line).results <==> Returns(r, line, id)
  {
    var trimmed := r.trim(line);
    if trimmed != [] && trimmed[0] == Delta.OPEN_BRACE && r.decode(trimmed).User? {
      assert Says(r, line, r.decode(trimmed));
    }
  }

  /** A line that neither asks anything nor answers that call. */
  ghost predicate Silent(r: Reader, line: Bytes, id: string) {
    (forall other :: !Writes(r, line, other)) && !Returns(r, line, id)
  }

  lemma SilentMeaning(r: Reader, line: Bytes, id: string)
    ensures Quiet(EntryOf(r, line), id) <==> Silent(r, line, id)
  {
    ReturnsMeaning(r, line, id);
    forall other ensures AskOf(EntryOf(r, line)) == Some(other) <==> Writes(r, line, other) {
      WritesMeaning(r, line, other);
    }
    if AskOf(EntryOf(r, line)).Some? {
      assert Writes(r, line, AskOf(EntryOf(r, line)).value);
    }
  }

  /** The call was written at some line, and no later one asks again or holds a result for it. */
  ghost predicate StandsLast(r: Reader, lines: seq<Bytes>, ask: Ask) {
    exists i :: 0 <= i < |lines| && Writes(r, lines[i], ask)
                && forall j :: i < j < |lines| ==> Silent(r, lines[j], ask.toolUseId)
  }

  lemma UnansweredStands(r: Reader, lines: seq<Bytes>, ask: Ask)
    ensures Unanswered(r, lines, ask) <==> StandsLast(r, lines, ask)
  {
    forall i | 0 <= i < |lines|
      ensures AskOf(EntryOf(r, lines[i])) == Some(ask) <==> Writes(r, lines[i], ask)
      ensures QuietFrom(r, lines, i + 1, ask.toolUseId) <==> forall j :: i < j < |lines| ==> Silent(r, lines[j], ask.toolUseId)
    {
      WritesMeaning(r, lines[i], ask);
      forall j | i < j < |lines| ensures Quiet(EntryOf(r, lines[j]), ask.toolUseId) <==> Silent(r, lines[j], ask.toolUseId) {
        SilentMeaning(r, lines[j], ask.toolUseId);
      }
    }
  }

  /** The call a whole file waits on is its last ask, whatever the number of its questions as long as there are any,
      while no result for it follows; and there is none otherwise. */
  lemma PendingIsLastAsk(r: Reader, f: Bytes, ask: Ask)
    ensures PendingFrom(r, f, 0) == Some(ask) <==>
            ask.toolUseId != "" && ask.questions != [] && StandsLast(r, Split(f), ask)
  {
    UnansweredStands(r, Split(f), ask);
    if ask.toolUseId != "" {
      PendingMeansUnanswered(r, Split(f), ask);
    }
  }

  /** A window answers with the same call, and only when it holds an ask. */
  lemma TailIsLastAsk(r: Reader, f: Bytes, start: nat, ask: Ask)
    requires start <= |f|
    ensures PendingFrom(r, f, start) == Some(ask) <==>
            && ask.toolUseId != "" && ask.questions != [] && StandsLast(r, Split(f), ask)
            && exists i, other :: 0 <= i < |TailLines(f, start)| && Writes(r, TailLines(f, start)[i], other)
  {
    var lines := TailLines(f, start);
    TailAgrees(r, f, start);
    PendingIsLastAsk(r, f, ask);
    forall i | 0 <= i < |lines| ensures AskOf(EntryOf(r, lines[i])).Some? <==> exists other :: Writes(r, lines[i], other) {
      if AskOf(EntryOf(r, lines[i])).Some? {
        WritesMeaning(r, lines[i], AskOf(EntryOf(r, lines[i])).value);
      }
      if other :| Writes(r, lines[i], other) {
        WritesMeaning(r, lines[i], other);
      }
    }
  }

  // ---- the answered asks of a whole file -----------------------------------------------------------

  datatype Answered = Answered(ask: Ask, answers: Answers, answeredAt: int)

  datatype Collected = Collected(calls: map<string, Ask>, out: seq<Answered>)

  const ZERO_TIME := 0

  function Credit(c: Collected, results: seq<string>, answers: Answers, at: int, since: int): Collected {
    if results == [] then c
    else
      var before, id := Credit(c, results[..|results| - 1], answers, at, since), results[|results| - 1];
      if id !in before.calls || answers == map[] then before
      else
        Collected(before.calls - {id},
                  if at == ZERO_TIME || at <= since then before.out
                  else before.out + [Answered(before.calls[id], answers, at)])
  }

  function Collect(r: Reader, c: Collected, line: Bytes, since: int): Collected {
    if !r.marked(line) then c
    else
      match EntryOf(r, line)
      case Skip => c
      case Assistant(blocks, at) =>
        var ask := AskOf(EntryOf(r, line));
        if ask.Some? then Collected(c.calls[ask.value.toolUseId := ask.value], c.out) else c
      case User(results, answers, at) =>
        if answers.None? then c else Credit(c, results, answers.value, at, since)
  }

  function CollectAll(r: Reader, lines: seq<Bytes>, since: int): Collected {
    if lines == [] then Collected(map[], [])
    else Collect(r, CollectAll(r, lines[..|lines| - 1], since), lines[|lines| - 1], since)
  }

  /** `collectAsk`. */
  method CollectAsk(r: Reader, c: Collected, line: Bytes, since: int) returns (c': Collected)
    requires r.marked(line)
    ensures c' == Collect(r, c, line, since)
  {
    c' := c;
    var trimmed := r.trim(line);
    if trimmed == [] || trimmed[0] != Delta.OPEN_BRACE {
      return;
    }
    match r.decode(trimmed)
    case Skip =>
    case Assistant(blocks, at) =>
      var found := FindAsk(blocks);
      if found.Some? {
        c' := Collected(c.calls[found.value.id := Ask(found.value.id, found.value.questions, at)], c.out);
      }
    case User(results, answers, at) =>
      if answers.None? {
        return;
      }
      for i := 0 to |results|
        invariant c' == Credit(c, results[..i], answers.value, at, since)
      {
        assert results[..i + 1][..i] == results[..i];
        if results[i] !in c'.calls || answers.value == map[] {
          continue;
        }
        var call := c'.calls[results[i]];
        c' := Collected(c'.calls - {results[i]}, c'.out);
        if at == ZERO_TIME || at <= since {
          continue;
        }
        c' := Collected(c'.calls, c'.out + [Answered(call, answers.value, at)]);
      }
      assert results[..|results|] == results;
  }

  /** Every line `ReadBytes` hands out to the end of the file, the unterminated last one included. */
  function AllLines(f: Bytes): seq<Bytes> {
    CompleteLines(f) + [Rest(f)]
  }

  /** The lines one after the other. */
  function Flat(lines: seq<Bytes>): Bytes {
    if lines == [] then [] else Flat(lines[..|lines| - 1]) + lines[|lines| - 1]
  }

  lemma FlatMore(lines: seq<Bytes>, line: Bytes)
    ensures Flat(lines + [line]) == Flat(lines) + line
  {
    assert (lines + [line])[..|lines|] == lines;
  }

  /** One whole line: its newline is its last byte, and its only one. */
  predicate WholeLine(line: Bytes) {
    line != [] && line[|line| - 1] == NEWLINE && Unbroken(line[..|line| - 1])
  }

  lemma {:induction false} CompleteLinesWhole(f: Bytes)
    ensures forall line :: line in CompleteLines(f) ==> WholeLine(line)
  {
    if f != [] {
      var init := f[..|f| - 1];
      CompleteLinesWhole(init);
      RestIsSuffix(init);
      var line := Rest(init) + [NEWLINE];
      assert line[..|line| - 1] == Rest(init);
    }
  }

  lemma {:induction false} CompleteLinesFlat(f: Bytes)
    ensures Flat(CompleteLines(f)) + Rest(f) == f
  {
    if f != [] {
      var init, last := f[..|f| - 1], f[|f| - 1];
      CompleteLinesFlat(init);
      FlatMore(CompleteLines(init), Rest(init) + [last]);
      OneByteMore(Flat(CompleteLines(init)), Rest(init), f);
    }
  }

  lemma OneByteMore(a: Bytes, b: Bytes, f: Bytes)
    requires f != [] && a + b == f[..|f| - 1]
    ensures a + (b + [f[|f| - 1]]) == f && a + (b + [f[|f| - 1]]) + [] == f
  {
  }

  /** What is read: the whole file in order, cut after each newline, what follows the last one included. */
  lemma AllLinesMeaning(f: Bytes)
    ensures Flat(AllLines(f)) == f && |AllLines(f)| > 0 && Unbroken(AllLines(f)[|AllLines(f)| - 1])
    ensures forall i :: 0 <= i < |AllLines(f)| - 1 ==> WholeLine(AllLines(f)[i])
  {
    CompleteLinesFlat(f);
    CompleteLinesWhole(f);
    FlatMore(CompleteLines(f), Rest(f));
    RestIsSuffix(f);
  }

  function LinesFrom(f: Bytes, pos: nat, eof: bool): seq<Bytes>
    requires pos <= |f|
  {
    if eof then [] else AllLines(f[pos..])
  }

  method ReadLine(f: Bytes, pos: nat) returns (line: Bytes, eof: bool)
    requires pos <= |f|
    ensures pos + |line| <= |f| && (!eof ==> line != [])
    ensures AllLines(f[pos..]) == [line] + LinesFrom(f, pos + |line|, eof)
  {
    line, eof := ReadBytes(f, pos);
    ghost var g := f[pos..];
    if eof {
      UnbrokenHasNoRecord(g);
    } else {
      assert g[|line|..] == f[pos + |line|..];
      assert g[..|line|] == line;
      CutAtBoundary(g, |line|);
    }
  }

  lemma CollectOneMore(r: Reader, done: seq<Bytes>, line: Bytes, left: seq<Bytes>, since: int)
    ensures done + ([line] + left) == (done + [line]) + left
    ensures CollectAll(r, done + [line], since) == Collect(r, CollectAll(r, done, since), line, since)
    ensures !r.marked(line) ==> CollectAll(r, done + [line], since) == CollectAll(r, done, since)
  {
    assert (done + [line])[..|done|] == done;
  }

  method AnsweredAsks(r: Reader, f: Bytes, since: int) returns (out: seq<Answered>)
    ensures out == CollectAll(r, AllLines(f), since).out
  {
    var pos, eof := 0, false;
    var c := Collected(map[], []);
    ghost var all := AllLines(f);
    ghost var done, left: seq<Bytes> := [], all;
    assert f[0..] == f;
    while !eof
      invariant 0 <= pos <= |f|
      invariant left == LinesFrom(f, pos, eof)
      invariant all == done + left
      invariant c == CollectAll(r, done, since)
      decreases !eof, |f| - pos
    {
      var line;
      line, eof := ReadLine(f, pos);
      left := LinesFrom(f, pos + |line|, eof);
      CollectOneMore(r, done, line, left, since);
      if r.marked(line) {
        c := CollectAsk(r, c, line, since);
      }
      pos, done := pos + |line|, done + [line];
    }
    assert all == done;
    out := c.out;
  }

  // ---- what is answered, by the records alone ------------------------------------------------------

  /** The line gives answers, some at least, to the call. */
  ghost predicate Gives(r: Reader, line: Bytes, id: string, answers: Answers, at: int) {
    && r.marked(line) && answers != map[]
    && exists results :: Says(r, line, User(results, Some(answers), at)) && id in results
  }

  /** The line asks under that id, or answers it: what was asked under it before waits no longer. */
  ghost predicate Touches(r: Reader, line: Bytes, id: string) {
    || (r.marked(line) && exists ask :: Writes(r, line, ask) && ask.toolUseId == id)
    || exists answers, at :: Gives(r, line, id, answers, at)
  }

  /** The call was asked, and its id not touched since. */
  ghost predicate Waits(r: Reader, lines: seq<Bytes>, ask: Ask) {
    exists i :: WaitsFrom(r, lines, ask, i)
  }

  ghost predicate WaitsFrom(r: Reader, lines: seq<Bytes>, ask: Ask, i: int) {
    && 0 <= i < |lines| && r.marked(lines[i]) && Writes(r, lines[i], ask)
    && forall j :: i < j < |lines| ==> !Touches(r, lines[j], ask.toolUseId)
  }

  /** Some line after `since` gives these answers to a call that waits. */
  ghost predicate AnsweredAt(r: Reader, lines: seq<Bytes>, since: int, a: Answered) {
    a.answeredAt != ZERO_TIME && a.answeredAt > since && exists j :: AnsweredBy(r, lines, a, j)
  }

  ghost predicate AnsweredBy(r: Reader, lines: seq<Bytes>, a: Answered, j: int) {
    0 <= j < |lines| && Gives(r, lines[j], a.ask.toolUseId, a.answers, a.answeredAt) && Waits(r, lines[..j], a.ask)
  }

  lemma WaitsFromMore(r: Reader, init: seq<Bytes>, last: Bytes, ask: Ask, i: nat)
    requires i < |init|
    ensures WaitsFrom(r, init + [last], ask, i) <==> WaitsFrom(r, init, ask, i) && !Touches(r, last, ask.toolUseId)
  {
    var lines := init + [last];
    assert forall j :: 0 <= j < |init| ==> lines[j] == init[j];
    assert lines[|init|] == last;
  }

  lemma WaitsMore(r: Reader, init: seq<Bytes>, last: Bytes, ask: Ask)
    ensures Waits(r, init + [last], ask) <==>
            (r.marked(last) && Writes(r, last, ask)) || (Waits(r, init, ask) && !Touches(r, last, ask.toolUseId))
  {
    var lines := init + [last];
    assert WaitsFrom(r, lines, ask, |init|) <==> r.marked(last) && Writes(r, last, ask);
    if i :| WaitsFrom(r, init, ask, i) {
      WaitsFromMore(r, init, last, ask, i);
    }
    if i :| WaitsFrom(r, lines, ask, i) && i < |init| {
      WaitsFromMore(r, init, last, ask, i);
    }
  }

  lemma AnsweredMore(r: Reader, init: seq<Bytes>, last: Bytes, since: int, a: Answered)
    ensures AnsweredAt(r, init + [last], since, a) <==>
            AnsweredAt(r, init, since, a) ||
            (a.answeredAt != ZERO_TIME && a.answeredAt > since
             && Gives(r, last, a.ask.toolUseId, a.answers, a.answeredAt) && Waits(r, init, a.ask))
  {
    var lines := init + [last];
    assert lines[..|init|] == init && lines[|init|] == last;
    forall j | 0 <= j < |init| ensures AnsweredBy(r, lines, a, j) <==> AnsweredBy(r, init, a, j) {
      assert lines[..j] == init[..j];
    }
    assert AnsweredBy(r, lines, a, |init|) <==> Gives(r, last, a.ask.toolUseId, a.answers, a.answeredAt) && Waits(r, init, a.ask);
  }

  /** What crediting a record's results does: the calls they name wait no longer, and each of those, told after
      `since`, is reported with the answers. */
  lemma {:induction false} CreditMeaning(c: Collected, results: seq<string>, answers: Answers, at: int, since: int)
    requires KeyedById(c.calls)
    ensures var c' := Credit(c, results, answers, at, since);
            && KeyedById(c'.calls)
            && (forall id :: id in c'.calls <==> id in c.calls && !(answers != map[] && id in results))
            && (forall id :: id in c'.calls ==> c'.calls[id] == c.calls[id])
            && forall a :: a in c'.out <==> a in c.out || Credited(c, results, answers, at, since, a)
  {
    if results != [] {
      var n := |results| - 1;
      CreditMeaning(c, results[..n], answers, at, since);
      assert results == results[..n] + [results[n]];
      CreditedMore(c, results, answers, at, since);
    }
  }

  predicate Credited(c: Collected, results: seq<string>, answers: Answers, at: int, since: int, a: Answered) {
    && answers != map[] && at != ZERO_TIME && at > since
    && a.answers == answers && a.answeredAt == at
    && a.ask.toolUseId in results && a.ask.toolUseId in c.calls && c.calls[a.ask.toolUseId] == a.ask
  }

  lemma CreditedMore(c: Collected, results: seq<string>, answers: Answers, at: int, since: int)
    requires results != [] && KeyedById(c.calls)
    ensures var init, id := results[..|results| - 1], results[|results| - 1];
            forall a :: Credited(c, results, answers, at, since, a) <==>
              Credited(c, init, answers, at, since, a) ||
              (answers != map[] && at != ZERO_TIME && at > since && id in c.calls && a == Answered(c.calls[id], answers, at))
  {
    assert results == results[..|results| - 1] + [results[|results| - 1]];
  }

  lemma GivesMeaning(r: Reader, line: Bytes, id: string, answers: Answers, at: int)
    ensures Gives(r, line, id, answers, at) <==>
            && r.marked(line) && answers != map[]
            && var e := EntryOf(r, line); e.User? && e.answers == Some(answers) && e.at == at && id in e.results
  {
    var e := EntryOf(r, line);
    if e.User? {
      assert Says(r, line, e);
    }
  }

  lemma TouchesMeaning(r: Reader, line: Bytes, id: string)
    ensures Touches(r, line, id) <==>
            && r.marked(line)
            && var e := EntryOf(r, line);
            || (AskOf(e).Some? && AskOf(e).value.toolUseId == id)
            || (e.User? && e.answers.Some? && e.answers.value != map[] && id in e.results)
  {
    var e := EntryOf(r, line);
    if AskOf(e).Some? {
      WritesMeaning(r, line, AskOf(e).value);
    }
    if ask :| Writes(r, line, ask) && ask.toolUseId == id {
      WritesMeaning(r, line, ask);
    }
    if e.User? && e.answers.Some? {
      GivesMeaning(r, line, id, e.answers.value, e.at);
    }
    if answers, at :| Gives(r, line, id, answers, at) {
      GivesMeaning(r, line, id, answers, at);
    }
  }

  /** The state after some lines: the calls that wait, and the calls answered, no more and no fewer. */
  ghost predicate CollectedRight(r: Reader, lines: seq<Bytes>, since: int, c: Collected) {
    && KeyedById(c.calls)
    && (forall ask :: Holds(c.calls, ask) <==> Waits(r, lines, ask))
    && forall a :: a in c.out <==> AnsweredAt(r, lines, since, a)
  }

  predicate Holds(calls: map<string, Ask>, ask: Ask) {
    ask.toolUseId in calls && calls[ask.toolUseId] == ask
  }

  /** What one line does to the state, by what it says. */
  lemma CollectMeaning(r: Reader, c: Collected, line: Bytes, since: int)
    requires KeyedById(c.calls)
    ensures var c' := Collect(r, c, line, since);
            && KeyedById(c'.calls)
            && (forall ask: Ask :: Holds(c'.calls, ask) <==>
                  (r.marked(line) && Writes(r, line, ask)) || (Holds(c.calls, ask) && !Touches(r, line, ask.toolUseId)))
            && forall a :: a in c'.out <==>
                 a in c.out || (a.answeredAt != ZERO_TIME && a.answeredAt > since && Holds(c.calls, a.ask)
                                && Gives(r, line, a.ask.toolUseId, a.answers, a.answeredAt))
  {
    var c', e := Collect(r, c, line, since), EntryOf(r, line);
    if r.marked(line) && e.User? && e.answers.Some? {
      CreditMeaning(c, e.results, e.answers.value, e.at, since);
    }
    forall ask: Ask ensures Holds(c'.calls, ask) <==>
      (r.marked(line) && Writes(r, line, ask)) || (Holds(c.calls, ask) && !Touches(r, line, ask.toolUseId))
    {
      WritesMeaning(r, line, ask);
      TouchesMeaning(r, line, ask.toolUseId);
    }
    forall a ensures a in c'.out <==>
      a in c.out || (a.answeredAt != ZERO_TIME && a.answeredAt > since && Holds(c.calls, a.ask)
                     && Gives(r, line, a.ask.toolUseId, a.answers, a.answeredAt))
    {
      GivesMeaning(r, line, a.ask.toolUseId, a.answers, a.answeredAt);
    }
  }

  lemma CollectRight(r: Reader, lines: seq<Bytes>, since: int, c: Collected)
    requires lines != [] && CollectedRight(r, lines[..|lines| - 1], since, c)
    ensures CollectedRight(r, lines, since, Collect(r, c, lines[|lines| - 1], since))
  {
    var init, line := lines[..|lines| - 1], lines[|lines| - 1];
    var c' := Collect(r, c, line, since);
    assert lines == init + [line];
    CollectMeaning(r, c, line, since);
    forall ask ensures Holds(c'.calls, ask) <==> Waits(r, lines, ask) {
      WaitsMore(r, init, line, ask);
    }
    forall a ensures a in c'.out <==> AnsweredAt(r, lines, since, a) {
      AnsweredMore(r, init, line, since, a);
    }
  }

  /** An answered ask is reported exactly when some line after `since` gives answers to a call that waits then: one
      asked before, and neither asked again nor answered in between. */
  lemma {:induction false} AnsweredExactly(r: Reader, lines: seq<Bytes>, since: int)
    ensures CollectedRight(r, lines, since, CollectAll(r, lines, since))
  {
    if lines != [] {
      AnsweredExactly(r, lines[..|lines| - 1], since);
      CollectRight(r, lines, since, CollectAll(r, lines[..|lines| - 1], since));
    }
  }

  /** They come in the order of the lines that answer them. */
  lemma {:induction false} AnsweredInOrder(r: Reader, lines: seq<Bytes>, since: int, k: nat)
    requires k <= |lines|
    ensures CollectAll(r, lines[..k], since).out <= CollectAll(r, lines, since).out
  {
    if k == |lines| {
      assert lines[..k] == lines;
    } else {
      var n := |lines| - 1;
      AnsweredInOrder(r, lines[..n], since, k);
      assert lines[..n][..k] == lines[..k];
      CollectAppends(r, CollectAll(r, lines[..n], since), lines[n], since);
    }
  }

  lemma CollectAppends(r: Reader, c: Collected, line: Bytes, since: int)
    ensures c.out <= Collect(r, c, line, since).out
  {
    var e := EntryOf(r, line);
    if e.User? && e.answers.Some? {
      CreditAppends(c, e.results, e.answers.value, e.at, since);
    }
  }

  lemma {:induction false} CreditAppends(c: Collected, results: seq<string>, answers: Answers, at: int, since: int)
    ensures c.out <= Credit(c, results, answers, at, since).out
  {
    if results != [] {
      CreditAppends(c, results[..|results| - 1], answers, at, since);
    }
  }

  function Later(out: seq<Answered>, since: int): seq<Answered> {
    if out == [] then []
    else
      var before, last := Later(out[..|out| - 1], since), out[|out| - 1];
      if last.answeredAt > since then before + [last] else before
  }

  lemma {:induction false} CreditLater(c: Collected, d: Collected, results: seq<string>, answers: Answers, at: int, since: int, later: int)
    requires since <= later && d == Collected(c.calls, Later(c.out, later))
    ensures var credited := Credit(c, results, answers, at, since);
            Credit(d, results, answers, at, later) == Collected(credited.calls, Later(credited.out, later))
  {
    if results != [] {
      CreditLater(c, d, results[..|results| - 1], answers, at, since, later);
    }
  }

  /** Asking for a later time only leaves out what was answered by then: the reading itself does not change. */
  lemma {:induction false} SinceOnlyFilters(r: Reader, lines: seq<Bytes>, since: int, later: int)
    requires since <= later
    ensures CollectAll(r, lines, later).calls == CollectAll(r, lines, since).calls
    ensures CollectAll(r, lines, later).out == Later(CollectAll(r, lines, since).out, later)
  {
    if lines != [] {
      var n := |lines| - 1;
      SinceOnlyFilters(r, lines[..n], since, later);
      match EntryOf(r, lines[n])
      case User(results, Some(answers), at) =>
        CreditLater(CollectAll(r, lines[..n], since), CollectAll(r, lines[..n], later), results, answers, at, since, later);
      case _ =>
    }
  }

  function Asked(r: Reader, lines: seq<Bytes>): multiset<Ask> {
    if lines == [] then multiset{}
    else
      var before, ask := Asked(r, lines[..|lines| - 1]), AskOf(EntryOf(r, lines[|lines| - 1]));
      if ask.Some? then before + multiset{ask.value} else before
  }

  function AsksOf(out: seq<Answered>): multiset<Ask> {
    if out == [] then multiset{} else AsksOf(out[..|out| - 1]) + multiset{out[|out| - 1].ask}
  }

  /** The calls still waiting, each under its own id. */
  ghost predicate KeyedById(calls: map<string, Ask>) {
    forall id :: id in calls ==> calls[id].toolUseId == id
  }

  /** Each call asked accounts for at most one answered ask or one still waiting. */
  ghost predicate OncePerAsk(c: Collected, asked: multiset<Ask>) {
    && KeyedById(c.calls)
    && forall ask :: AsksOf(c.out)[ask] + (if ask.toolUseId in c.calls && c.calls[ask.toolUseId] == ask then 1 else 0) <= asked[ask]
  }

  lemma {:induction false} CreditOnce(c: Collected, results: seq<string>, answers: Answers, at: int, since: int, asked: multiset<Ask>)
    requires OncePerAsk(c, asked)
    ensures OncePerAsk(Credit(c, results, answers, at, since), asked)
  {
    if results != [] {
      CreditOnce(c, results[..|results| - 1], answers, at, since, asked);
    }
  }

  lemma AskOnce(c: Collected, ask: Ask, asked: multiset<Ask>)
    requires OncePerAsk(c, asked)
    ensures OncePerAsk(Collected(c.calls[ask.toolUseId := ask], c.out), asked + multiset{ask})
  {
    forall other
      ensures AsksOf(c.out)[other] <= asked[other]
    {
      var waiting := if other.toolUseId in c.calls && c.calls[other.toolUseId] == other then 1 else 0;
      assert AsksOf(c.out)[other] + waiting <= asked[other];
    }
  }

  /** Every answered ask is a call the transcript holds, with that call's own questions, and no call is
      reported answered more often than it was asked. */
  lemma {:induction false} AnsweredOnce(r: Reader, lines: seq<Bytes>, since: int)
    ensures OncePerAsk(CollectAll(r, lines, since), Asked(r, lines))
  {
    if lines != [] {
      var n := |lines| - 1;
      var before, entry := CollectAll(r, lines[..n], since), EntryOf(r, lines[n]);
      var asked := Asked(r, lines[..n]);
      AnsweredOnce(r, lines[..n], since);
      if AskOf(entry).Some? {
        AskOnce(before, AskOf(entry).value, asked);
        MoreAsked(before, asked, AskOf(entry).value);
      } else if entry.User? && entry.answers.Some? {
        CreditOnce(before, entry.results, entry.answers.value, entry.at, since, asked);
      }
    }
  }

  lemma MoreAsked(c: Collected, asked: multiset<Ask>, ask: Ask)
    requires OncePerAsk(c, asked)
    ensures OncePerAsk(c, asked + multiset{ask})
  {
  }
}
