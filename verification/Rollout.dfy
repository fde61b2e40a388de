/** Following a rollout: what a reader holds after a poll, as a function of the bytes it saw. */
module Rollout {
  import opened Lines
  import opened QuestionBook
  import opened QuestionBookFacts

  /** Where a reader stands: the end of the last whole record it took, and the book so far. */
  datatype Position = Position(offset: nat, book: Book)

  const START := Position(0, EMPTY_BOOK)

  /** A reader that has just read `f` from its beginning. */
  function Fresh(codec: Codec, f: Bytes): (p: Position)
    ensures BookInRange(p.book) && p.offset <= |f|
  {
    Position(CompleteEnd(f), ReadCalls(codec, f))
  }

  predicate BookInRange(b: Book) {
    IndexInRange(|b.calls|, b.index)
  }

  /** One poll: a file shorter than the offset is another one and is read from its start, any other from
      the offset on; only whole records are taken. */
  function Poll(codec: Codec, p: Position, f: Bytes): (p': Position)
    requires BookInRange(p.book)
    ensures BookInRange(p'.book)
  {
    var from := if |f| < p.offset then START else p;
    var added := f[from.offset..];
    Position(from.offset + CompleteEnd(added), Run(codec, from.book, CompleteLines(added)))
  }

  function PollAll(codec: Codec, files: seq<Bytes>): (p: Position)
    ensures BookInRange(p.book)
  {
    if files == [] then START else Poll(codec, PollAll(codec, files[..|files| - 1]), files[|files| - 1])
  }

  /** Polling a file that has grown gives what a fresh read of it gives. */
  lemma PollGrown(codec: Codec, f: Bytes, g: Bytes)
    requires f <= g
    ensures Poll(codec, Fresh(codec, f), g) == Fresh(codec, g)
  {
    GrownBy(f, g);
    RunAppend(codec, EMPTY_BOOK, CompleteLines(f), CompleteLines(g[CompleteEnd(f)..]));
  }

  /** So does polling one that has shrunk below what was taken of it. */
  lemma PollShrunk(codec: Codec, f: Bytes, g: Bytes)
    requires |g| < CompleteEnd(f)
    ensures Poll(codec, Fresh(codec, f), g) == Fresh(codec, g)
  {
    assert g[0..] == g;
  }

  /** Each version of the file extends the one before, or is shorter than what was taken of it. */
  ghost predicate AppendOnlyOrReplaced(files: seq<Bytes>) {
    forall i :: 0 < i < |files| ==> files[i - 1] <= files[i] || |files[i]| < CompleteEnd(files[i - 1])
  }

  /** Whatever the cuts between polls, mid-record or not, the reader ends where one pass over the last
      version ends. */
  lemma {:induction false} AnyCutsSame(codec: Codec, files: seq<Bytes>)
    requires files != [] && AppendOnlyOrReplaced(files)
    ensures PollAll(codec, files) == Fresh(codec, files[|files| - 1])
  {
    var n := |files| - 1;
    var init := files[..n];
    if n == 0 {
      assert files[0][0..] == files[0];
    } else {
      assert AppendOnlyOrReplaced(init) by {
        forall i | 0 < i < n ensures init[i - 1] <= init[i] || |init[i]| < CompleteEnd(init[i - 1]) {
          assert files[i - 1] <= files[i] || |files[i]| < CompleteEnd(files[i - 1]);
        }
      }
      AnyCutsSame(codec, init);
      if files[n - 1] <= files[n] {
        PollGrown(codec, files[n - 1], files[n]);
      } else {
        PollShrunk(codec, files[n - 1], files[n]);
      }
    }
  }

  /** Replacing the file by one that is no shorter is the one thing a poll cannot see: then what was taken
      of the old file stays. */
  lemma ReplacedByAsLong(codec: Codec, f: Bytes, g: Bytes)
    requires CompleteEnd(f) <= |g|
    ensures Poll(codec, Fresh(codec, f), g) == Fresh(codec, f[..CompleteEnd(f)] + g[CompleteEnd(f)..])
  {
    var taken := f[..CompleteEnd(f)];
    WholePart(f);
    var h := taken + g[|taken|..];
    PollGrown(codec, taken, h);
    assert h[|taken|..] == g[|taken|..];
  }

  // ---- Since: what a rollout gained after an offset ------------------------------------------------

  /** What one record says about the operator's input. */
  datatype Sign = Nothing | Spoke | AnsweredCall(callId: string)

  datatype Activity = Activity(userMessage: bool, answered: seq<string>, next: nat)

  function TakeSign(decode: Bytes -> Sign, signs: (bool, seq<string>), line: Bytes): (bool, seq<string>) {
    if |line| > MAX_LINE then signs
    else
      match decode(line)
      case Nothing => signs
      case Spoke => (true, signs.1)
      case AnsweredCall(id) => (signs.0, signs.1 + [id])
  }

  function Signs(decode: Bytes -> Sign, lines: seq<Bytes>): (bool, seq<string>) {
    if lines == [] then (false, []) else TakeSign(decode, Signs(decode, lines[..|lines| - 1]), lines[|lines| - 1])
  }

  lemma {:induction false} SignsAppend(decode: Bytes -> Sign, first: seq<Bytes>, more: seq<Bytes>)
    ensures Signs(decode, first + more).0 == (Signs(decode, first).0 || Signs(decode, more).0)
    ensures Signs(decode, first + more).1 == Signs(decode, first).1 + Signs(decode, more).1
  {
    if more == [] {
      assert first + more == first;
    } else {
      assert (first + more)[..|first + more| - 1] == first + more[..|more| - 1];
      SignsAppend(decode, first, more[..|more| - 1]);
    }
  }

  /** The calls the lines say were answered, read from the front. */
  ghost function AnsweredBy(decode: Bytes -> Sign, lines: seq<Bytes>): seq<string> {
    if lines == [] then []
    else
      (if |lines[0]| <= MAX_LINE && decode(lines[0]).AnsweredCall? then [decode(lines[0]).callId] else []) +
      AnsweredBy(decode, lines[1..])
  }

  ghost predicate SpokeIn(decode: Bytes -> Sign, lines: seq<Bytes>) {
    exists i :: 0 <= i < |lines| && |lines[i]| <= MAX_LINE && decode(lines[i]).Spoke?
  }

  /** What the signs are: whether the operator spoke in some line, and every call answered, in order; a line over
      the cap says nothing. */
  lemma {:induction false} SignsMeaning(decode: Bytes -> Sign, lines: seq<Bytes>)
    ensures Signs(decode, lines).0 <==> SpokeIn(decode, lines)
    ensures Signs(decode, lines).1 == AnsweredBy(decode, lines)
  {
    if lines != [] {
      var first, more := lines[..1], lines[1..];
      assert lines == first + more && first[..0] == [];
      SignsAppend(decode, first, more);
      SignsMeaning(decode, more);
      assert forall i :: 0 <= i < |more| ==> more[i] == lines[i + 1];
      if SpokeIn(decode, more) {
        var i :| 0 <= i < |more| && |more[i]| <= MAX_LINE && decode(more[i]).Spoke?;
        assert decode(lines[i + 1]).Spoke?;
      }
    }
  }

  function Since(decode: Bytes -> Sign, f: Bytes, offset: int): Activity {
    var start := if offset < 0 || |f| < offset then 0 else offset;
    var (spoke, answered) := Signs(decode, CompleteLines(f[start..]));
    Activity(spoke, answered, start + CompleteEnd(f[start..]))
  }

  /** What a read comes to that has found `signs` and stands at `next`. */
  ghost function Ahead(decode: Bytes -> Sign, f: Bytes, signs: (bool, seq<string>), next: nat): Activity
    requires next <= |f|
  {
    var (spoke, answered) := Signs(decode, CompleteLines(f[next..]));
    Activity(signs.0 || spoke, signs.1 + answered, next + CompleteEnd(f[next..]))
  }

  /** Taking the next line changes nothing of that. */
  lemma AheadNext(decode: Bytes -> Sign, f: Bytes, signs: (bool, seq<string>), next: nat, line: Bytes)
    requires next + |line| <= |f|
    requires CompleteLines(f[next..]) == [line] + CompleteLines(f[next + |line|..])
    requires CompleteEnd(f[next..]) == |line| + CompleteEnd(f[next + |line|..])
    ensures Ahead(decode, f, signs, next) == Ahead(decode, f, TakeSign(decode, signs, line), next + |line|)
  {
    SignsAppend(decode, [line], CompleteLines(f[next + |line|..]));
    assert [line][..0] == [];
    assert signs.1 + ([] + Signs(decode, [line]).1) == signs.1 + Signs(decode, [line]).1;
  }

  /** Each version of a growing file, read from where the read before it stopped. */
  function SinceChain(decode: Bytes -> Sign, files: seq<Bytes>): (bool, seq<string>, nat) {
    if files == [] then (false, [], 0)
    else
      var (spoke, answered, cursor) := SinceChain(decode, files[..|files| - 1]);
      var a := Since(decode, files[|files| - 1], cursor);
      (spoke || a.userMessage, answered + a.answered, a.next)
  }

  lemma SinceGrown(decode: Bytes -> Sign, f: Bytes, g: Bytes)
    requires f <= g
    ensures var a := Since(decode, g, CompleteEnd(f));
            && Signs(decode, CompleteLines(g)).0 == (Signs(decode, CompleteLines(f)).0 || a.userMessage)
            && Signs(decode, CompleteLines(g)).1 == Signs(decode, CompleteLines(f)).1 + a.answered
            && CompleteEnd(g) == a.next
  {
    var added := g[CompleteEnd(f)..];
    GrownBy(f, g);
    SignsAppend(decode, CompleteLines(f), CompleteLines(added));
  }

  /** A chain of reads over a growing file reports exactly what one read of its last version reports: every
      answered call once, in order. */
  lemma {:induction false} SinceChainReadsOnce(decode: Bytes -> Sign, files: seq<Bytes>)
    requires files != [] && forall i :: 0 < i < |files| ==> files[i - 1] <= files[i]
    ensures var last := files[|files| - 1];
            && SinceChain(decode, files).0 == Signs(decode, CompleteLines(last)).0
            && SinceChain(decode, files).1 == Signs(decode, CompleteLines(last)).1
            && SinceChain(decode, files).2 == CompleteEnd(last)
  {
    var n := |files| - 1;
    var last := files[n];
    if n == 0 {
      assert last[0..] == last;
      assert files[..n] == [];
    } else {
      SinceChainReadsOnce(decode, files[..n]);
      SinceGrown(decode, files[n - 1], last);
    }
  }
}
