/** Reading a transcript forward from a byte cursor, at most a capped window at a time. */
module Delta {
  import opened Lines

  const DELTA_CAP: nat := 0x4_0000

  datatype Result = Result(toolUseId: string, rejected: bool)

  /** What one decoded record adds; Skip for a line that does not decode. */
  datatype Entry =
    | Skip
    | User(meta: bool, prompt: string, results: seq<Result>)
    | Assistant(prose: seq<string>)

  /** The outside functions: trimming a line and decoding it. */
  datatype Reader = Reader(trim: Bytes -> Bytes, decode: Bytes -> Entry)

  predicate TrimsNothing(r: Reader) {
    r.trim([]) == []
  }

  datatype Said = Said(prompts: seq<string>, turns: seq<string>, results: seq<Result>)

  const SILENCE := Said([], [], [])

  function Then(a: Said, b: Said): Said {
    Said(a.prompts + b.prompts, a.turns + b.turns, a.results + b.results)
  }

  const OPEN_BRACE: Byte := 123

  /** What one line adds to a window. */
  function SaidBy(r: Reader, line: Bytes): Said {
    var trimmed := r.trim(line);
    if trimmed == [] || trimmed[0] != OPEN_BRACE then SILENCE
    else
      match r.decode(trimmed)
      case Skip => SILENCE
      case User(meta, prompt, results) =>
        if meta then SILENCE else Said(if prompt == "" then [] else [prompt], [], results)
      case Assistant(prose) => Said([], prose, [])
  }

  function SaidIn(r: Reader, lines: seq<Bytes>): Said {
    if lines == [] then SILENCE else Then(SaidIn(r, lines[..|lines| - 1]), SaidBy(r, lines[|lines| - 1]))
  }

  lemma {:induction false} SaidAppend(r: Reader, a: seq<Bytes>, b: seq<Bytes>)
    ensures SaidIn(r, a + b) == Then(SaidIn(r, a), SaidIn(r, b))
  {
    if b == [] {
      assert a + b == a;
    } else {
      var init, last := b[..|b| - 1], SaidBy(r, b[|b| - 1]);
      assert (a + b)[..|a + b| - 1] == a + init;
      SaidAppend(r, a, init);
      ThenAssociates(SaidIn(r, a), SaidIn(r, init), last);
    }
  }

  lemma ThenAssociates(a: Said, b: Said, c: Said)
    ensures Then(Then(a, b), c) == Then(a, Then(b, c))
  {
  }

  /** The empty piece a split leaves after the last newline adds nothing. */
  lemma EmptyLineLast(r: Reader, lines: seq<Bytes>)
    requires TrimsNothing(r)
    ensures SaidIn(r, lines + [[]]) == SaidIn(r, lines)
  {
    SaidAppend(r, lines, [[]]);
    var none: seq<Bytes> := [[]];
    assert none[..0] == [];
    assert SaidIn(r, none) == SILENCE;
  }

  /** What the lines of a window say, one by one. A user's record that is no meta record gives its words, if it has
      any, and its results; an assistant's gives its prose; nothing else gives anything. */
  lemma {:induction false} SaidMeaning(r: Reader, lines: seq<Bytes>)
    ensures forall p :: p in SaidIn(r, lines).prompts <==> exists i :: 0 <= i < |lines| && Prompts(r, lines[i], p)
    ensures forall t :: t in SaidIn(r, lines).turns <==> exists i :: 0 <= i < |lines| && Turns(r, lines[i], t)
    ensures forall s :: s in SaidIn(r, lines).results <==> exists i :: 0 <= i < |lines| && Returns(r, lines[i], s)
  {
    if lines != [] {
      var n := |lines| - 1;
      SaidMeaning(r, lines[..n]);
      OneLineSays(r, lines[n]);
      assert lines == lines[..n] + [lines[n]];
      assert forall i :: 0 <= i < n ==> lines[..n][i] == lines[i];
    }
  }

  ghost predicate Entered(r: Reader, line: Bytes, entry: Entry) {
    r.trim(line) != [] && r.trim(line)[0] == OPEN_BRACE && r.decode(r.trim(line)) == entry
  }

  ghost predicate Prompts(r: Reader, line: Bytes, p: string) {
    p != "" && exists results :: Entered(r, line, User(false, p, results))
  }

  ghost predicate Turns(r: Reader, line: Bytes, t: string) {
    exists prose :: Entered(r, line, Assistant(prose)) && t in prose
  }

  ghost predicate Returns(r: Reader, line: Bytes, s: Result) {
    exists p, results :: Entered(r, line, User(false, p, results)) && s in results
  }

  lemma OneLineSays(r: Reader, line: Bytes)
    ensures forall p :: p in SaidBy(r, line).prompts <==> Prompts(r, line, p)
    ensures forall t :: t in SaidBy(r, line).turns <==> Turns(r, line, t)
    ensures forall s :: s in SaidBy(r, line).results <==> Returns(r, line, s)
    ensures forall p, results :: Entered(r, line, User(false, p, results)) ==>
              SaidBy(r, line) == Said(if p == "" then [] else [p], [], results)
    ensures forall prose :: Entered(r, line, Assistant(prose)) ==> SaidBy(r, line) == Said([], prose, [])
  {
    var trimmed := r.trim(line);
    if trimmed != [] && trimmed[0] == OPEN_BRACE {
      assert Entered(r, line, r.decode(trimmed));
    }
  }

  /** And in which order: as the lines come. */
  lemma SaidInOrder(r: Reader, a: seq<Bytes>, b: seq<Bytes>)
    ensures SaidIn(r, a + b).prompts == SaidIn(r, a).prompts + SaidIn(r, b).prompts
    ensures SaidIn(r, a + b).turns == SaidIn(r, a).turns + SaidIn(r, b).turns
    ensures SaidIn(r, a + b).results == SaidIn(r, a).results + SaidIn(r, b).results
  {
    SaidAppend(r, a, b);
  }

  datatype Delta = Delta(said: Said, next: int, rewound: bool)

  /** Where a read of `size` bytes from `offset` starts, and whether that is not where it was asked to. */
  function Start(size: nat, offset: int): (w: (nat, bool))
    ensures w.0 <= size
  {
    var start, rewound := if offset < 0 || offset > size then 0 else offset,
                          (offset < 0 || offset > size) && offset > 0;
    if size - start > DELTA_CAP then (size - DELTA_CAP, true) else (start, rewound)
  }

  /** A read starts in the file and covers no more than the cap, as much as it can from where it was asked to
      start; it is rewound exactly when it starts elsewhere. An offset outside the file asks for its start. */
  lemma StartMeaning(size: nat, offset: int)
    ensures var (start, rewound) := Start(size, offset);
            var wanted := if 0 <= offset <= size then offset else 0;
            && wanted <= start <= size && size - start <= DELTA_CAP
            && (start != wanted ==> size - start == DELTA_CAP)
            && (rewound <==> start != if offset < 0 then 0 else offset)
  {
  }

  /** The records of `f` that begin at `start` or after it. */
  function RecordsBeginning(f: Bytes, start: nat): seq<Bytes>
    requires start <= |f|
  {
    if Boundary(f, start) || Records(f[start..]) == [] then Records(f[start..]) else Records(f[start..])[1..]
  }

  /** What a read of `f` from `offset` returns. */
  function Since(r: Reader, f: Bytes, offset: int): Delta {
    var (start, rewound) := Start(|f|, offset);
    Delta(SaidIn(r, RecordsBeginning(f, start)),
          if Boundary(f, start) || Records(f[start..]) != [] then CompleteEnd(f) else start,
          rewound)
  }

  // ---- the reader as it runs -----------------------------------------------------------------------

  /** `parseDelta`: the lines of a window, the first one dropped when the window cut it. */
  method ParseDelta(r: Reader, raw: Bytes, partial: bool) returns (said: Said)
    ensures said == SaidIn(r, if partial then Split(raw)[1..] else Split(raw))
  {
    var lines := Split(raw);
    if partial {
      lines := lines[1..];
    }
    said := SILENCE;
    for i := 0 to |lines|
      invariant said == SaidIn(r, lines[..i])
    {
      assert lines[..i + 1][..i] == lines[..i];
      var line := r.trim(lines[i]);
      if line == [] || line[0] != OPEN_BRACE {
        continue;
      }
      match r.decode(line)
      case Skip =>
      case User(meta, prompt, results) =>
        if meta {
          continue;
        }
        if prompt != "" {
          said := said.(prompts := said.prompts + [prompt]);
        }
        said := said.(results := said.results + results);
      case Assistant(prose) =>
        said := said.(turns := said.turns + prose);
    }
    assert lines[..|lines|] == lines;
  }

  /** `Since`, on the bytes the file holds. */
  method ReadSince(r: Reader, f: Bytes, offset: int) returns (delta: Delta)
    requires TrimsNothing(r)
    ensures delta == Since(r, f, offset)
  {
    var size := |f|;
    var start, rewound := offset, false;
    if start < 0 || start > size {
      start, rewound := 0, offset > 0;
    }
    if size - start > DELTA_CAP {
      start, rewound := size - DELTA_CAP, true;
    }
    var said, next := ReadWindow(r, f, start);
    delta := Delta(said, next, rewound);
  }

  /** The window from `start` to the end of the file. */
  method ReadWindow(r: Reader, f: Bytes, start: nat) returns (said: Said, next: nat)
    requires TrimsNothing(r) && start <= |f|
    ensures said == SaidIn(r, RecordsBeginning(f, start))
    ensures next == if Boundary(f, start) || Records(f[start..]) != [] then CompleteEnd(f) else start
  {
    var probe := start;
    if probe > 0 {
      probe := probe - 1;
    }
    var raw := f[probe..];
    var end := CompleteEnd(raw);
    next := start;
    if end > 0 {
      next := probe + end;
    }
    raw := raw[..end];
    WindowLines(r, f, start, probe);
    var partial := false;
    if start > 0 {
      if |raw| > 0 && raw[0] == NEWLINE {
        raw := raw[1..];
      } else {
        partial := true;
      }
    }
    said := ParseDelta(r, raw, partial);
  }

  /** The lines a window is parsed as are the records that begin in it, whichever boundary it starts on. */
  lemma WindowLines(r: Reader, f: Bytes, start: nat, probe: nat)
    requires TrimsNothing(r) && start <= |f| && probe == (if start > 0 then start - 1 else 0)
    ensures var raw := f[probe..][..CompleteEnd(f[probe..])];
            var whole := start == 0 || (raw != [] && raw[0] == NEWLINE);
            && (whole <==> Boundary(f, start))
            && (whole ==> SaidIn(r, Split(if start > 0 then raw[1..] else raw)) == SaidIn(r, RecordsBeginning(f, start)))
            && (!whole ==> SaidIn(r, Split(raw)[1..]) == SaidIn(r, RecordsBeginning(f, start)))
    ensures var end := CompleteEnd(f[probe..]);
            (if end > 0 then probe + end else start) ==
            if Boundary(f, start) || Records(f[start..]) != [] then CompleteEnd(f) else start
  {
    if start == 0 {
      assert f[0..] == f;
      WholeWindow(r, f);
    } else if f[start - 1] == NEWLINE {
      BoundaryWindow(r, f, start);
    } else {
      CutWindow(r, f, start);
    }
  }

  lemma WholeWindow(r: Reader, f: Bytes)
    requires TrimsNothing(r)
    ensures SaidIn(r, Split(f[..CompleteEnd(f)])) == SaidIn(r, Records(f))
  {
    WholePart(f);
    EmptyLineLast(r, Records(f));
  }

  lemma BoundaryWindow(r: Reader, f: Bytes, start: nat)
    requires TrimsNothing(r) && 0 < start <= |f| && f[start - 1] == NEWLINE
    ensures var raw := f[start - 1..][..CompleteEnd(f[start - 1..])];
            raw != [] && raw[0] == NEWLINE && SaidIn(r, Split(raw[1..])) == SaidIn(r, Records(f[start..]))
    ensures start - 1 + CompleteEnd(f[start - 1..]) == CompleteEnd(f)
  {
    var g := f[start..];
    assert f[start - 1..] == [] + [NEWLINE] + g;
    FirstRecord([], g);
    var raw := f[start - 1..][..CompleteEnd(f[start - 1..])];
    assert raw[1..] == g[..CompleteEnd(g)];
    WholeWindow(r, g);
    CutAtBoundary(f, start);
  }

  lemma CutWindow(r: Reader, f: Bytes, start: nat)
    requires TrimsNothing(r) && 0 < start <= |f| && f[start - 1] != NEWLINE
    ensures var raw := f[start - 1..][..CompleteEnd(f[start - 1..])];
            && (raw == [] || raw[0] != NEWLINE)
            && SaidIn(r, Split(raw)[1..]) == SaidIn(r, if Records(f[start..]) == [] then [] else Records(f[start..])[1..])
    ensures CompleteEnd(f[start - 1..]) > 0 <==> Records(f[start..]) != []
    ensures Records(f[start..]) != [] ==> start - 1 + CompleteEnd(f[start - 1..]) == CompleteEnd(f)
  {
    var c, g := [f[start - 1]], f[start..];
    assert f[start - 1..] == c + g;
    PrefixedRecords(c, g);
    WholePart(c + g);
    RestIsSuffix(c + g);
    var raw := (c + g)[..CompleteEnd(c + g)];
    if Records(g) == [] {
      RecordsOrRest(g);
      assert raw == [];
      assert Split(raw) == [[]];
    } else {
      RecordsOrRest(c + g);
      assert Split(raw) == ([c + Records(g)[0]] + Records(g)[1..]) + [[]];
      assert Split(raw)[1..] == Records(g)[1..] + [[]];
      EmptyLineLast(r, Records(g)[1..]);
      var j := RecordsFrom(f, start - 1);
    }
  }

  // ---- what a reader can rely on -------------------------------------------------------------------

  /** The bytes some records take, their newlines among them. */
  function Span(lines: seq<Bytes>): nat {
    if lines == [] then 0 else Span(lines[..|lines| - 1]) + |lines[|lines| - 1]| + 1
  }

  lemma SpanMore(lines: seq<Bytes>, line: Bytes)
    ensures Span(lines + [line]) == Span(lines) + |line| + 1
  {
    assert (lines + [line])[..|lines|] == lines;
  }

  lemma {:induction false} RecordsSpan(f: Bytes)
    ensures Span(Records(f)) == CompleteEnd(f)
  {
    if f != [] {
      var init := f[..|f| - 1];
      RecordsSpan(init);
      RestIsSuffix(init);
      if f[|f| - 1] == NEWLINE {
        SpanMore(Records(init), Rest(init));
      }
    }
  }

  /** The `j`th record is the first that begins at `start` or after it. */
  predicate BeginsAt(f: Bytes, start: nat, j: nat)
    requires j <= |Records(f)|
  {
    (j < |Records(f)| ==> Span(Records(f)[..j]) >= start) && (j > 0 ==> Span(Records(f)[..j - 1]) < start)
  }

  lemma LastSpan(lines: seq<Bytes>)
    requires lines != []
    ensures Span(lines[..|lines| - 1]) < Span(lines)
  {
  }

  lemma BeginsAtBoundary(f: Bytes, start: nat)
    requires start <= |f| && Boundary(f, start)
    ensures var j := |Records(f[..start])|; j <= |Records(f)| && BeginsAt(f, start, j)
    ensures Records(f)[|Records(f[..start])|..] == Records(f[start..])
  {
    var a := f[..start];
    CutAtBoundary(f, start);
    RecordsSpan(a);
    RestIsSuffix(a);
    var j := |Records(a)|;
    assert Records(f)[..j] == Records(a);
    if j > 0 {
      LastSpan(Records(a));
      assert Records(f)[..j - 1] == Records(a)[..j - 1];
    }
  }

  lemma NewlineInside(f: Bytes, start: nat)
    requires start <= |f|
    ensures start < CompleteEnd(f) ==> !Unbroken(f[start..])
  {
    RestIsSuffix(f);
    if start < CompleteEnd(f) {
      assert f[start..][CompleteEnd(f) - 1 - start] == f[CompleteEnd(f) - 1];
    }
  }

  lemma BeginsNowhere(f: Bytes, start: nat)
    requires start <= |f| && Records(f[start..]) == []
    ensures BeginsAt(f, start, |Records(f)|)
  {
    RecordsSpan(f);
    var n := |Records(f)|;
    assert f == f[..start] + f[start..];
    RecordsOrRest(f[start..]);
    RestIsSuffix(f[start..]);
    NewlineInside(f, start);
    if n > 0 {
      LastSpan(Records(f));
    }
  }

  lemma Middle(a: seq<Bytes>, first: Bytes, b: seq<Bytes>)
    ensures var all := a + [first] + b; all == a + ([first] + b) && all[..|a| + 1] == a + [first] && all[..|a|] == a && all[|a| + 1..] == b
  {
  }

  lemma BeginsInside(f: Bytes, start: nat) returns (j: nat)
    requires start <= |f| && !Boundary(f, start) && Records(f[start..]) != []
    ensures j <= |Records(f)| && BeginsAt(f, start, j) && Records(f)[j..] == Records(f[start..])[1..]
  {
    var a, g := f[..start], f[start..];
    assert f == a + g;
    RestIsSuffix(a);
    AppendRecords(a, g);
    PrefixedRecords(Rest(a), g);
    RecordsSpan(a);
    var first := Rest(a) + Records(g)[0];
    j := |Records(a)| + 1;
    Middle(Records(a), first, Records(g)[1..]);
    assert Records(f) == Records(a) + [first] + Records(g)[1..];
    SpanMore(Records(a), first);
    assert Rest(a) == [] ==> CompleteEnd(a) == start;
  }

  /** A window holds exactly the complete records that begin at its start or after it: never half of one, and none
      less. */
  lemma NeverHalfARecord(f: Bytes, start: nat) returns (j: nat)
    requires start <= |f|
    ensures j <= |Records(f)| && RecordsBeginning(f, start) == Records(f)[j..] && BeginsAt(f, start, j)
  {
    if Boundary(f, start) {
      BeginsAtBoundary(f, start);
      j := |Records(f[..start])|;
    } else if Records(f[start..]) == [] {
      BeginsNowhere(f, start);
      j := |Records(f)|;
    } else {
      j := BeginsInside(f, start);
    }
  }

  /** The cursor handed back is a line boundary exactly when the window began on one or holds a newline. */
  lemma CursorBoundary(r: Reader, f: Bytes, offset: int)
    ensures var start := Start(|f|, offset).0;
            Boundary(f, Since(r, f, offset).next) <==> Boundary(f, start) || Records(f[start..]) != []
  {
    RestIsSuffix(f);
  }

  /** A record longer than the cap, still being written, is where it is none: read from the start of the file,
      the cursor handed back is inside that record. */
  lemma CursorInsideRecord(r: Reader, f: Bytes)
    requires |f| > DELTA_CAP && Unbroken(f)
    ensures !Boundary(f, Since(r, f, 0).next)
  {
    var start := |f| - DELTA_CAP;
    UnbrokenHasNoRecord(f[start..]);
    CursorBoundary(r, f, 0);
  }

  datatype Progress = Progress(said: Said, cursor: int, rewound: bool)

  /** Successive versions of a file, each read from where the read before it stopped. */
  function Chain(r: Reader, files: seq<Bytes>, cursor: int): Progress {
    if files == [] then Progress(SILENCE, cursor, false)
    else
      var p := Chain(r, files[..|files| - 1], cursor);
      var d := Since(r, files[|files| - 1], p.cursor);
      Progress(Then(p.said, d.said), d.next, p.rewound || d.rewound)
  }

  /** The file only grows, and no gap a read has to cover is over the cap. */
  ghost predicate Covered(files: seq<Bytes>, cursor: nat) {
    && (forall i :: 0 < i < |files| ==> files[i - 1] <= files[i])
    && (forall i :: 0 < i < |files| ==> |files[i]| - CompleteEnd(files[i - 1]) <= DELTA_CAP)
    && (files != [] ==> cursor <= |files[0]| && Boundary(files[0], cursor) && |files[0]| - cursor <= DELTA_CAP)
  }

  lemma FromBoundary(r: Reader, f: Bytes, cursor: nat)
    requires cursor <= |f| && Boundary(f, cursor) && |f| - cursor <= DELTA_CAP
    ensures Since(r, f, cursor) == Delta(SaidIn(r, Records(f[cursor..])), CompleteEnd(f), false)
  {
  }

  /** The records a grown file has beyond those read before. */
  lemma NextPart(f: Bytes, g: Bytes, cursor: nat)
    requires f <= g && cursor <= |f| && Boundary(f, cursor)
    ensures cursor <= CompleteEnd(f) <= |g| && Boundary(g, cursor) && Boundary(g, CompleteEnd(f))
    ensures Records(g[cursor..]) == Records(f[cursor..]) + Records(g[CompleteEnd(f)..])
  {
    var e := CompleteEnd(f);
    RestIsSuffix(f);
    CutAtBoundary(f, cursor);
    var h := g[cursor..];
    assert Boundary(h, e - cursor) && h[e - cursor..] == g[e..];
    CutAtBoundary(h, e - cursor);
    assert h[..e - cursor] == f[cursor..][..CompleteEnd(f[cursor..])];
    WholePart(f[cursor..]);
  }

  lemma NextRead(r: Reader, f: Bytes, g: Bytes, cursor: nat)
    requires f <= g && cursor <= |f| && Boundary(f, cursor) && |g| - CompleteEnd(f) <= DELTA_CAP
    ensures Boundary(g, cursor)
    ensures var d := Since(r, g, CompleteEnd(f));
            && Then(SaidIn(r, Records(f[cursor..])), d.said) == SaidIn(r, Records(g[cursor..]))
            && d.next == CompleteEnd(g) && !d.rewound
  {
    NextPart(f, g, cursor);
    FromBoundary(r, g, CompleteEnd(f));
    SaidAppend(r, Records(f[cursor..]), Records(g[CompleteEnd(f)..]));
  }

  lemma CoveredBefore(files: seq<Bytes>, cursor: nat)
    requires |files| > 1 && Covered(files, cursor)
    ensures Covered(files[..|files| - 1], cursor)
  {
    var init := files[..|files| - 1];
    forall i | 0 < i < |init|
      ensures init[i - 1] <= init[i] && |init[i]| - CompleteEnd(init[i - 1]) <= DELTA_CAP
    {
      assert files[i - 1] <= files[i] && |files[i]| - CompleteEnd(files[i - 1]) <= DELTA_CAP;
    }
  }

  /** A chain of reads from a line boundary returns every complete record of the growing file exactly once, in
      order, with its cursor a line boundary again and nothing reported as rewound. */
  lemma {:induction false} ChainReadsOnce(r: Reader, files: seq<Bytes>, cursor: nat)
    requires files != [] && Covered(files, cursor)
    ensures var last := files[|files| - 1];
            && cursor <= |last|
            && Chain(r, files, cursor) == Progress(SaidIn(r, Records(last[cursor..])), CompleteEnd(last), false)
            && Boundary(last, CompleteEnd(last)) && Boundary(last, cursor)
  {
    var n := |files| - 1;
    var init, last := files[..n], files[n];
    RestIsSuffix(last);
    if n == 0 {
      assert init == [];
      FromBoundary(r, last, cursor);
    } else {
      var before := files[n - 1];
      CoveredBefore(files, cursor);
      ChainReadsOnce(r, init, cursor);
      NextRead(r, before, last, cursor);
    }
  }
}
