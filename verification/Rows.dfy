/** Painted terminal rows: printable ASCII between control sequences, measured and cut without a segmenter. */
module Rows {
  import opened Lines
  import opened Text

  const ESC: Byte := 0x1b
  const BRACKET: Byte := 0x5b

  predicate IsParameter(b: Byte) { 0x30 <= b <= 0x3f }
  predicate IsIntermediate(b: Byte) { 0x20 <= b <= 0x2f }
  predicate IsFinal(b: Byte) { 0x40 <= b <= 0x7e }
  predicate IsPrintable(b: Byte) { 0x20 <= b < 0x7f }

  predicate AllParameters(s: Bytes) {
    forall i :: 0 <= i < |s| ==> IsParameter(s[i])
  }

  predicate AllIntermediates(s: Bytes) {
    forall i :: 0 <= i < |s| ==> IsIntermediate(s[i])
  }

  /** A control sequence as section 5.4 of ECMA-48 has it: the introducer, parameter bytes, intermediate bytes
      and one final byte. */
  ghost predicate IsControl(s: Bytes) {
    exists p, q :: 2 <= p <= q && q + 1 == |s| && SplitAt(s, p, q)
  }

  predicate SplitAt(s: Bytes, p: nat, q: nat)
    requires 2 <= p <= q && q + 1 == |s|
  {
    s[0] == ESC && s[1] == BRACKET && AllParameters(s[2..p]) && AllIntermediates(s[p..q]) && IsFinal(s[q])
  }

  function SkipParameters(s: Bytes, i: nat): (p: nat)
    requires i <= |s|
    ensures i <= p <= |s| && AllParameters(s[i..p]) && (p < |s| ==> !IsParameter(s[p]))
    decreases |s| - i
  {
    if i < |s| && IsParameter(s[i]) then SkipParameters(s, i + 1) else i
  }

  function SkipIntermediates(s: Bytes, i: nat): (q: nat)
    requires i <= |s|
    ensures i <= q <= |s| && AllIntermediates(s[i..q]) && (q < |s| ==> !IsIntermediate(s[q]))
    decreases |s| - i
  {
    if i < |s| && IsIntermediate(s[i]) then SkipIntermediates(s, i + 1) else i
  }

  /** The length of the control sequence `s` starts with, None when it starts with no complete one. */
  function CsiLength(s: Bytes): (size: Option<nat>)
    ensures size.Some? ==> 3 <= size.value <= |s|
  {
    if |s| < 3 || s[1] != BRACKET then None
    else
      var q := SkipIntermediates(s, SkipParameters(s, 2));
      if q == |s| || !IsFinal(s[q]) then None else Some(q + 1)
  }

  /** What is on a row: characters one cell wide, and control sequences, which take none. */
  datatype Token = Cell(b: Byte) | Control(text: Bytes)

  ghost predicate WellFormed(t: Token) {
    match t
    case Cell(b) => IsPrintable(b)
    case Control(text) => IsControl(text)
  }

  ghost predicate AllWellFormed(ts: seq<Token>) {
    forall i :: 0 <= i < |ts| ==> WellFormed(ts[i])
  }

  function BytesOf(t: Token): Bytes {
    match t
    case Cell(b) => [b]
    case Control(text) => text
  }

  function Flatten(ts: seq<Token>): Bytes {
    if ts == [] then [] else Flatten(ts[..|ts| - 1]) + BytesOf(ts[|ts| - 1])
  }

  /** The tokens of a row, None when it holds anything else. */
  function Tokens(s: Bytes): Option<seq<Token>> {
    if s == [] then Some([])
    else if s[0] == ESC then
      var size := CsiLength(s);
      if size.None? then None
      else
        var rest := Tokens(s[size.value..]);
        if rest.Some? then Some([Control(s[..size.value])] + rest.value) else None
    else if !IsPrintable(s[0]) then None
    else
      var rest := Tokens(s[1..]);
      if rest.Some? then Some([Cell(s[0])] + rest.value) else None
  }

  predicate AsciiRow(s: Bytes) {
    Tokens(s).Some?
  }

  /** The text one sees. */
  function Visible(ts: seq<Token>): Bytes {
    if ts == [] then []
    else
      var before, last := Visible(ts[..|ts| - 1]), ts[|ts| - 1];
      if last.Cell? then before + [last.b] else before
  }

  /** The control sequences, in order. */
  function Controls(ts: seq<Token>): seq<Bytes> {
    if ts == [] then []
    else
      var before, last := Controls(ts[..|ts| - 1]), ts[|ts| - 1];
      if last.Control? then before + [last.text] else before
  }

  // ---- the fast paths as they run ------------------------------------------------------------------

  method MeasureCsi(s: Bytes) returns (size: Option<nat>)
    ensures size == CsiLength(s)
  {
    if |s| < 3 || s[1] != BRACKET {
      return None;
    }
    var i := 2;
    while i < |s| && IsParameter(s[i])
      invariant 2 <= i <= |s| && SkipParameters(s, 2) == SkipParameters(s, i)
    {
      i := i + 1;
    }
    ghost var p := i;
    while i < |s| && IsIntermediate(s[i])
      invariant p <= i <= |s| && SkipIntermediates(s, p) == SkipIntermediates(s, i)
    {
      i := i + 1;
    }
    if i == |s| || !IsFinal(s[i]) {
      return None;
    }
    return Some(i + 1);
  }

  method IsAsciiRow(s: Bytes) returns (ok: bool)
    ensures ok == AsciiRow(s)
  {
    var i := 0;
    assert s[0..] == s;
    while i < |s|
      invariant 0 <= i <= |s| && AsciiRow(s) == AsciiRow(s[i..])
    {
      if s[i] == ESC {
        var size := MeasureCsi(s[i..]);
        if size.None? {
          return false;
        }
        assert s[i..][size.value..] == s[i + size.value..];
        i := i + size.value;
        continue;
      }
      assert s[i..][1..] == s[i + 1..];
      if !IsPrintable(s[i]) {
        return false;
      }
      i := i + 1;
    }
    ok := true;
  }

  /** What `Width` does away from the fast paths: where the terminal's parser goes on a byte, whether that
      byte prints, and how many bytes and cells the character there takes. */
  datatype Terminal = Terminal(next: (nat, Byte) -> nat, prints: (nat, Byte) -> bool, cluster: Bytes -> (nat, nat))

  const GROUND: nat := 0

  method Width(terminal: Terminal, s: Bytes) returns (width: nat)
    ensures AsciiRow(s) ==> width == |Visible(Tokens(s).value)|
  {
    var state: nat, i := GROUND, 0;
    width := 0;
    ghost var ascii, j := AsciiRow(s), 0;
    ghost var ts := if ascii then Tokens(s).value else [];
    assert s[0..] == s;
    while i < |s|
      invariant 0 <= i
      invariant ascii ==> state == GROUND && Measured(ts, s, i, j, width)
    {
      var c := s[i];
      if state == GROUND {
        var fast := FastPath(s, i, ts, j, width);
        if fast.Some? {
          width, i, j := width + fast.value.0, i + fast.value.1, j + 1;
          continue;
        }
      }
      if terminal.prints(state, c) {
        var (cells, size) := terminal.cluster(s[i..]);
        // A cluster holds at least the character it starts with.
        width, i, state := width + cells, i + (if size > 0 then size else 1), GROUND;
        continue;
      }
      state, i := terminal.next(state, c), i + 1;
    }
    if ascii {
      AllTaken(ts, s, i, j);
    }
  }

  /** The two fast paths: the cells and bytes of a character nothing joins, or of a control sequence. On a row of
      tokens one of them is met. */
  method FastPath(s: Bytes, i: nat, ghost ts: seq<Token>, ghost j: nat, ghost width: nat) returns (fast: Option<(nat, nat)>)
    requires i < |s|
    ensures fast.Some? ==> fast.value.1 > 0
    ensures Measured(ts, s, i, j, width) ==>
      fast.Some? && Measured(ts, s, i + fast.value.1, j + 1, width + fast.value.0)
  {
    if Measured(ts, s, i, j, width) {
      MeasuredNext(ts, s, i, j, width);
    }
    if IsPrintable(s[i]) && (i + 1 == |s| || s[i + 1] < 0x80) {
      return Some((1, 1));
    }
    if s[i] == ESC {
      var size := MeasureCsi(s[i..]);
      if size.Some? {
        return Some((0, size.value));
      }
    }
    fast := None;
  }

  /** The bytes from `i` on hold the tokens from `j` on. */
  ghost predicate At(ts: seq<Token>, s: Bytes, i: nat, j: nat) {
    i <= |s| && j <= |ts| && Tokens(s[i..]) == Some(ts[j..])
  }

  /** The bytes before `i` take `width` cells. */
  ghost predicate Measured(ts: seq<Token>, s: Bytes, i: nat, j: nat, width: nat) {
    At(ts, s, i, j) && width == |Visible(ts[..j])|
  }

  lemma MeasuredNext(ts: seq<Token>, s: Bytes, i: nat, j: nat, width: nat)
    requires Measured(ts, s, i, j, width) && i < |s|
    ensures s[i] == ESC ==> CsiLength(s[i..]).Some? && Measured(ts, s, i + CsiLength(s[i..]).value, j + 1, width)
    ensures s[i] != ESC ==>
      IsPrintable(s[i]) && (i + 1 < |s| ==> s[i + 1] < 0x80) && Measured(ts, s, i + 1, j + 1, width + 1)
  {
    TokenAt(ts, s, i, j);
    OneMore(ts, j, 0, []);
  }

  /** What the fast paths meet on an ASCII row: a complete control sequence, or a character nothing joins. */
  lemma TokenAt(ts: seq<Token>, s: Bytes, i: nat, j: nat)
    requires At(ts, s, i, j) && i < |s|
    ensures j < |ts|
    ensures s[i] == ESC ==>
      CsiLength(s[i..]).Some? && var n := i + CsiLength(s[i..]).value; At(ts, s, n, j + 1) && ts[j] == Control(s[i..n])
    ensures s[i] != ESC ==> IsPrintable(s[i]) && At(ts, s, i + 1, j + 1) && ts[j] == Cell(s[i])
    ensures s[i] != ESC && i + 1 < |s| ==> s[i + 1] < 0x80
  {
    var here := s[i..];
    assert here[0] == s[i] && Tokens(here).value != [];
    var n := if s[i] == ESC then CsiLength(here).value else 1;
    assert here[n..] == s[i + n..] && here[..n] == s[i..i + n];
    assert ts[j..][0] == ts[j] && ts[j..][1..] == ts[j + 1..];
    if s[i] != ESC && i + 1 < |s| {
      assert AsciiRow(s[i + 1..]) && s[i + 1..][0] == s[i + 1];
    }
  }

  lemma OneMore(ts: seq<Token>, j: nat, length: nat, tail: Bytes)
    requires j < |ts|
    ensures |Visible(ts[..j + 1])| == |Visible(ts[..j])| + if ts[j].Cell? then 1 else 0
    ensures CutAll(ts[..j + 1], length, tail) == CutStep(CutAll(ts[..j], length, tail), ts[j], length, tail)
  {
    assert ts[..j + 1][..j] == ts[..j];
  }

  lemma AllTaken(ts: seq<Token>, s: Bytes, i: nat, j: nat)
    requires At(ts, s, i, j) && i == |s|
    ensures ts[..j] == ts
  {
    assert s[i..] == [];
  }

  /** A row being cut: what is written, the cells so far, and whether the tail is in place. */
  datatype Cutting = Cutting(out: Bytes, width: nat, ignoring: bool)

  function CutStep(c: Cutting, t: Token, length: nat, tail: Bytes): Cutting {
    match t
    case Control(text) => c.(out := c.out + text)
    case Cell(b) =>
      if c.ignoring then c
      else if c.width >= length then Cutting(c.out + tail, c.width, true)
      else Cutting(c.out + [b], c.width + 1, false)
  }

  function CutAll(ts: seq<Token>, length: nat, tail: Bytes): Cutting {
    if ts == [] then Cutting([], 0, false) else CutStep(CutAll(ts[..|ts| - 1], length, tail), ts[|ts| - 1], length, tail)
  }

  /** `truncate` is the segmenter's answer for rows that hold anything but ASCII and control sequences. */
  method TruncateWidth(terminal: Terminal, truncate: (Bytes, int, Bytes) -> Bytes, s: Bytes, length: int, tail: Bytes)
      returns (out: Bytes)
    ensures AsciiRow(s) && AsciiRow(tail) ==> out == Truncated(s, length, tail)
  {
    var width := Width(terminal, s);
    if width <= length {
      return s;
    }
    var ascii := IsAsciiRow(s);
    if !ascii {
      return truncate(s, length, tail);
    }
    var tailWidth := Width(terminal, tail);
    var left := length - tailWidth;
    if left < 0 {
      return [];
    }
    out := CutRow(s, left, tail);
  }

  /** What truncating an ASCII row gives. */
  function Truncated(s: Bytes, length: int, tail: Bytes): Bytes
    requires AsciiRow(s) && AsciiRow(tail)
  {
    var ts, room := Tokens(s).value, length - |Visible(Tokens(tail).value)|;
    if |Visible(ts)| <= length then s else if room < 0 then [] else CutAll(ts, room, tail).out
  }

  method CutRow(s: Bytes, length: nat, tail: Bytes) returns (out: Bytes)
    requires AsciiRow(s)
    ensures out == CutAll(Tokens(s).value, length, tail).out
  {
    out := [];
    var width, ignoring, i := 0, false, 0;
    ghost var ts, j := Tokens(s).value, 0;
    assert s[0..] == s;
    while i < |s|
      invariant CutUpTo(ts, s, i, j, length, tail, Cutting(out, width, ignoring))
    {
      var taken, size := CutToken(s, i, length, tail, Cutting(out, width, ignoring), ts, j);
      out, width, ignoring := taken.out, taken.width, taken.ignoring;
      i, j := i + size, j + 1;
    }
    AllTaken(ts, s, i, j);
  }

  /** One round of the loop: a control sequence is kept, a character is kept, dropped, or has the tail put in its
      place. */
  method CutToken(s: Bytes, i: nat, length: nat, tail: Bytes, c: Cutting, ghost ts: seq<Token>, ghost j: nat)
      returns (taken: Cutting, size: nat)
    requires CutUpTo(ts, s, i, j, length, tail, c) && i < |s|
    ensures size > 0 && CutUpTo(ts, s, i + size, j + 1, length, tail, taken)
  {
    CutNext(ts, s, i, j, length, tail, c);
    if s[i] == ESC {
      var found := MeasureCsi(s[i..]);
      size := found.value;
      taken := c.(out := c.out + s[i..i + size]);
      return;
    }
    taken, size := c, 1;
    if !taken.ignoring && taken.width >= length {
      taken := taken.(ignoring := true, out := taken.out + tail);
    }
    if taken.ignoring {
      return;
    }
    taken := taken.(width := taken.width + 1, out := taken.out + [s[i]]);
  }

  /** What the bytes before `i` come to. */
  ghost predicate CutUpTo(ts: seq<Token>, s: Bytes, i: nat, j: nat, length: nat, tail: Bytes, c: Cutting) {
    At(ts, s, i, j) && CutAll(ts[..j], length, tail) == c
  }

  lemma CutNext(ts: seq<Token>, s: Bytes, i: nat, j: nat, length: nat, tail: Bytes, c: Cutting)
    requires CutUpTo(ts, s, i, j, length, tail, c) && i < |s|
    ensures s[i] == ESC ==>
      CsiLength(s[i..]).Some? && var n := i + CsiLength(s[i..]).value;
      n <= |s| && CutUpTo(ts, s, n, j + 1, length, tail, c.(out := c.out + s[i..n]))
    ensures s[i] != ESC ==> CutUpTo(ts, s, i + 1, j + 1, length, tail, CutStep(c, Cell(s[i]), length, tail))
  {
    TokenAt(ts, s, i, j);
    OneMore(ts, j, length, tail);
  }

  // ---- the measure is exact ------------------------------------------------------------------------

  lemma {:induction false} ParametersEndAt(s: Bytes, i: nat, p: nat)
    requires i <= p <= |s| && AllParameters(s[i..p]) && (p < |s| ==> !IsParameter(s[p]))
    ensures SkipParameters(s, i) == p
    decreases p - i
  {
    if i < p {
      assert s[i] == s[i..p][0] && s[i + 1..p] == s[i..p][1..];
      ParametersEndAt(s, i + 1, p);
    }
  }

  lemma {:induction false} IntermediatesEndAt(s: Bytes, i: nat, q: nat)
    requires i <= q <= |s| && AllIntermediates(s[i..q]) && (q < |s| ==> !IsIntermediate(s[q]))
    ensures SkipIntermediates(s, i) == q
    decreases q - i
  {
    if i < q {
      assert s[i] == s[i..q][0] && s[i + 1..q] == s[i..q][1..];
      IntermediatesEndAt(s, i + 1, q);
    }
  }

  lemma PartOfBeginning(s: Bytes, n: nat, i: nat, j: nat)
    requires i <= j <= n <= |s|
    ensures s[..n][i..j] == s[i..j]
  {
  }

  lemma MeasuredIsControl(s: Bytes, n: nat)
    requires s != [] && s[0] == ESC && CsiLength(s) == Some(n)
    ensures IsControl(s[..n])
  {
    var p, c := SkipParameters(s, 2), s[..n];
    assert SkipIntermediates(s, p) == n - 1 && 2 <= p <= n - 1 < |s|;
    PartOfBeginning(s, n, 2, p);
    PartOfBeginning(s, n, p, n - 1);
    assert SplitAt(c, p, n - 1);
  }

  lemma ControlIsMeasured(s: Bytes, n: nat)
    requires n <= |s| && IsControl(s[..n])
    ensures CsiLength(s) == Some(n)
  {
    var c := s[..n];
    var p, q :| 2 <= p <= q && q + 1 == |c| && SplitAt(c, p, q);
    PartOfBeginning(s, n, 2, p);
    PartOfBeginning(s, n, p, q);
    assert c[q] == s[q] && c[1] == s[1];
    assert p < q ==> c[p..q][0] == s[p];
    ParametersEndAt(s, 2, p);
    IntermediatesEndAt(s, p, q);
  }

  /** The scan finds a length exactly when the bytes up to it are a control sequence, which no other prefix is
      then. */
  lemma CsiExact(s: Bytes, n: nat)
    requires s != [] && s[0] == ESC
    ensures CsiLength(s) == Some(n) <==> n <= |s| && IsControl(s[..n])
  {
    if CsiLength(s) == Some(n) {
      MeasuredIsControl(s, n);
    }
    if n <= |s| && IsControl(s[..n]) {
      ControlIsMeasured(s, n);
    }
  }

  lemma {:induction false} VisibleOfBoth(a: seq<Token>, b: seq<Token>)
    ensures Visible(a + b) == Visible(a) + Visible(b)
  {
    if b == [] {
      assert a + b == a;
    } else {
      assert (a + b)[..|a + b| - 1] == a + b[..|b| - 1];
      VisibleOfBoth(a, b[..|b| - 1]);
    }
  }

  lemma {:induction false} ControlsOfBoth(a: seq<Token>, b: seq<Token>)
    ensures Controls(a + b) == Controls(a) + Controls(b)
  {
    if b == [] {
      assert a + b == a;
    } else {
      assert (a + b)[..|a + b| - 1] == a + b[..|b| - 1];
      ControlsOfBoth(a, b[..|b| - 1]);
    }
  }

  lemma {:induction false} FlattenOfBoth(a: seq<Token>, b: seq<Token>)
    ensures Flatten(a + b) == Flatten(a) + Flatten(b)
  {
    if b == [] {
      assert a + b == a;
    } else {
      assert (a + b)[..|a + b| - 1] == a + b[..|b| - 1];
      FlattenOfBoth(a, b[..|b| - 1]);
    }
  }

  lemma FlattenFirst(t: Token, ts: seq<Token>)
    ensures Flatten([t] + ts) == BytesOf(t) + Flatten(ts)
  {
    FlattenOfBoth([t], ts);
    assert [t][..0] == [];
    assert Flatten([t]) == [] + BytesOf(t);
  }

  /** The first token of a row, and the row after it. */
  lemma RowStarts(s: Bytes) returns (t: Token, n: nat)
    requires AsciiRow(s) && s != []
    ensures 0 < n <= |s| && WellFormed(t) && BytesOf(t) == s[..n]
    ensures AsciiRow(s[n..]) && Tokens(s).value == [t] + Tokens(s[n..]).value
  {
    if s[0] == ESC {
      n := CsiLength(s).value;
      t := Control(s[..n]);
      CsiExact(s, n);
    } else {
      t, n := Cell(s[0]), 1;
    }
  }

  lemma {:induction false} TokensAreTheRow(s: Bytes)
    requires AsciiRow(s)
    ensures AllWellFormed(Tokens(s).value) && Flatten(Tokens(s).value) == s
    decreases |s|
  {
    if s != [] {
      var t, n := RowStarts(s);
      TokensAreTheRow(s[n..]);
      FlattenFirst(t, Tokens(s[n..]).value);
      assert s == s[..n] + s[n..];
    }
  }

  /** A token in front of a row is the row's first. */
  lemma FirstOfRow(t: Token, rest: Bytes)
    requires WellFormed(t) && AsciiRow(rest)
    ensures Tokens(BytesOf(t) + rest) == Some([t] + Tokens(rest).value)
  {
    var first := BytesOf(t);
    var s := first + rest;
    assert s[..|first|] == first && s[|first|..] == rest && s[0] == first[0];
    if t.Control? {
      CsiExact(s, |first|);
    }
  }

  lemma {:induction false} RowHasTokens(ts: seq<Token>)
    requires AllWellFormed(ts)
    ensures Tokens(Flatten(ts)) == Some(ts)
  {
    if ts != [] {
      assert WellFormed(ts[0]) && ts == [ts[0]] + ts[1..];
      RowHasTokens(ts[1..]);
      FlattenFirst(ts[0], ts[1..]);
      FirstOfRow(ts[0], Flatten(ts[1..]));
    }
  }

  /** A row is accepted exactly when it is a sequence of printable characters and control sequences, and it is
      read as that sequence. */
  lemma TokensExact(s: Bytes, ts: seq<Token>)
    ensures Tokens(s) == Some(ts) <==> AllWellFormed(ts) && Flatten(ts) == s
  {
    if Tokens(s) == Some(ts) {
      TokensAreTheRow(s);
    }
    if AllWellFormed(ts) {
      RowHasTokens(ts);
    }
  }

  // ---- what cutting a row leaves -------------------------------------------------------------------

  /** The token the cut falls on: the first character past `length` of them. */
  function CutPoint(ts: seq<Token>, length: nat): (p: nat)
    ensures p <= |ts|
  {
    if ts == [] then 0
    else
      var n := |ts| - 1;
      var p := CutPoint(ts[..n], length);
      if p < n || (ts[n].Cell? && |Visible(ts[..n])| >= length) then p else n + 1
  }

  function ControlTokens(ts: seq<Token>): seq<Token> {
    if ts == [] then []
    else
      var before, last := ControlTokens(ts[..|ts| - 1]), ts[|ts| - 1];
      if last.Control? then before + [last] else before
  }

  lemma {:induction false} ControlsOnly(ts: seq<Token>)
    ensures Visible(ControlTokens(ts)) == [] && Controls(ControlTokens(ts)) == Controls(ts)
    ensures AllWellFormed(ts) ==> AllWellFormed(ControlTokens(ts))
  {
    if ts != [] {
      ControlsOnly(ts[..|ts| - 1]);
      assert AllWellFormed(ts) ==> WellFormed(ts[|ts| - 1]);
    }
  }

  /** The tokens of a cut row: those before the cut, the tail's, and the control sequences after. */
  function CutTokens(ts: seq<Token>, length: nat, tail: seq<Token>): seq<Token> {
    var p := CutPoint(ts, length);
    ts[..p] + tail + ControlTokens(ts[p..])
  }

  /** The cut comes right after `length` characters, if there are more; and no further on there is none. */
  lemma {:induction false} WhereTheCutIs(ts: seq<Token>, length: nat)
    ensures var p := CutPoint(ts, length);
            if length < |Visible(ts)| then p < |ts| && ts[p].Cell? && Visible(ts[..p]) == Visible(ts)[..length]
            else p == |ts|
  {
    if ts != [] {
      var n := |ts| - 1;
      var init := ts[..n];
      WhereTheCutIs(init, length);
      var p := CutPoint(init, length);
      assert p < n ==> init[..p] == ts[..p] && init[p] == ts[p];
    }
  }

  /** Up to the cut everything is written as it is; from there on the tail and the control sequences. */
  lemma {:induction false} CutWrites(ts: seq<Token>, length: nat, tail: seq<Token>)
    ensures var c := CutAll(ts, length, Flatten(tail));
            if |Visible(ts)| <= length then c == Cutting(Flatten(ts), |Visible(ts)|, false)
            else c == Cutting(Flatten(CutTokens(ts, length, tail)), length, true)
  {
    if ts != [] {
      var n := |ts| - 1;
      var init, last := ts[..n], ts[n];
      CutWrites(init, length, tail);
      WhereTheCutIs(init, length);
      WhereTheCutIs(ts, length);
      if length < |Visible(init)| {
        CutGrows(ts, length, tail);
      } else if length < |Visible(ts)| {
        assert ts[n..] == [last] && ControlTokens(ts[n..]) == [];
        assert init + tail + [] == init + tail;
        FlattenOfBoth(init, tail);
      }
    }
  }

  /** After the cut one more token adds itself if it is a control sequence, and nothing if it is not. */
  lemma CutGrows(ts: seq<Token>, length: nat, tail: seq<Token>)
    requires ts != [] && CutPoint(ts[..|ts| - 1], length) < |ts| - 1
    ensures var before, last := CutTokens(ts[..|ts| - 1], length, tail), ts[|ts| - 1];
            CutTokens(ts, length, tail) == if last.Control? then before + [last] else before
    ensures var before, last := CutTokens(ts[..|ts| - 1], length, tail), ts[|ts| - 1];
            Flatten(CutTokens(ts, length, tail)) == Flatten(before) + if last.Control? then last.text else []
  {
    var n := |ts| - 1;
    var p := CutPoint(ts[..n], length);
    var before := CutTokens(ts[..n], length, tail);
    assert CutPoint(ts, length) == p;
    assert ts[p..][..n - p] == ts[..n][p..] && ts[..n][..p] == ts[..p];
    assert (before + [ts[n]])[..|before|] == before;
    assert Flatten(before) + [] == Flatten(before);
  }

  lemma ShowsOfThree(a: seq<Token>, b: seq<Token>, c: seq<Token>)
    ensures Visible(a + b + c) == Visible(a) + Visible(b) + Visible(c)
    ensures Controls(a + b + c) == Controls(a) + Controls(b) + Controls(c)
  {
    VisibleOfBoth(a + b, c);
    VisibleOfBoth(a, b);
    ControlsOfBoth(a + b, c);
    ControlsOfBoth(a, b);
  }

  /** What the cut row's tokens show and keep. */
  lemma CutShows(ts: seq<Token>, room: nat, tail: seq<Token>)
    requires room < |Visible(ts)|
    ensures var cut, p := CutTokens(ts, room, tail), CutPoint(ts, room);
            && Visible(cut) == Visible(ts)[..room] + Visible(tail)
            && Controls(cut) == Controls(ts[..p]) + Controls(tail) + Controls(ts[p..])
            && Controls(ts) == Controls(ts[..p]) + Controls(ts[p..])
  {
    var p := CutPoint(ts, room);
    WhereTheCutIs(ts, room);
    ControlsOnly(ts[p..]);
    assert ts[..p] + ts[p..] == ts;
    ControlsOfBoth(ts[..p], ts[p..]);
    ShowsOfThree(ts[..p], tail, ControlTokens(ts[p..]));
  }

  lemma CutHasTokens(s: Bytes, room: nat, tail: Bytes)
    requires AsciiRow(s) && AsciiRow(tail) && room < |Visible(Tokens(s).value)|
    ensures Tokens(CutAll(Tokens(s).value, room, tail).out) == Some(CutTokens(Tokens(s).value, room, Tokens(tail).value))
  {
    var ts, tailTokens := Tokens(s).value, Tokens(tail).value;
    TokensAreTheRow(s);
    TokensAreTheRow(tail);
    CutWrites(ts, room, tailTokens);
    ControlsOnly(ts[CutPoint(ts, room)..]);
    RowHasTokens(CutTokens(ts, room, tailTokens));
  }

  /** A row no wider than asked is left as it is. */
  lemma FittingRow(s: Bytes, length: int, tail: Bytes)
    requires AsciiRow(s) && AsciiRow(tail) && |Visible(Tokens(s).value)| <= length
    ensures Truncated(s, length, tail) == s
  {
  }

  /** Cutting an over-wide row whose tail fits: a row of exactly the requested width, showing the leading
      characters and then the tail, that keeps every control sequence of the row in order, the tail's own
      among them where the cut is. Of a tail that does not fit nothing is shown. */
  lemma TruncatedRow(s: Bytes, length: int, tail: Bytes)
    requires AsciiRow(s) && AsciiRow(tail) && |Visible(Tokens(s).value)| > length
    ensures var ts, tailTokens := Tokens(s).value, Tokens(tail).value;
            var room := length - |Visible(tailTokens)|;
            var out := Truncated(s, length, tail);
            if room < 0 then out == []
            else
              && AsciiRow(out)
              && |Visible(Tokens(out).value)| == length
              && Visible(Tokens(out).value) == Visible(ts)[..room] + Visible(tailTokens)
              && var p := CutPoint(ts, room);
                 Controls(ts) == Controls(ts[..p]) + Controls(ts[p..])
                 && Controls(Tokens(out).value) == Controls(ts[..p]) + Controls(tailTokens) + Controls(ts[p..])
  {
    var ts, tailTokens := Tokens(s).value, Tokens(tail).value;
    var room := length - |Visible(tailTokens)|;
    if room >= 0 {
      CutHasTokens(s, room, tail);
      CutShows(ts, room, tailTokens);
    }
  }
}
