/** Append-only JSONL files as byte sequences: the complete lines of a file, the unterminated record
    behind them, and how both change when the file grows. Every transcript follower in this project is
    stated over these. */
module Lines {
  newtype Byte = x: int | 0 <= x < 256
  type Bytes = seq<Byte>

  const NEWLINE: Byte := 10

  /** The unterminated record at the end of `f`, empty when `f` ends at a newline. */
  function Rest(f: Bytes): (r: Bytes)
    ensures |r| <= |f|
  {
    if f == [] then []
    else if f[|f| - 1] == NEWLINE then []
    else Rest(f[..|f| - 1]) + [f[|f| - 1]]
  }

  /** The newline-terminated records of `f`, each without its newline. */
  function Records(f: Bytes): seq<Bytes> {
    if f == [] then []
    else if f[|f| - 1] == NEWLINE then Records(f[..|f| - 1]) + [Rest(f[..|f| - 1])]
    else Records(f[..|f| - 1])
  }

  /** The same records as `bufio.Reader.ReadBytes` hands them out, newline included. */
  function CompleteLines(f: Bytes): seq<Bytes> {
    if f == [] then []
    else if f[|f| - 1] == NEWLINE then CompleteLines(f[..|f| - 1]) + [Rest(f[..|f| - 1]) + [NEWLINE]]
    else CompleteLines(f[..|f| - 1])
  }

  /** The offset just after the last newline; 0 when there is none. */
  function CompleteEnd(f: Bytes): (e: nat) {
    |f| - |Rest(f)|
  }

  /** `bytes.Split(f, "\n")`: see SplitMeaning for what this is. */
  function Split(f: Bytes): seq<Bytes> {
    Records(f) + [Rest(f)]
  }

  predicate Unbroken(f: Bytes) {
    forall j :: 0 <= j < |f| ==> f[j] != NEWLINE
  }

  /** A record can start at `i`: the start of the file, or just after a newline. */
  predicate Boundary(f: Bytes, i: int) {
    i == 0 || (0 < i <= |f| && f[i - 1] == NEWLINE)
  }

  lemma {:induction false} RestIsSuffix(f: Bytes)
    ensures Rest(f) == f[CompleteEnd(f)..] && Unbroken(Rest(f))
    ensures Boundary(f, CompleteEnd(f))
  {
    var n := |f| - 1;
    if f != [] && f[n] != NEWLINE {
      var g := f[..n];
      RestIsSuffix(g);
      var e := CompleteEnd(g);
      assert e == CompleteEnd(f);
      assert f[e..] == g[e..] + [f[n]];
    }
  }

  lemma {:induction false} UnbrokenHasNoRecord(f: Bytes)
    requires Unbroken(f)
    ensures Records(f) == [] && CompleteLines(f) == [] && Rest(f) == f
  {
    if f != [] {
      UnbrokenHasNoRecord(f[..|f| - 1]);
    }
  }

  /** What is left unterminated after growing a file. */
  lemma {:induction false} AppendRest(a: Bytes, b: Bytes)
    ensures Rest(a + b) == Rest(Rest(a) + b)
    ensures CompleteEnd(a + b) == CompleteEnd(a) + CompleteEnd(Rest(a) + b)
  {
    if b == [] {
      assert a + b == a && Rest(a) + b == Rest(a);
      RestIsSuffix(a);
      UnbrokenHasNoRecord(Rest(a));
    } else {
      AppendRest(a, b[..|b| - 1]);
      assert (a + b)[..|a + b| - 1] == a + b[..|b| - 1];
      assert (Rest(a) + b)[..|Rest(a) + b| - 1] == Rest(a) + b[..|b| - 1];
    }
  }

  /** Growing a file adds exactly the records its unterminated record and the new bytes make. */
  lemma {:induction false} AppendRecords(a: Bytes, b: Bytes)
    ensures Records(a + b) == Records(a) + Records(Rest(a) + b)
  {
    if b == [] {
      assert a + b == a && Rest(a) + b == Rest(a);
      RestIsSuffix(a);
      UnbrokenHasNoRecord(Rest(a));
    } else {
      AppendRecords(a, b[..|b| - 1]);
      AppendRest(a, b[..|b| - 1]);
      assert (a + b)[..|a + b| - 1] == a + b[..|b| - 1];
      assert (Rest(a) + b)[..|Rest(a) + b| - 1] == Rest(a) + b[..|b| - 1];
    }
  }

  /** The same, newlines included. */
  lemma {:induction false} AppendLines(a: Bytes, b: Bytes)
    ensures CompleteLines(a + b) == CompleteLines(a) + CompleteLines(Rest(a) + b)
  {
    if b == [] {
      assert a + b == a && Rest(a) + b == Rest(a);
      RestIsSuffix(a);
      UnbrokenHasNoRecord(Rest(a));
    } else {
      AppendLines(a, b[..|b| - 1]);
      AppendRest(a, b[..|b| - 1]);
      assert (a + b)[..|a + b| - 1] == a + b[..|b| - 1];
      assert (Rest(a) + b)[..|Rest(a) + b| - 1] == Rest(a) + b[..|b| - 1];
    }
  }

  /** What a grown file holds beyond the complete part of the old one. */
  lemma GrownBy(f: Bytes, g: Bytes)
    requires f <= g
    ensures CompleteEnd(f) <= |g|
    ensures CompleteLines(g) == CompleteLines(f) + CompleteLines(g[CompleteEnd(f)..])
    ensures CompleteEnd(g) == CompleteEnd(f) + CompleteEnd(g[CompleteEnd(f)..])
  {
    var x := g[|f|..];
    assert g == f + x;
    RestIsSuffix(f);
    assert g[CompleteEnd(f)..] == Rest(f) + x;
    AppendLines(f, x);
    AppendRest(f, x);
  }

  /** Cutting at a boundary splits the lines. */
  lemma CutAtBoundary(f: Bytes, i: nat)
    requires i <= |f| && Boundary(f, i)
    ensures CompleteLines(f) == CompleteLines(f[..i]) + CompleteLines(f[i..])
    ensures Records(f) == Records(f[..i]) + Records(f[i..])
    ensures CompleteEnd(f) == i + CompleteEnd(f[i..])
    ensures Rest(f) == Rest(f[i..]) && Rest(f[..i]) == []
  {
    assert f == f[..i] + f[i..];
    assert [] + f[i..] == f[i..];
    assert Rest(f[..i]) == [];
    AppendRest(f[..i], f[i..]);
    AppendRecords(f[..i], f[i..]);
    AppendLines(f[..i], f[i..]);
  }

  /** The part up to the last newline holds every complete line. */
  lemma WholePart(f: Bytes)
    ensures CompleteLines(f[..CompleteEnd(f)]) == CompleteLines(f)
    ensures Records(f[..CompleteEnd(f)]) == Records(f)
    ensures Rest(f[..CompleteEnd(f)]) == []
  {
    RestIsSuffix(f);
    CutAtBoundary(f, CompleteEnd(f));
    UnbrokenHasNoRecord(Rest(f));
  }

  /** An unbroken piece in front only lengthens the first record. */
  lemma {:induction false} PrefixedRecords(r: Bytes, g: Bytes)
    requires Unbroken(r)
    ensures Records(g) == [] ==> Records(r + g) == [] && Rest(r + g) == r + Rest(g)
    ensures Records(g) != [] ==> Records(r + g) == [r + Records(g)[0]] + Records(g)[1..] && Rest(r + g) == Rest(g)
  {
    if g == [] {
      assert r + g == r;
      UnbrokenHasNoRecord(r);
    } else {
      var init := g[..|g| - 1];
      PrefixedRecords(r, init);
      assert (r + g)[..|r + g| - 1] == r + init;
    }
  }

  /** Reading from anywhere in a file, all records but the first are records of the file, at its end. */
  lemma RecordsFrom(f: Bytes, s: nat) returns (j: nat)
    requires s <= |f| && Records(f[s..]) != []
    ensures 0 < j <= |Records(f)| && Records(f)[j..] == Records(f[s..])[1..]
    ensures Rest(f) == Rest(f[s..]) && CompleteEnd(f) == s + CompleteEnd(f[s..])
  {
    var a, g := f[..s], f[s..];
    assert f == a + g;
    RestIsSuffix(a);
    AppendRecords(a, g);
    AppendRest(a, g);
    PrefixedRecords(Rest(a), g);
    j := |Records(a)| + 1;
  }

  /** The first newline ends the first record. */
  lemma FirstRecord(record: Bytes, tail: Bytes)
    requires Unbroken(record)
    ensures Records(record + [NEWLINE] + tail) == [record] + Records(tail)
    ensures CompleteLines(record + [NEWLINE] + tail) == [record + [NEWLINE]] + CompleteLines(tail)
    ensures CompleteEnd(record + [NEWLINE] + tail) == |record| + 1 + CompleteEnd(tail)
  {
    var line := record + [NEWLINE];
    UnbrokenHasNoRecord(record);
    assert line[..|line| - 1] == record;
    assert [] + tail == tail;
    AppendRest(line, tail);
    AppendRecords(line, tail);
    AppendLines(line, tail);
  }

  lemma {:induction false} RecordsOrRest(f: Bytes)
    ensures Records(f) == [] <==> CompleteEnd(f) == 0
  {
    if f != [] && f[|f| - 1] != NEWLINE {
      RecordsOrRest(f[..|f| - 1]);
    }
  }

  function Join(parts: seq<Bytes>): Bytes
    requires |parts| > 0
  {
    if |parts| == 1 then parts[0] else Join(parts[..|parts| - 1]) + [NEWLINE] + parts[|parts| - 1]
  }

  /** The two facts that determine a split: no part holds a newline, and joining them gives `f` back. */
  lemma {:induction false} SplitMeaning(f: Bytes)
    ensures Join(Split(f)) == f
    ensures forall part :: part in Split(f) ==> Unbroken(part)
  {
    RestIsSuffix(f);
    if f != [] {
      var g, z := f[..|f| - 1], f[|f| - 1];
      SplitMeaning(g);
      var n := |Records(g)|;
      assert Split(g)[..n] == Records(g) && Split(g)[n] == Rest(g);
      assert f == g + [z];
      if z == NEWLINE {
        assert Split(f)[..n + 1] == Split(g);
      } else {
        assert Split(f)[..n] == Records(g);
      }
    }
  }

  /** `bufio.Reader.ReadBytes('\n')` from `pos`: the next record with its newline, or, at the end of the
      file, whatever is there. */
  method ReadBytes(f: Bytes, pos: nat) returns (line: Bytes, eof: bool)
    requires pos <= |f|
    ensures pos + |line| <= |f| && line == f[pos..pos + |line|]
    ensures eof <==> Unbroken(f[pos..])
    ensures eof ==> line == f[pos..] && CompleteLines(f[pos..]) == []
    ensures !eof ==> |line| > 0 && line[|line| - 1] == NEWLINE
    ensures !eof ==> CompleteLines(f[pos..]) == [line] + CompleteLines(f[pos + |line|..])
    ensures CompleteEnd(f[pos..]) == if eof then 0 else |line| + CompleteEnd(f[pos + |line|..])
  {
    var k := pos;
    while k < |f| && f[k] != NEWLINE
      invariant pos <= k <= |f| && forall j :: pos <= j < k ==> f[j] != NEWLINE
    {
      k := k + 1;
    }
    eof := k == |f|;
    line := f[pos..if eof then k else k + 1];
    if eof {
      UnbrokenHasNoRecord(line);
    } else {
      LineAt(f, pos, k);
    }
  }

  /** The first newline after `pos` ends the first line there. */
  lemma LineAt(f: Bytes, pos: nat, k: nat)
    requires pos <= k < |f| && f[k] == NEWLINE && forall j :: pos <= j < k ==> f[j] != NEWLINE
    ensures var line := f[pos..k + 1];
            && line[|line| - 1] == NEWLINE && !Unbroken(f[pos..])
            && CompleteLines(f[pos..]) == [line] + CompleteLines(f[k + 1..])
            && CompleteEnd(f[pos..]) == |line| + CompleteEnd(f[k + 1..])
  {
    FirstRecord(f[pos..k], f[k + 1..]);
    assert f[pos..k + 1] == f[pos..k] + [NEWLINE];
    assert f[pos..] == f[pos..k + 1] + f[k + 1..];
    assert f[pos..][k - pos] == NEWLINE;
  }
}
