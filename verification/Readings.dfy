/** Text joined from a pane's rows: a mark stands where a full row may have been broken inside a word, and is
    read as a space or as nothing. */
module Readings {
  const JOIN: char := '\U{200b}'
  const MAX_JOINS: nat := 10

  predicate Plain(s: string) {
    forall i :: 0 <= i < |s| ==> s[i] != JOIN
  }

  /** `t` is one way to read `m`. */
  predicate Reads(m: string, t: string) {
    if m == [] then t == []
    else
      var init, last := m[..|m| - 1], m[|m| - 1];
      if last == JOIN then Reads(init, t) || (t != [] && t[|t| - 1] == ' ' && Reads(init, t[..|t| - 1]))
      else t != [] && t[|t| - 1] == last && Reads(init, t[..|t| - 1])
  }

  function Joins(m: string): nat {
    if m == [] then 0 else Joins(m[..|m| - 1]) + if m[|m| - 1] == JOIN then 1 else 0
  }

  /** `strings.Split(m, wrapJoin)`. */
  function Parts(m: string): (parts: seq<string>)
    ensures |parts| == Joins(m) + 1
  {
    if m == [] then [[]]
    else
      var before, last := Parts(m[..|m| - 1]), m[|m| - 1];
      if last == JOIN then before + [[]] else before[|before| - 1 := before[|before| - 1] + [last]]
  }

  /** `strings.Join(parts, sep)`. */
  function Glue(parts: seq<string>, sep: string): string
    requires parts != []
  {
    if |parts| == 1 then parts[0] else Glue(parts[..|parts| - 1], sep) + sep + parts[|parts| - 1]
  }

  /** Each head followed by the part, without and with a space between. */
  function Grown(heads: seq<string>, part: string): seq<string> {
    if heads == [] then []
    else
      var head := heads[|heads| - 1];
      Grown(heads[..|heads| - 1], part) + [head + part, head + " " + part]
  }

  function Expand(parts: seq<string>): seq<string>
    requires parts != []
  {
    if |parts| == 1 then [parts[0]] else Grown(Expand(parts[..|parts| - 1]), parts[|parts| - 1])
  }

  function AllReadings(m: string): seq<string> {
    if Joins(m) > MAX_JOINS then [Glue(Parts(m), ""), Glue(Parts(m), " ")] else Expand(Parts(m))
  }

  method ReadingsOf(m: string) returns (out: seq<string>)
    ensures out == AllReadings(m)
  {
    var parts := Parts(m);
    if |parts| - 1 > MAX_JOINS {
      return [Glue(parts, ""), Glue(parts, " ")];
    }
    out := [parts[0]];
    assert parts[..1] == [parts[0]];
    for i := 1 to |parts|
      invariant out == Expand(parts[..i])
    {
      var next: seq<string> := [];
      for k := 0 to |out|
        invariant next == Grown(out[..k], parts[i])
      {
        assert out[..k + 1][..k] == out[..k];
        next := next + [out[k] + parts[i], out[k] + " " + parts[i]];
      }
      assert out[..|out|] == out;
      assert parts[..i + 1][..i] == parts[..i];
      out := next;
    }
    assert parts[..|parts|] == parts;
  }

  /** `anyReading`: some reading of `a` and some reading of `b`, both normalised, are the same, as `same` has it. */
  method AnyReading(a: string, b: string, normalise: string -> string, same: (string, string) -> bool) returns (found: bool)
    ensures found <==>
      exists x, y :: x in AllReadings(normalise(a)) && y in AllReadings(normalise(b)) && same(x, y)
  {
    var xs := ReadingsOf(normalise(a));
    for i := 0 to |xs|
      invariant forall x, y :: x in xs[..i] && y in AllReadings(normalise(b)) ==> !same(x, y)
    {
      var ys := ReadingsOf(normalise(b));
      for k := 0 to |ys|
        invariant forall y :: y in ys[..k] ==> !same(xs[i], y)
      {
        if same(xs[i], ys[k]) {
          assert xs[i] in AllReadings(normalise(a)) && ys[k] in AllReadings(normalise(b));
          return true;
        }
        assert ys[..k + 1] == ys[..k] + [ys[k]];
      }
      assert ys[..|ys|] == ys;
      assert xs[..i + 1] == xs[..i] + [xs[i]];
    }
    assert xs[..|xs|] == xs;
    found := false;
  }

  // ---- what the readings are -----------------------------------------------------------------------

  lemma {:induction false} GrownMeaning(heads: seq<string>, part: string, t: string)
    ensures t in Grown(heads, part) <==> exists h :: h in heads && (t == h + part || t == h + " " + part)
  {
    if heads != [] {
      var init, head := heads[..|heads| - 1], heads[|heads| - 1];
      GrownMeaning(init, part, t);
      assert heads == init + [head];
    }
  }

  /** One more character in the last part is one more at the end of every reading. */
  lemma LongerPart(before: seq<string>, part: string, c: char, t: string)
    ensures t in Expand(before + [part + [c]]) <==> t != [] && t[|t| - 1] == c && t[..|t| - 1] in Expand(before + [part])
  {
    var longer := part + [c];
    assert (before + [longer])[..|before|] == before && (before + [part])[..|before|] == before;
    if before == [] {
      assert t == longer <==> t != [] && t[|t| - 1] == c && t[..|t| - 1] == part;
    } else {
      var heads := Expand(before);
      GrownMeaning(heads, longer, t);
      if t != [] {
        GrownMeaning(heads, part, t[..|t| - 1]);
      }
      forall h ensures t == h + longer <==> t != [] && t[|t| - 1] == c && t[..|t| - 1] == h + part {
        assert h + longer == (h + part) + [c];
      }
      forall h ensures t == h + " " + longer <==> t != [] && t[|t| - 1] == c && t[..|t| - 1] == h + " " + part {
        assert h + " " + longer == (h + " " + part) + [c];
      }
    }
  }

  lemma EmptyPart(parts: seq<string>, t: string)
    requires parts != []
    ensures t in Expand(parts + [[]]) <==> t in Expand(parts) || (t != [] && t[|t| - 1] == ' ' && t[..|t| - 1] in Expand(parts))
  {
    assert (parts + [[]])[..|parts|] == parts;
    GrownMeaning(Expand(parts), [], t);
    forall h ensures t == h + " " + [] <==> t != [] && t[|t| - 1] == ' ' && t[..|t| - 1] == h {
      assert h + " " + [] == h + [' '];
    }
    forall h: string ensures h + [] == h {
    }
  }

  /** A character that is no mark lengthens the last part. */
  lemma LastPart(m: string) returns (before: seq<string>, part: string)
    requires m != [] && m[|m| - 1] != JOIN
    ensures Parts(m[..|m| - 1]) == before + [part] && Parts(m) == before + [part + [m[|m| - 1]]]
  {
    var parts := Parts(m[..|m| - 1]);
    before, part := parts[..|parts| - 1], parts[|parts| - 1];
  }

  /** Up to ten marks, the readings are exactly the texts one gets by reading each mark either way. */
  lemma {:induction false} ExpandMeansReads(m: string, t: string)
    ensures t in Expand(Parts(m)) <==> Reads(m, t)
  {
    if m != [] {
      var init, last := m[..|m| - 1], m[|m| - 1];
      var parts := Parts(init);
      ExpandMeansReads(init, t);
      if t != [] {
        ExpandMeansReads(init, t[..|t| - 1]);
      }
      if last == JOIN {
        EmptyPart(parts, t);
      } else {
        var before, part := LastPart(m);
        LongerPart(before, part, last, t);
      }
    }
  }

  /** Every mark read the same way: as `sep`. */
  function ReadAlike(m: string, sep: string): string {
    if m == [] then []
    else ReadAlike(m[..|m| - 1], sep) + if m[|m| - 1] == JOIN then sep else [m[|m| - 1]]
  }

  lemma GlueLonger(before: seq<string>, part: string, c: char, sep: string)
    ensures Glue(before + [part + [c]], sep) == Glue(before + [part], sep) + [c]
  {
    assert (before + [part + [c]])[..|before|] == before && (before + [part])[..|before|] == before;
    if before != [] {
      assert Glue(before, sep) + sep + (part + [c]) == (Glue(before, sep) + sep + part) + [c];
    }
  }

  lemma {:induction false} GlueReadsAlike(m: string, sep: string)
    ensures Glue(Parts(m), sep) == ReadAlike(m, sep)
  {
    if m != [] {
      var parts := Parts(m[..|m| - 1]);
      GlueReadsAlike(m[..|m| - 1], sep);
      if m[|m| - 1] == JOIN {
        assert (parts + [[]])[..|parts|] == parts;
        assert Glue(parts, sep) + sep + [] == Glue(parts, sep) + sep;
      } else {
        var before, part := LastPart(m);
        GlueLonger(before, part, m[|m| - 1], sep);
      }
    }
  }

  lemma {:induction false} AlikeIsAReading(m: string, sep: string)
    requires sep == "" || sep == " "
    ensures Reads(m, ReadAlike(m, sep))
  {
    if m != [] {
      var before := ReadAlike(m[..|m| - 1], sep);
      AlikeIsAReading(m[..|m| - 1], sep);
      assert before + [] == before;
    }
  }

  /** Which texts are among the readings: with ten marks or fewer, every way of reading each; with more, only
      the two that read them all alike. */
  lemma ReadingsMeaning(m: string, t: string)
    ensures t in AllReadings(m) <==>
            if Joins(m) <= MAX_JOINS then Reads(m, t) else t == ReadAlike(m, "") || t == ReadAlike(m, " ")
    ensures t in AllReadings(m) ==> Reads(m, t)
  {
    if Joins(m) <= MAX_JOINS {
      ExpandMeansReads(m, t);
    } else {
      GlueReadsAlike(m, "");
      GlueReadsAlike(m, " ");
      AlikeIsAReading(m, "");
      AlikeIsAReading(m, " ");
    }
  }

  // ---- reading longer texts ------------------------------------------------------------------------

  lemma {:induction false} ReadsMore(m: string, t: string, more: string)
    requires Reads(m, t) && Plain(more)
    ensures Reads(m + more, t + more)
  {
    if more == [] {
      assert m + more == m && t + more == t;
    } else {
      var init := more[..|more| - 1];
      ReadsMore(m, t, init);
      assert (m + more)[..|m + more| - 1] == m + init;
      assert (t + more)[..|t + more| - 1] == t + init;
    }
  }

  lemma ReadsMark(m: string, t: string)
    requires Reads(m, t)
    ensures Reads(m + [JOIN], t) && Reads(m + [JOIN], t + " ")
  {
    assert (m + [JOIN])[..|m|] == m;
    assert (t + " ")[..|t|] == t;
  }

  lemma PlainReadsItself(s: string)
    requires Plain(s)
    ensures Reads(s, s)
  {
    ReadsMore([], [], s);
    assert [] + s == s;
  }

  /** What the first character of marked text is read as. */
  lemma {:induction false} ReadsFront(m: string, t: string)
    requires m != [] && Reads(m, t)
    ensures m[0] != JOIN ==> t != [] && t[0] == m[0] && Reads(m[1..], t[1..])
    ensures m[0] == JOIN ==> Reads(m[1..], t) || (t != [] && t[0] == ' ' && Reads(m[1..], t[1..]))
  {
    if |m| > 1 {
      var init := m[..|m| - 1];
      assert init[1..] == m[1..][..|m| - 2];
      if m[|m| - 1] == JOIN && Reads(init, t) {
        ReadsFront(init, t);
      } else {
        var before := t[..|t| - 1];
        ReadsFront(init, before);
        assert before != [] ==> before[1..] == t[1..][..|t| - 2];
      }
    }
  }

  lemma {:induction false} ReadsSameCharacters(m: string, t: string, c: char)
    requires Reads(m, t) && c != JOIN && c != ' '
    ensures c in m <==> c in t
  {
    if m != [] {
      var init, last := m[..|m| - 1], m[|m| - 1];
      assert m == init + [last];
      if last == JOIN && Reads(init, t) {
        ReadsSameCharacters(init, t, c);
      } else {
        assert t == t[..|t| - 1] + [t[|t| - 1]];
        ReadsSameCharacters(init, t[..|t| - 1], c);
      }
    }
  }

  /** A character that stands once in a text stands once in any marked text read as it, and splits both. */
  lemma {:induction false} ReadsAround(m: string, x: string, c: char, y: string) returns (p: nat)
    requires c != JOIN && c != ' ' && Reads(m, x + [c] + y) && c !in x && c !in y
    ensures p < |m| && m[p] == c && c !in m[..p] && c !in m[p + 1..]
    ensures Reads(m[..p], x) && Reads(m[p + 1..], y)
  {
    var t := x + [c] + y;
    var n := |m| - 1;
    assert y != [] ==> t[|t| - 1] == y[|y| - 1] && y[|y| - 1] in y && t[..|t| - 1] == x + [c] + y[..|y| - 1];
    assert y == [] ==> t[|t| - 1] == c && t[..|t| - 1] == x;
    var init, last := m[..n], m[n];
    if last == c {
      p := n;
      ReadsSameCharacters(init, x, c);
    } else {
      if last == JOIN && Reads(init, t) {
        p := ReadsAround(init, x, c, y);
      } else {
        p := ReadsAround(init, x, c, y[..|y| - 1]);
      }
      assert m[p + 1..] == init[p + 1..] + [last] && m[..p] == init[..p];
      assert m[p + 1..][..|m| - p - 2] == init[p + 1..];
    }
  }
}
