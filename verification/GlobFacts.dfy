/** What a path glob means, and that the expression compiled for it accepts exactly that. */
module GlobFacts {
  import opened Text
  import opened Glob
  import opened GlobText

  // ---- the glob read on its own --------------------------------------------------------------------

  /** What may follow once the pattern is used up: nothing, a slash and more, or more. */
  datatype Ending = Exactly | Beneath | Anything

  predicate Ends(e: Ending, s: string) {
    match e
    case Exactly => s == ""
    case Beneath => s == "" || (s[0] == '/' && OneLine(s[1..]))
    case Anything => OneLine(s)
  }

  function EndingOf(p: string): Ending {
    if !Wild(p) then Beneath else if HasSuffix(p, "/") then Anything else Exactly
  }

  /** `s` is covered by `p` read left to right: a run of directories for two stars and a slash, a run of
      anything for two stars, a run within one name for a star, one character of a name for a question mark,
      and every other character for itself. */
  predicate Covers(p: string, s: string, e: Ending)
    decreases p
  {
    if p == "" then Ends(e, s)
    else if "**/" <= p then
      || Covers(p[3..], s, e)
      || exists k :: 0 <= k < |s| && s[k] == '/' && OneLine(s[..k]) && Covers(p[3..], s[k + 1..], e)
    else if "**" <= p then exists k :: 0 <= k <= |s| && OneLine(s[..k]) && Covers(p[2..], s[k..], e)
    else if p[0] == '*' then exists k :: 0 <= k <= |s| && OneName(s[..k]) && Covers(p[1..], s[k..], e)
    else if p[0] == '?' then s != "" && s[0] != '/' && Covers(p[1..], s[1..], e)
    else s != "" && s[0] == p[0] && Covers(p[1..], s[1..], e)
  }

  predicate GlobAccepts(pattern: string, path: string) {
    Covers(Trimmed(pattern), path, EndingOf(Trimmed(pattern)))
  }

  // ---- the compiler preserves it -------------------------------------------------------------------

  lemma CatSplit(p: Regex, q: Regex, s: string, k: nat)
    requires k <= |s| && Matches(p, s[..k]) && Matches(q, s[k..])
    ensures Matches(Cat(p, q), s)
  {
  }

  lemma SlashEnd(s: string)
    ensures Matches(Cat(Char('/'), Empty), s) <==> s == "/"
  {
    if s == "/" {
      assert s[..1] == ['/'] && s[1..] == "";
      CatSplit(Char('/'), Empty, s, 1);
    }
    if Matches(Cat(Char('/'), Empty), s) {
      var k :| 0 <= k <= |s| && Matches(Char('/'), s[..k]) && Matches(Empty, s[k..]);
      assert s == s[..k] + s[k..];
    }
  }

  /** `(?:.*` `/)?` takes nothing, or one line that ends with a slash. */
  lemma DirectoriesTake(s: string)
    ensures Matches(DIRECTORIES, s) <==> s == "" || (s[|s| - 1] == '/' && OneLine(s[..|s| - 1]))
  {
    var inner := Cat(Star(Any), Cat(Char('/'), Empty));
    if s != "" {
      var n := |s| - 1;
      StarAny(s[..n]);
      SlashEnd(s[n..]);
      if s[n] == '/' && OneLine(s[..n]) {
        assert s[n..] == "/";
        CatSplit(Star(Any), Cat(Char('/'), Empty), s, n);
      }
      if Matches(inner, s) {
        var k :| 0 <= k <= |s| && Matches(Star(Any), s[..k]) && Matches(Cat(Char('/'), Empty), s[k..]);
        SlashEnd(s[k..]);
        assert k == n;
      }
    }
  }

  lemma TailTakes(p: string, s: string)
    ensures Matches(TailRegex(p), s) <==> Ends(EndingOf(p), s)
  {
    if !Wild(p) {
      BeneathTakes(s);
      if Matches(BENEATH, s) {
        assert s[..|s|] == s && s[|s|..] == "";
        CatSplit(BENEATH, Empty, s, |s|);
      }
      if Matches(Cat(BENEATH, Empty), s) {
        var k :| 0 <= k <= |s| && Matches(BENEATH, s[..k]) && Matches(Empty, s[k..]);
        assert s[..k] == s;
      }
    } else if HasSuffix(p, "/") {
      AnyTakes(s);
    }
  }

  lemma AnyTakes(s: string)
    ensures Matches(Cat(Star(Any), Empty), s) <==> OneLine(s)
  {
    StarAny(s);
    if OneLine(s) {
      assert s[..|s|] == s && s[|s|..] == "";
      CatSplit(Star(Any), Empty, s, |s|);
    }
    if Matches(Cat(Star(Any), Empty), s) {
      var k :| 0 <= k <= |s| && Matches(Star(Any), s[..k]) && Matches(Empty, s[k..]);
      assert s[..k] == s;
    }
  }

  lemma BeneathTakes(s: string)
    ensures Matches(BENEATH, s) <==> s == "" || (s[0] == '/' && OneLine(s[1..]))
  {
    var inner := Cat(Char('/'), Cat(Star(Any), Empty));
    if s != "" {
      AnyTakes(s[1..]);
      if s[0] == '/' && OneLine(s[1..]) {
        assert s[..1] == ['/'];
        CatSplit(Char('/'), Cat(Star(Any), Empty), s, 1);
      }
      if Matches(inner, s) {
        var k :| 0 <= k <= |s| && Matches(Char('/'), s[..k]) && Matches(Cat(Star(Any), Empty), s[k..]);
        assert k == 1 && s[..1][0] == s[0];
      }
    }
  }

  /** The expression for the pattern from any position on accepts what the pattern covers from there on. */
  lemma {:induction false} BodyMeaning(p: string, tail: Regex, e: Ending, s: string)
    requires forall t :: Matches(tail, t) <==> Ends(e, t)
    ensures Matches(BodyRegex(p, tail), s) <==> Covers(p, s, e)
    decreases p
  {
    if p != "" {
      var piece := PieceAt(p);
      var rest := p[Length(piece)..];
      forall t ensures Matches(BodyRegex(rest, tail), t) <==> Covers(rest, t, e) {
        BodyMeaning(rest, tail, e, t);
      }
      match piece
      case Directories => DirectoriesMeaning(p, tail, e, s);
      case AnyRun => RunMeaning(p, tail, e, s);
      case NameRun => RunMeaning(p, tail, e, s);
      case NameChar => OneMeaning(p, tail, e, s);
      case Literal(c) => OneMeaning(p, tail, e, s);
    }
  }

  ghost predicate RestMeans(p: string, tail: Regex, e: Ending) {
    forall t :: Matches(BodyRegex(p, tail), t) <==> Covers(p, t, e)
  }

  lemma OneMeaning(p: string, tail: Regex, e: Ending, s: string)
    requires p != "" && (PieceAt(p).NameChar? || PieceAt(p).Literal?) && RestMeans(p[1..], tail, e)
    ensures Matches(BodyRegex(p, tail), s) <==> Covers(p, s, e)
  {
    var r, q := PieceRegex(PieceAt(p)), BodyRegex(p[1..], tail);
    if Covers(p, s, e) {
      assert s[..1] == [s[0]];
      CatSplit(r, q, s, 1);
    }
    if Matches(Cat(r, q), s) {
      var k :| 0 <= k <= |s| && Matches(r, s[..k]) && Matches(q, s[k..]);
      assert k == 1 && s[..1][0] == s[0];
    }
  }

  lemma RunMeaning(p: string, tail: Regex, e: Ending, s: string)
    requires p != "" && (PieceAt(p).AnyRun? || PieceAt(p).NameRun?) && RestMeans(p[Length(PieceAt(p))..], tail, e)
    ensures Matches(BodyRegex(p, tail), s) <==> Covers(p, s, e)
  {
    var piece := PieceAt(p);
    var r, q := PieceRegex(piece), BodyRegex(p[Length(piece)..], tail);
    if Covers(p, s, e) {
      var k :| 0 <= k <= |s| && Running(piece, s[..k]) && Covers(p[Length(piece)..], s[k..], e);
      RunTakes(piece, s[..k]);
      CatSplit(r, q, s, k);
    }
    if Matches(Cat(r, q), s) {
      var k :| 0 <= k <= |s| && Matches(r, s[..k]) && Matches(q, s[k..]);
      RunTakes(piece, s[..k]);
      assert Covers(p[Length(piece)..], s[k..], e);
    }
  }

  predicate Running(piece: Piece, run: string) {
    if piece.AnyRun? then OneLine(run) else OneName(run)
  }

  lemma RunTakes(piece: Piece, run: string)
    requires piece.AnyRun? || piece.NameRun?
    ensures Matches(PieceRegex(piece), run) <==> Running(piece, run)
  {
    StarAny(run);
    StarNotSlash(run);
  }

  predicate DirectoryRun(s: string) {
    s == "" || (s[|s| - 1] == '/' && OneLine(s[..|s| - 1]))
  }

  lemma DirectoriesAccepted(p: string, r: Regex, q: Regex, e: Ending, s: string)
    requires "**/" <= p && Covers(p, s, e)
    requires forall t :: DirectoryRun(t) ==> Matches(r, t)
    requires forall t :: Covers(p[3..], t, e) ==> Matches(q, t)
    ensures Matches(Cat(r, q), s)
  {
    if Covers(p[3..], s, e) {
      assert DirectoryRun(s[..0]) && s[0..] == s;
      CatSplit(r, q, s, 0);
    } else {
      var k :| 0 <= k < |s| && s[k] == '/' && OneLine(s[..k]) && Covers(p[3..], s[k + 1..], e);
      assert s[..k + 1][..k] == s[..k];
      assert DirectoryRun(s[..k + 1]);
      CatSplit(r, q, s, k + 1);
    }
  }

  lemma DirectoriesCovered(p: string, r: Regex, q: Regex, e: Ending, s: string)
    requires "**/" <= p && Matches(Cat(r, q), s)
    requires forall t :: Matches(r, t) ==> DirectoryRun(t)
    requires forall t :: Matches(q, t) ==> Covers(p[3..], t, e)
    ensures Covers(p, s, e)
  {
    var k :| 0 <= k <= |s| && Matches(r, s[..k]) && Matches(q, s[k..]);
    assert DirectoryRun(s[..k]);
    CoveredAfterRun(p, e, s, k);
  }

  lemma CoveredAfterRun(p: string, e: Ending, s: string, k: nat)
    requires "**/" <= p && k <= |s| && DirectoryRun(s[..k]) && Covers(p[3..], s[k..], e)
    ensures Covers(p, s, e)
  {
    if k == 0 {
      assert s[0..] == s;
    } else {
      var j := k - 1;
      assert s[..k][..j] == s[..j] && s[..k][j] == s[j];
      assert Covers(p[3..], s[j + 1..], e);
    }
  }

  lemma DirectoriesMeaning(p: string, tail: Regex, e: Ending, s: string)
    requires p != "" && PieceAt(p) == Directories && RestMeans(p[3..], tail, e)
    ensures Matches(BodyRegex(p, tail), s) <==> Covers(p, s, e)
  {
    var r, q := DIRECTORIES, BodyRegex(p[3..], tail);
    forall t ensures Matches(r, t) <==> DirectoryRun(t) {
      DirectoriesTake(t);
    }
    if Covers(p, s, e) {
      DirectoriesAccepted(p, r, q, e, s);
    }
    if Matches(Cat(r, q), s) {
      DirectoriesCovered(p, r, q, e, s);
    }
  }

  /** The compiler preserves meaning: for every pattern it does not refuse and every path, the expression its
      text stands for accepts the path exactly when the glob does. */
  lemma GlobPreserved(pattern: string, path: string)
    requires !Climbs(pattern)
    ensures var p := Trimmed(pattern);
            var r := ParseAnchored("^" + (Body(p) + TailText(p)) + "$");
            r.Some? && (Matches(r.value, path) <==> GlobAccepts(pattern, path))
  {
    var p := Trimmed(pattern);
    TextReadsBack(p);
    forall t ensures Matches(TailRegex(p), t) <==> Ends(EndingOf(p), t) {
      TailTakes(p, t);
    }
    BodyMeaning(p, TailRegex(p), EndingOf(p), path);
  }
}
