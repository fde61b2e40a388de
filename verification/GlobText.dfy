/** The written expression read back: a parser for the part of the regular-expression syntax the compiler
    uses, and the proof that its text stands for the expression it means, quoting included. */
module GlobText {
  import opened Text
  import opened Glob

  datatype Parsed = NoParse | Parsed(r: Regex, rest: string)

  predicate Quantifier(c: char) {
    c == '*' || c == '?' || c == '+' || c == '{'
  }

  /** What follows cannot change the item before it. */
  predicate Settled(t: string) {
    t == "" || !Quantifier(t[0])
  }

  /** The characters the syntax gives a meaning of their own. */
  predicate Special(c: char) {
    c in {'\\', '.', '+', '*', '?', '(', ')', '|', '[', ']', '{', '}', '^', '$'}
  }

  /** `.`, `[^/]`, an escaped or plain character, or a group. */
  function ParseAtom(t: string): (p: Parsed)
    requires t != ""
    ensures p.Parsed? ==> |p.rest| < |t|
    decreases |t|, 0
  {
    if t[0] == '.' then Parsed(Any, t[1..])
    else if t[0] == '[' then
      if |t| >= 4 && t[1] == '^' && t[2] == '/' && t[3] == ']' then Parsed(NotSlash, t[4..]) else NoParse
    else if t[0] == '\\' then
      if |t| >= 2 && Special(t[1]) then Parsed(Char(t[1]), t[2..]) else NoParse
    else if t[0] == '(' then
      if |t| >= 3 && t[1] == '?' && t[2] == ':' then
        var inner := ParseSeq(t[3..]);
        if inner.Parsed? && inner.rest != "" && inner.rest[0] == ')' then Parsed(inner.r, inner.rest[1..]) else NoParse
      else NoParse
    else if Special(t[0]) then NoParse
    else Parsed(Char(t[0]), t[1..])
  }

  /** An atom and at most one quantifier. */
  function ParseItem(t: string): (p: Parsed)
    requires t != ""
    ensures p.Parsed? ==> |p.rest| < |t|
    decreases |t|, 1
  {
    var atom := ParseAtom(t);
    if atom.NoParse? || Settled(atom.rest) then atom
    else if !Settled(atom.rest[1..]) then NoParse
    else if atom.rest[0] == '*' then Parsed(Star(atom.r), atom.rest[1..])
    else if atom.rest[0] == '?' then Parsed(Opt(atom.r), atom.rest[1..])
    else NoParse
  }

  /** Items up to the end or a closing parenthesis. */
  function ParseSeq(t: string): (p: Parsed)
    ensures p.Parsed? ==> |p.rest| <= |t|
    decreases |t|, 2
  {
    if t == "" || t[0] == ')' then Parsed(Empty, t)
    else
      var item := ParseItem(t);
      if item.NoParse? then NoParse
      else
        var more := ParseSeq(item.rest);
        if more.NoParse? then NoParse else Parsed(Cat(item.r, more.r), more.rest)
  }

  /** The expression a text anchored at both ends stands for. */
  function ParseAnchored(text: string): Option<Regex> {
    if |text| < 2 || text[0] != '^' || text[|text| - 1] != '$' then None
    else
      var p := ParseSeq(text[1..|text| - 1]);
      if p.Parsed? && p.rest == "" then Some(p.r) else None
  }

  lemma StarItem(t: string)
    requires Settled(t)
    ensures ParseItem(".*" + t) == Parsed(Star(Any), t)
  {
    assert (".*" + t)[1..] == "*" + t && ("*" + t)[1..] == t;
  }

  lemma QuotedAreSpecial(c: char)
    ensures Meta(c) <==> Special(c)
  {
  }

  lemma CharItem(c: char, t: string)
    requires Settled(t)
    ensures ParseItem(Quote(c) + t) == Parsed(Char(c), t)
  {
    var text := Quote(c) + t;
    QuotedAreSpecial(c);
    if Meta(c) {
      assert text[2..] == t;
    } else {
      assert text[1..] == t;
    }
  }

  lemma NotSlashItems(t: string)
    requires Settled(t)
    ensures ParseItem("[^/]" + t) == Parsed(NotSlash, t)
    ensures ParseItem("[^/]*" + t) == Parsed(Star(NotSlash), t)
  {
    assert ("[^/]" + t)[4..] == t;
    assert ("[^/]*" + t)[4..] == "*" + t && ("*" + t)[1..] == t;
  }

  lemma SlashItem(t: string)
    requires Settled(t)
    ensures ParseItem("/" + t) == Parsed(Char('/'), t)
  {
    assert ("/" + t)[1..] == t;
  }

  lemma OptionalItem(text: string, r: Regex, rest: string)
    requires text != "" && ParseAtom(text) == Parsed(r, rest)
    requires rest != "" && rest[0] == '?' && Settled(rest[1..])
    ensures ParseItem(text) == Parsed(Opt(r), rest[1..])
  {
  }

  /** `(?:` sequence `)?`. */
  lemma OptionalGroup(inner: string, r: Regex, t: string)
    requires ParseSeq(inner + (")?" + t)) == Parsed(r, ")?" + t) && Settled(t)
    ensures ParseItem("(?:" + inner + ")?" + t) == Parsed(Opt(r), t)
  {
    var text := "(?:" + inner + ")?" + t;
    var end := ")?" + t;
    assert text[3..] == inner + end && text[0] == '(' && text[1] == '?' && text[2] == ':';
    assert end[1..] == "?" + t;
    assert ParseAtom(text) == Parsed(r, "?" + t);
    OptionalItem(text, r, "?" + t);
    assert ("?" + t)[1..] == t;
  }

  lemma OneMoreItem(text: string, r: Regex, t: string, q: Regex, end: string)
    requires text != "" && text[0] != ')' && ParseItem(text) == Parsed(r, t) && ParseSeq(t) == Parsed(q, end)
    ensures ParseSeq(text) == Parsed(Cat(r, q), end)
  {
  }

  lemma DirectoriesInside(end: string)
    requires end != "" && end[0] == ')'
    ensures ParseSeq(".*/" + end) == Parsed(Cat(Star(Any), Cat(Char('/'), Empty)), end)
  {
    var slash := "/" + end;
    SlashItem(end);
    OneMoreItem(slash, Char('/'), end, Empty, end);
    StarItem(slash);
    assert ".*" + slash == ".*/" + end;
    OneMoreItem(".*/" + end, Star(Any), slash, Cat(Char('/'), Empty), end);
  }

  lemma DirectoriesItem(t: string)
    requires Settled(t)
    ensures ParseItem("(?:.*/)?" + t) == Parsed(DIRECTORIES, t)
  {
    DirectoriesInside(")?" + t);
    OptionalGroup(".*/", Cat(Star(Any), Cat(Char('/'), Empty)), t);
    assert "(?:" + ".*/" + ")?" + t == "(?:.*/)?" + t;
  }

  lemma BeneathInside(end: string)
    requires end != "" && end[0] == ')'
    ensures ParseSeq("/.*" + end) == Parsed(Cat(Char('/'), Cat(Star(Any), Empty)), end)
  {
    var star := ".*" + end;
    StarItem(end);
    OneMoreItem(star, Star(Any), end, Empty, end);
    SlashItem(star);
    assert "/" + star == "/.*" + end;
    OneMoreItem("/.*" + end, Char('/'), star, Cat(Star(Any), Empty), end);
  }

  lemma BeneathItem(t: string)
    requires Settled(t)
    ensures ParseItem("(?:/.*)?" + t) == Parsed(BENEATH, t)
  {
    BeneathInside(")?" + t);
    OptionalGroup("/.*", Cat(Char('/'), Cat(Star(Any), Empty)), t);
    assert "(?:" + "/.*" + ")?" + t == "(?:/.*)?" + t;
  }

  lemma PieceItem(piece: Piece, t: string)
    requires Settled(t)
    ensures ParseItem(PieceText(piece) + t) == Parsed(PieceRegex(piece), t)
  {
    match piece
    case Directories => DirectoriesItem(t);
    case AnyRun => StarItem(t);
    case NameRun => NotSlashItems(t);
    case NameChar => NotSlashItems(t);
    case Literal(c) => CharItem(c, t);
  }

  lemma TailSeq(p: string)
    ensures ParseSeq(TailText(p)) == Parsed(TailRegex(p), "") && Settled(TailText(p))
    ensures TailText(p) != "" ==> TailText(p)[0] != ')'
  {
    if !Wild(p) {
      BeneathItem("");
      assert "(?:/.*)?" + "" == "(?:/.*)?";
    } else if HasSuffix(p, "/") {
      StarItem("");
      assert ".*" + "" == ".*";
    }
  }

  lemma PieceStarts(piece: Piece)
    ensures PieceText(piece) != "" && !Quantifier(PieceText(piece)[0]) && PieceText(piece)[0] != ')'
  {
  }

  lemma {:induction false} BodySeq(p: string, tail: string, r: Regex)
    requires ParseSeq(tail) == Parsed(r, "") && Settled(tail) && (tail != "" ==> tail[0] != ')')
    ensures ParseSeq(Body(p) + tail) == Parsed(BodyRegex(p, r), "")
    ensures Settled(Body(p) + tail) && (Body(p) + tail != "" ==> (Body(p) + tail)[0] != ')')
  {
    if p == "" {
      assert Body(p) + tail == tail;
    } else {
      var piece := PieceAt(p);
      var more := Body(p[Length(piece)..]) + tail;
      BodySeq(p[Length(piece)..], tail, r);
      PieceItem(piece, more);
      PieceStarts(piece);
      assert Body(p) + tail == PieceText(piece) + more;
    }
  }

  /** The text the compiler writes reads back as the expression it means: every piece is one item, and no
      character of the pattern is taken for syntax. */
  lemma TextReadsBack(p: string)
    ensures ParseAnchored("^" + (Body(p) + TailText(p)) + "$") == Some(BodyRegex(p, TailRegex(p)))
  {
    TailSeq(p);
    BodySeq(p, TailText(p), TailRegex(p));
    var text := "^" + (Body(p) + TailText(p)) + "$";
    assert text[1..|text| - 1] == Body(p) + TailText(p);
  }
}
