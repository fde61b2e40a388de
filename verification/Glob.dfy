/** The compiler from path globs to regular expressions: what it writes, what the text means as a regular
    expression, and what the glob means on its own. A pattern is its bytes, each read as the character of that
    number, as the loop reads it; a path is its characters. */
module Glob {
  import opened Text

  // ---- regular expressions -------------------------------------------------------------------------

  datatype Regex =
    | Empty
    | Char(c: char)
    | Any            // any character but a newline
    | NotSlash       // any character but a slash
    | Star(r: Regex)
    | Opt(r: Regex)
    | Cat(first: Regex, second: Regex)

  /** The whole of `s` is in the language of `r`. */
  predicate Matches(r: Regex, s: string)
    decreases r, |s|
  {
    match r
    case Empty => s == ""
    case Char(c) => s == [c]
    case Any => |s| == 1 && s[0] != '\n'
    case NotSlash => |s| == 1 && s[0] != '/'
    case Star(q) => s == "" || exists k :: 0 < k <= |s| && Matches(q, s[..k]) && Matches(r, s[k..])
    case Opt(q) => s == "" || Matches(q, s)
    case Cat(p, q) => exists k :: 0 <= k <= |s| && Matches(p, s[..k]) && Matches(q, s[k..])
  }

  predicate OneLine(s: string) {
    forall k :: 0 <= k < |s| ==> s[k] != '\n'
  }

  predicate OneName(s: string) {
    forall k :: 0 <= k < |s| ==> s[k] != '/'
  }

  lemma {:induction false} StarAny(s: string)
    ensures Matches(Star(Any), s) <==> OneLine(s)
  {
    if s != "" {
      StarAny(s[1..]);
      assert s[..1] == [s[0]];
      assert forall j :: 1 <= j < |s| ==> s[j] == s[1..][j - 1];
      if OneLine(s) {
        assert Matches(Any, s[..1]) && Matches(Star(Any), s[1..]);
      }
    }
  }

  lemma {:induction false} StarNotSlash(s: string)
    ensures Matches(Star(NotSlash), s) <==> OneName(s)
  {
    if s != "" {
      StarNotSlash(s[1..]);
      assert s[..1] == [s[0]];
      assert forall j :: 1 <= j < |s| ==> s[j] == s[1..][j - 1];
      if OneName(s) {
        assert Matches(NotSlash, s[..1]) && Matches(Star(NotSlash), s[1..]);
      }
    }
  }

  // ---- what the compiler writes --------------------------------------------------------------------

  /** `(?:.*` + `/)?`: any run of directories, or none. */
  const DIRECTORIES := Opt(Cat(Star(Any), Cat(Char('/'), Empty)))
  /** `(?:/.*)?`: the file itself, or anything beneath it. */
  const BENEATH := Opt(Cat(Char('/'), Cat(Star(Any), Empty)))

  predicate Meta(c: char) {
    c == '\\' || c == '.' || c == '+' || c == '*' || c == '?' || c == '(' || c == ')' || c == '|' || c == '[' ||
    c == ']' || c == '{' || c == '}' || c == '^' || c == '$'
  }

  /** `regexp.QuoteMeta` of one character. */
  function Quote(c: char): string {
    if Meta(c) then ['\\', c] else [c]
  }

  predicate Wild(pattern: string) {
    exists k :: 0 <= k < |pattern| && (pattern[k] == '*' || pattern[k] == '?')
  }

  predicate Climbs(pattern: string) {
    Contains(pattern, "/../") || HasSuffix(pattern, "/..")
  }

  /** The pattern the loop reads: a wildcard-free one without its closing slash. */
  function Trimmed(pattern: string): string {
    if !Wild(pattern) && HasSuffix(pattern, "/") then pattern[..|pattern| - 1] else pattern
  }

  /** What the loop reads at one position. */
  datatype Piece = Directories | AnyRun | NameRun | NameChar | Literal(c: char)

  function PieceAt(p: string): Piece
    requires p != ""
  {
    if p[0] == '*' then
      if "**/" <= p then Directories else if "**" <= p then AnyRun else NameRun
    else if p[0] == '?' then NameChar
    else Literal(p[0])
  }

  function Length(piece: Piece): nat {
    match piece case Directories => 3 case AnyRun => 2 case _ => 1
  }

  function PieceText(piece: Piece): string {
    match piece
    case Directories => "(?:.*/)?"
    case AnyRun => ".*"
    case NameRun => "[^/]*"
    case NameChar => "[^/]"
    case Literal(c) => Quote(c)
  }

  function PieceRegex(piece: Piece): Regex {
    match piece
    case Directories => DIRECTORIES
    case AnyRun => Star(Any)
    case NameRun => Star(NotSlash)
    case NameChar => NotSlash
    case Literal(c) => Char(c)
  }

  /** The text for `p` without the anchors, and the expression it stands for. */
  function Body(p: string): string {
    if p == "" then "" else PieceText(PieceAt(p)) + Body(p[Length(PieceAt(p))..])
  }

  function BodyRegex(p: string, tail: Regex): Regex {
    if p == "" then tail else Cat(PieceRegex(PieceAt(p)), BodyRegex(p[Length(PieceAt(p))..], tail))
  }

  function TailText(p: string): string {
    if !Wild(p) then "(?:/.*)?" else if HasSuffix(p, "/") then ".*" else ""
  }

  function TailRegex(p: string): Regex {
    if !Wild(p) then Cat(BENEATH, Empty)
    else if HasSuffix(p, "/") then Cat(Star(Any), Empty)
    else Empty
  }

  /** One turn of the loop: what it writes and how far it moves. */
  method ReadPiece(rest: string) returns (text: string, n: nat)
    requires rest != ""
    ensures text == PieceText(PieceAt(rest)) && n == Length(PieceAt(rest)) <= |rest|
  {
    if rest[0] == '*' && "**/" <= rest {
      text, n := "(?:.*/)?", 3;
    } else if rest[0] == '*' && "**" <= rest {
      text, n := ".*", 2;
    } else if rest[0] == '*' {
      text, n := "[^/]*", 1;
    } else if rest[0] == '?' {
      text, n := "[^/]", 1;
    } else {
      text, n := Quote(rest[0]), 1;
    }
  }

  lemma BodyNext(p: string, i: nat, b: string)
    requires i < |p|
    ensures var piece := PieceAt(p[i..]);
            i + Length(piece) <= |p| && b + Body(p[i..]) == (b + PieceText(piece)) + Body(p[i + Length(piece)..])
  {
    var piece := PieceAt(p[i..]);
    assert p[i..][Length(piece)..] == p[i + Length(piece)..];
    assert b + (PieceText(piece) + Body(p[i + Length(piece)..])) == (b + PieceText(piece)) + Body(p[i + Length(piece)..]);
  }

  /** The loop over the pattern. */
  method GlobBody(p: string) returns (b: string)
    ensures b == Body(p)
  {
    b := "";
    var i := 0;
    while i < |p|
      invariant 0 <= i <= |p|
      invariant Body(p) == b + Body(p[i..])
    {
      var text, n := ReadPiece(p[i..]);
      BodyNext(p, i, b);
      b := b + text;
      i := i + n;
    }
    assert p[i..] == "";
  }

  /** `globRegexp`: None for a pattern it refuses. */
  method GlobRegexp(pattern: string) returns (text: Option<string>)
    ensures text == if Climbs(pattern) then None
                    else Some("^" + (Body(Trimmed(pattern)) + TailText(Trimmed(pattern))) + "$")
  {
    if Contains(pattern, "/../") || HasSuffix(pattern, "/..") {
      return None;
    }
    var p := pattern;
    if !Wild(p) {
      if HasSuffix(p, "/") {
        p := p[..|p| - 1];
      }
    }
    var b := GlobBody(p);
    ghost var body := b;
    if !Wild(p) {
      b := b + "(?:/.*)?";
    } else if HasSuffix(p, "/") {
      b := b + ".*";
    }
    assert b == body + TailText(p);
    text := Some("^" + b + "$");
  }
}
