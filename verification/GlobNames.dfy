/** The glob read name by name, on clean paths: what a pattern's author means by it. */
module GlobNames {
  import opened Text
  import opened Glob
  import opened GlobFacts

  // ---- a pattern without wildcards -----------------------------------------------------------------

  /** A prefix without wildcards is covered by itself. */
  lemma {:induction false} LiteralCovers(p: string, t: string, s: string, e: Ending)
    requires !Wild(p)
    ensures Covers(p + t, s, e) <==> p <= s && Covers(t, s[|p|..], e)
    decreases p
  {
    if p == "" {
      assert p + t == t && s[0..] == s;
    } else {
      assert forall k :: 0 <= k < |p| - 1 ==> p[1..][k] == p[k + 1];
      assert p[0] != '*' && p[0] != '?';
      assert (p + t)[0] == p[0] && (p + t)[1..] == p[1..] + t;
      if s != "" {
        LiteralCovers(p[1..], t, s[1..], e);
        assert p[0] == s[0] && p[1..] <= s[1..] <==> p <= s;
        if p <= s {
          assert s[1..][|p[1..]|..] == s[|p|..];
        }
      }
    }
  }

  /** A pattern without wildcards accepts exactly the path it names and what lies beneath it at a component
      boundary. A newline further down is the one thing its expression does not read. */
  lemma WildcardFree(pattern: string, path: string)
    requires !Wild(pattern)
    ensures var p := if HasSuffix(pattern, "/") then pattern[..|pattern| - 1] else pattern;
            GlobAccepts(pattern, path) <==> path == p || (p + "/" <= path && OneLine(path[|p| + 1..]))
  {
    var p := Trimmed(pattern);
    assert !Wild(p);
    LiteralCovers(p, "", path, Beneath);
    assert p + "" == p;
    if p <= path {
      BeneathPrefix(p, path);
    }
  }

  /** With a wildcard in it the pattern is read as it is, and a closing slash stands for everything beneath. */
  lemma WithWildcard(pattern: string, path: string)
    requires Wild(pattern)
    ensures GlobAccepts(pattern, path) <==> Covers(pattern, path, if HasSuffix(pattern, "/") then Anything else Exactly)
  {
  }

  lemma BeneathPrefix(p: string, path: string)
    requires p <= path
    ensures Ends(Beneath, path[|p|..]) <==> path == p || (p + "/" <= path && OneLine(path[|p| + 1..]))
  {
    var after := path[|p|..];
    assert path == p + after;
    if after != "" {
      assert path[|p|] == after[0] && after[1..] == path[|p| + 1..];
    }
  }

  /** Two stars after a directory accept everything beneath it, down to the first newline. */
  lemma EverythingBeneath(dir: string, path: string)
    requires !Wild(dir)
    ensures GlobAccepts(dir + "/**", path) <==> dir + "/" <= path && OneLine(path[|dir| + 1..])
  {
    var pattern := dir + "/**";
    assert pattern[|dir| + 1] == '*';
    assert pattern[|pattern| - 1..][0] == '*';
    LiteralCovers(dir, "/**", path, Exactly);
    if dir <= path {
      var after := path[|dir|..];
      LastStars(after);
      assert path == dir + after;
      if after != "" {
        assert path[|dir|] == after[0] && after[1..] == path[|dir| + 1..];
      }
    }
  }

  /** What a path covered from a slash on is, without that slash. */
  lemma SlashFirst(w: string, s: string)
    ensures Covers("/" + w, s, Exactly) <==> s != "" && s[0] == '/' && Covers(w, s[1..], Exactly)
  {
    assert ("/" + w)[1..] == w && ("/" + w)[0] == '/';
  }

  lemma LastStars(s: string)
    ensures Covers("/**", s, Exactly) <==> s != "" && s[0] == '/' && OneLine(s[1..])
  {
    assert "/**" == "/" + "**" && "**"[2..] == "";
    SlashFirst("**", s);
    if s != "" {
      TwoStars("**", s[1..]);
    }
  }

  lemma TwoStars(p: string, t: string)
    requires "**" <= p && p[2..] == ""
    ensures Covers(p, t, Exactly) <==> OneLine(t)
  {
    assert !("**/" <= p);
    assert t[|t|..] == "" && t[..|t|] == t;
    if OneLine(t) {
      assert Covers(p[2..], t[|t|..], Exactly);
    }
    if Covers(p, t, Exactly) {
      var k :| 0 <= k <= |t| && OneLine(t[..k]) && Covers(p[2..], t[k..], Exactly);
      assert t[..k] == t;
    }
  }

  /** So a file whose name holds a newline is not beneath its own directory, for two stars. */
  lemma NewlineHides(dir: string, name: string)
    requires !Wild(dir) && '\n' in name
    ensures !GlobAccepts(dir + "/**", dir + "/" + name)
  {
    var path := dir + "/" + name;
    EverythingBeneath(dir, path);
    assert path[|dir| + 1..] == name;
  }

  // ---- what is refused -----------------------------------------------------------------------------

  /** A component `..` stands after the slash at `k`. */
  predicate ClimbsAt(pattern: string, k: int) {
    0 <= k && k + 3 <= |pattern| && pattern[k] == '/' && pattern[k + 1] == '.' && pattern[k + 2] == '.' &&
    (k + 3 == |pattern| || pattern[k + 3] == '/')
  }

  /** A pattern is refused exactly when one of its components is `..`. */
  lemma ClimbsMeaning(pattern: string)
    ensures Climbs(pattern) <==> exists k :: ClimbsAt(pattern, k)
  {
    var n := |pattern| - 3;
    ContainsMeaning(pattern, "/../");
    forall k | 0 <= k <= |pattern| ensures "/../" <= pattern[k..] <==> k < n && ClimbsAt(pattern, k) {
      DotsAt(pattern, k);
    }
    if n >= 0 {
      DotsAtEnd(pattern);
    }
    if Climbs(pattern) && !HasSuffix(pattern, "/..") {
      var k :| 0 <= k <= |pattern| && "/../" <= pattern[k..];
      assert ClimbsAt(pattern, k);
    }
    if k :| ClimbsAt(pattern, k) {
      assert k < n ==> "/../" <= pattern[k..];
    }
  }

  lemma DotsAt(pattern: string, k: nat)
    requires k <= |pattern|
    ensures "/../" <= pattern[k..] <==> k + 3 < |pattern| && ClimbsAt(pattern, k)
  {
    var t := pattern[k..];
    if k + 3 < |pattern| {
      assert t[0] == pattern[k] && t[1] == pattern[k + 1] && t[2] == pattern[k + 2] && t[3] == pattern[k + 3];
      assert t[..4] == [t[0], t[1], t[2], t[3]];
    }
  }

  lemma DotsAtEnd(pattern: string)
    requires |pattern| >= 3
    ensures HasSuffix(pattern, "/..") <==> ClimbsAt(pattern, |pattern| - 3)
  {
    var n := |pattern| - 3;
    assert pattern[n..] == [pattern[n], pattern[n + 1], pattern[n + 2]];
  }

  // ---- a pattern as it is written ------------------------------------------------------------------

  /** The bytes of a character, as section 3 of RFC 3629 has them, each read as a character again: so the
      compiler's loop takes a pattern apart. */
  function Utf8Of(c: char): string {
    var code := c as int;
    if code < 0x80 then [c]
    else if code < 0x800 then [(0xc0 + code / 64) as char, Trail(code)]
    else if code < 0x1_0000 then [(0xe0 + code / 4096) as char, Trail(code / 64), Trail(code)]
    else [(0xf0 + code / 262144) as char, Trail(code / 4096), Trail(code / 64), Trail(code)]
  }

  function Trail(code: nat): char {
    (0x80 + code % 64) as char
  }

  function Utf8(s: string): string {
    if s == "" then "" else Utf8(s[..|s| - 1]) + Utf8Of(s[|s| - 1])
  }

  predicate Ascii(s: string) {
    forall k :: 0 <= k < |s| ==> s[k] < '\U{80}'
  }

  lemma Utf8OfFacts(c: char)
    ensures |Utf8Of(c)| >= 1 && (|Utf8Of(c)| == 1 <==> c < '\U{80}')
    ensures forall b :: b < '\U{80}' && b in Utf8Of(c) ==> Utf8Of(c) == [b] && b == c
  {
  }

  lemma AsciiLast(s: string)
    requires s != ""
    ensures Ascii(s) <==> Ascii(s[..|s| - 1]) && s[|s| - 1] < '\U{80}'
  {
    assert forall k :: 0 <= k < |s| ==> s[k] == if k < |s| - 1 then s[..|s| - 1][k] else s[|s| - 1];
  }

  lemma {:induction false} Utf8Length(s: string)
    ensures |Utf8(s)| >= |s| && (|Utf8(s)| == |s| <==> Ascii(s))
    ensures Ascii(s) ==> Utf8(s) == s
  {
    if s != "" {
      Utf8Length(s[..|s| - 1]);
      Utf8OfFacts(s[|s| - 1]);
      AsciiLast(s);
    }
  }

  lemma {:induction false} Utf8Holds(s: string, b: char)
    requires b < '\U{80}'
    ensures b in Utf8(s) <==> b in s
  {
    if s != "" {
      Utf8Holds(s[..|s| - 1], b);
      Utf8OfFacts(s[|s| - 1]);
      assert s == s[..|s| - 1] + [s[|s| - 1]];
    }
  }

  lemma WildIn(s: string)
    ensures Wild(s) <==> '*' in s || '?' in s
  {
  }

  /** A character within ASCII ends the bytes exactly when it ends the text. */
  lemma Utf8Last(s: string, b: char)
    requires s != "" && b < '\U{80}'
    ensures Utf8(s) != ""
    ensures Utf8(s)[|Utf8(s)| - 1] == b <==> s[|s| - 1] == b
    ensures s[|s| - 1] == b ==> Utf8(s) == Utf8(s[..|s| - 1]) + [b]
  {
    Utf8OfFacts(s[|s| - 1]);
    var bytes := Utf8Of(s[|s| - 1]);
    assert Utf8(s)[|Utf8(s)| - 1] == bytes[|bytes| - 1] && bytes[|bytes| - 1] in bytes;
  }

  /** No text is its own bytes but for a slash at the end. */
  lemma {:induction false} NotOneSlashLess(v: string)
    ensures Utf8(v) != v + "/"
  {
    if Utf8(v) == v + "/" {
      assert v != "";
      Utf8Last(v, '/');
      var w := v[..|v| - 1];
      assert (v + "/")[..|v|] == w + "/";
      NotOneSlashLess(w);
    }
  }

  lemma Utf8Wild(s: string)
    ensures Wild(Utf8(s)) <==> Wild(s)
  {
    WildIn(s);
    WildIn(Utf8(s));
    Utf8Holds(s, '*');
    Utf8Holds(s, '?');
  }

  /** The bytes of a text outside ASCII are longer than it, even without a closing slash or a text of its own. */
  lemma LongerThanItself(path: string, p: string)
    requires !Ascii(path) && (p == Utf8(path) || p + "/" == Utf8(path))
    ensures p != path && |p| >= |path|
  {
    Utf8Length(path);
    if p == path {
      var v := path[..|path| - 1];
      Utf8Last(path, '/');
      assert (p + "/")[..|p|] == p && (Utf8(v) + ['/'])[..|Utf8(v)|] == Utf8(v);
      NotOneSlashLess(v);
    }
  }

  /** A path without wildcards, given as a pattern, accepts itself exactly when all of it is within ASCII: any
      other character is quoted byte by byte, and no byte of it is that character again. */
  lemma AcceptsItself(path: string)
    requires !Wild(path)
    ensures GlobAccepts(Utf8(path), path) <==> Ascii(path)
  {
    Utf8Wild(path);
    WildcardFree(Utf8(path), path);
    if Ascii(path) {
      Utf8Length(path);
      ItselfOrBeneath(path);
    } else {
      LongerThanItself(path, Trimmed(Utf8(path)));
    }
  }

  lemma ItselfOrBeneath(path: string)
    requires !Wild(path)
    ensures var p := Trimmed(path); path == p || (p + "/" <= path && OneLine(path[|p| + 1..]))
  {
    var p := Trimmed(path);
    if p != path {
      assert path == p + "/" && path[|p| + 1..] == "";
    }
  }

  // ---- names ---------------------------------------------------------------------------------------

  /** One component of a path: not empty, no slash, no newline. */
  predicate Name(n: string) {
    n != "" && OneName(n) && OneLine(n)
  }

  /** One component of a pattern: two stars alone, or a name in which no two stars meet. */
  ghost predicate Component(c: string) {
    Name(c) && (c == "**" || NoDoubleStar(c))
  }

  function PathText(names: seq<string>): string {
    if names == [] then "" else "/" + names[0] + PathText(names[1..])
  }

  /** A star for any run, a question mark for any one character. */
  predicate NameMatches(c: string, n: string)
    decreases c
  {
    if c == "" then n == ""
    else if c[0] == '*' then exists k :: 0 <= k <= |n| && NameMatches(c[1..], n[k..])
    else if c[0] == '?' then n != "" && NameMatches(c[1..], n[1..])
    else n != "" && n[0] == c[0] && NameMatches(c[1..], n[1..])
  }

  /** Two stars stand for any run of names, at the end for at least one; every other component for one name. */
  predicate NamesMatch(cs: seq<string>, ns: seq<string>)
    decreases |cs|
  {
    if cs == [] then ns == []
    else if cs == ["**"] then ns != []
    else if cs[0] == "**" then exists j :: 0 <= j <= |ns| && NamesMatch(cs[1..], ns[j..])
    else ns != [] && NameMatches(cs[0], ns[0]) && NamesMatch(cs[1..], ns[1..])
  }

  predicate AllNames(ns: seq<string>) {
    forall n :: n in ns ==> Name(n)
  }

  ghost predicate AllComponents(cs: seq<string>) {
    forall c :: c in cs ==> Component(c)
  }

  /** The end of a component: the end of the text, or a slash. */
  predicate AtBoundary(t: string) {
    t == "" || t[0] == '/'
  }

  lemma RunWithinName(n: string, u: string, k: nat)
    requires OneName(n) && AtBoundary(u) && k <= |n + u|
    ensures OneName((n + u)[..k]) <==> k <= |n|
  {
    if k > |n| {
      assert (n + u)[..k][|n|] == u[0];
    } else {
      assert (n + u)[..k] == n[..k];
    }
  }

  ghost predicate NoDoubleStar(c: string) {
    forall k :: 0 <= k < |c| - 1 ==> c[k] != '*' || c[k + 1] != '*'
  }

  /** Within a component a pattern and a path are matched name against name. */
  lemma {:induction false} NameCovers(c: string, t: string, n: string, u: string)
    requires OneName(c) && NoDoubleStar(c)
    requires AtBoundary(t) && OneName(n) && AtBoundary(u)
    ensures Covers(c + t, n + u, Exactly) <==> NameMatches(c, n) && Covers(t, u, Exactly)
    decreases c, 1
  {
    if c == "" {
      assert c + t == t;
      if n == "" {
        assert n + u == u;
      }
    } else if c[0] == '*' {
      StarInName(c, t, n, u);
    } else {
      assert forall k :: 0 <= k < |c[1..]| ==> c[1..][k] == c[k + 1];
      assert (c + t)[0] == c[0] && (c + t)[1..] == c[1..] + t;
      if n != "" {
        assert (n + u)[0] == n[0] && (n + u)[1..] == n[1..] + u;
        NameCovers(c[1..], t, n[1..], u);
      }
    }
  }

  lemma {:induction false} StarInName(c: string, t: string, n: string, u: string)
    requires c != "" && c[0] == '*' && OneName(c) && NoDoubleStar(c)
    requires AtBoundary(t) && OneName(n) && AtBoundary(u)
    ensures Covers(c + t, n + u, Exactly) <==> NameMatches(c, n) && Covers(t, u, Exactly)
    decreases c, 0
  {
    var c', p, s := c[1..], c + t, n + u;
    assert forall k :: 0 <= k < |c'| ==> c'[k] == c[k + 1];
    assert p[1..] == c' + t && (|p| > 1 ==> p[1] != '*');
    StarCovers(p, n, u);
    forall k | 0 <= k <= |n|
      ensures Covers(p[1..], s[k..], Exactly) <==> NameMatches(c', n[k..]) && Covers(t, u, Exactly)
    {
      assert s[k..] == n[k..] + u;
      NameCovers(c', t, n[k..], u);
    }
  }

  /** A single star before a boundary runs within the name. */
  lemma StarCovers(p: string, n: string, u: string)
    requires p != "" && p[0] == '*' && (|p| > 1 ==> p[1] != '*') && OneName(n) && AtBoundary(u)
    ensures Covers(p, n + u, Exactly) <==> exists k :: 0 <= k <= |n| && Covers(p[1..], (n + u)[k..], Exactly)
  {
    var s := n + u;
    if Covers(p, s, Exactly) {
      var k :| 0 <= k <= |s| && OneName(s[..k]) && Covers(p[1..], s[k..], Exactly);
      RunWithinName(n, u, k);
    }
    if exists k :: 0 <= k <= |n| && Covers(p[1..], s[k..], Exactly) {
      var k :| 0 <= k <= |n| && Covers(p[1..], s[k..], Exactly);
      RunWithinName(n, u, k);
    }
  }

  // ---- paths ---------------------------------------------------------------------------------------

  lemma {:induction false} PathOneLine(ns: seq<string>)
    requires AllNames(ns)
    ensures OneLine(PathText(ns)) && AtBoundary(PathText(ns))
  {
    if ns != [] {
      PathOneLine(ns[1..]);
      assert Name(ns[0]);
      OneLineAppend("/", ns[0]);
      OneLineAppend("/" + ns[0], PathText(ns[1..]));
    }
  }

  lemma OneLineAppend(s: string, t: string)
    requires OneLine(s) && OneLine(t)
    ensures OneLine(s + t)
  {
  }

  /** Each slash of a path starts one of its names. */
  lemma {:induction false} SlashStartsName(ns: seq<string>, k: nat) returns (j: nat)
    requires AllNames(ns) && k < |PathText(ns)| && PathText(ns)[k] == '/'
    ensures j < |ns| && PathText(ns)[k..] == PathText(ns[j..])
  {
    var head := "/" + ns[0];
    var s := PathText(ns);
    if k == 0 {
      j := 0;
      assert ns[0..] == ns && s[0..] == s;
    } else {
      assert Name(ns[0]);
      assert forall i :: 1 <= i < |head| ==> s[i] == ns[0][i - 1] && s[i] != '/';
      assert s[k..] == PathText(ns[1..])[k - |head|..];
      var i := SlashStartsName(ns[1..], k - |head|);
      j := i + 1;
      assert ns[1..][i..] == ns[j..];
    }
  }

  /** And each name starts at a slash. */
  lemma {:induction false} NameStartsAtSlash(ns: seq<string>, j: nat) returns (k: nat)
    requires j < |ns|
    ensures k < |PathText(ns)| && PathText(ns)[k] == '/' && PathText(ns)[k..] == PathText(ns[j..])
  {
    var s := PathText(ns);
    if j == 0 {
      k := 0;
      assert ns[0..] == ns && s[0..] == s;
    } else {
      var head := "/" + ns[0];
      var i := NameStartsAtSlash(ns[1..], j - 1);
      k := i + |head|;
      assert s[k..] == PathText(ns[1..])[i..];
      assert ns[1..][j - 1..] == ns[j..];
    }
  }

  lemma {:induction false} NoNamesLeft(cs: seq<string>)
    requires cs != []
    ensures !NamesMatch(cs, [])
    decreases |cs|
  {
    if cs != ["**"] && cs[0] == "**" {
      NoNamesLeft(cs[1..]);
      var none: seq<string> := [];
      assert none[0..] == [];
    }
  }

  /** Two stars in the middle: the rest of the pattern is covered from some slash of the path on. */
  lemma DirectoriesCover(w: string, s: string)
    requires OneLine(s) && s != "" && s[0] == '/'
    ensures Covers("/**/" + w, s, Exactly) <==>
            exists k :: 0 <= k < |s| && s[k] == '/' && Covers("/" + w, s[k..], Exactly)
  {
    var p := "**/" + w;
    assert "/**/" + w == "/" + p && p[3..] == w && "**/" <= p;
    SlashFirst(p, s);
    var s' := s[1..];
    assert forall k :: 0 <= k < |s'| ==> s'[k] == s[k + 1] && s'[k + 1..] == s[k + 1..][1..];
    if Covers(p, s', Exactly) {
      if Covers(w, s', Exactly) {
        SlashFirst(w, s[0..]);
        assert s[0..] == s;
      } else {
        var k :| 0 <= k < |s'| && s'[k] == '/' && OneLine(s'[..k]) && Covers(p[3..], s'[k + 1..], Exactly);
        SlashFirst(w, s[k + 1..]);
      }
    }
    if exists k :: 0 <= k < |s| && s[k] == '/' && Covers("/" + w, s[k..], Exactly) {
      var k :| 0 <= k < |s| && s[k] == '/' && Covers("/" + w, s[k..], Exactly);
      SlashFirst(w, s[k..]);
      if k == 0 {
        assert s[0..] == s;
      } else {
        assert s'[k - 1 + 1..] == s[k..][1..];
        assert OneLine(s'[..k - 1]);
      }
    }
  }

  /** Pattern components against path names: the glob covers the path exactly when the names match. */
  lemma {:induction false} PathCovers(cs: seq<string>, ns: seq<string>)
    requires AllComponents(cs) && AllNames(ns)
    ensures Covers(PathText(cs), PathText(ns), Exactly) <==> NamesMatch(cs, ns)
    decreases |cs|
  {
    PathOneLine(ns);
    var s := PathText(ns);
    if cs == [] {
    } else if cs == ["**"] {
      assert PathText(cs) == "/" + "**" + "" == "/**";
      LastStars(s);
    } else if cs[0] == "**" {
      StarsThenPath(cs, ns);
    } else {
      NameThenPath(cs, ns);
    }
  }

  lemma {:induction false} NameThenPath(cs: seq<string>, ns: seq<string>)
    requires AllComponents(cs) && AllNames(ns) && cs != [] && cs[0] != "**"
    ensures Covers(PathText(cs), PathText(ns), Exactly) <==> NamesMatch(cs, ns)
    decreases |cs|, 0
  {
    var c, t := cs[0], PathText(cs[1..]);
    assert Component(c);
    assert PathText(cs) == "/" + (c + t);
    SlashFirst(c + t, PathText(ns));
    if ns != [] {
      var n, u := ns[0], PathText(ns[1..]);
      assert Name(n);
      assert PathText(ns)[1..] == n + u;
      PathOneLine(ns[1..]);
      NameCovers(c, t, n, u);
      PathCovers(cs[1..], ns[1..]);
    }
  }

  lemma {:induction false} StarsThenPath(cs: seq<string>, ns: seq<string>)
    requires AllComponents(cs) && AllNames(ns) && |cs| > 1 && cs[0] == "**"
    ensures Covers(PathText(cs), PathText(ns), Exactly) <==> NamesMatch(cs, ns)
    decreases |cs|, 0
  {
    var s := PathText(ns);
    PathOneLine(ns);
    var w := cs[1] + PathText(cs[2..]);
    assert cs[1..][1..] == cs[2..];
    assert PathText(cs[1..]) == "/" + w;
    assert PathText(cs) == "/**/" + w;
    NoNamesLeft(cs);
    SlashFirst("**/" + w, s);
    assert "/**/" + w == "/" + ("**/" + w);
    if ns != [] {
      DirectoriesCover(w, s);
      forall j | 0 <= j <= |ns| ensures SameFrom(cs[1..], ns, w, j) {
        PathCovers(cs[1..], ns[j..]);
      }
      SomeSlash(cs, ns, w);
    }
  }

  /** From the `j`th name on, the path is covered from a slash as the names match. */
  ghost predicate SameFrom(cs: seq<string>, ns: seq<string>, w: string, j: nat)
    requires j <= |ns|
  {
    Covers("/" + w, PathText(ns[j..]), Exactly) <==> NamesMatch(cs, ns[j..])
  }

  lemma SomeSlash(cs: seq<string>, ns: seq<string>, w: string)
    requires |cs| > 1 && cs[0] == "**" && AllNames(ns)
    requires forall j :: 0 <= j <= |ns| ==> SameFrom(cs[1..], ns, w, j)
    ensures (exists k :: 0 <= k < |PathText(ns)| && PathText(ns)[k] == '/' && Covers("/" + w, PathText(ns)[k..], Exactly)) <==>
            NamesMatch(cs, ns)
  {
    var s := PathText(ns);
    if k :| 0 <= k < |s| && s[k] == '/' && Covers("/" + w, s[k..], Exactly) {
      var j := SlashStartsName(ns, k);
      assert SameFrom(cs[1..], ns, w, j);
    }
    if NamesMatch(cs, ns) {
      var j :| 0 <= j <= |ns| && NamesMatch(cs[1..], ns[j..]);
      NoNamesLeft(cs[1..]);
      assert ns[|ns|..] == [];
      var k := NameStartsAtSlash(ns, j);
      assert SameFrom(cs[1..], ns, w, j);
    }
  }

  /** For a pattern made of components, at least one with a wildcard, and a path made of names, the compiled
      expression accepts the path exactly when the names match the components. */
  lemma AcceptsByNames(cs: seq<string>, ns: seq<string>)
    requires cs != [] && AllComponents(cs) && AllNames(ns) && Wild(PathText(cs))
    ensures GlobAccepts(PathText(cs), PathText(ns)) <==> NamesMatch(cs, ns)
  {
    LastNotSlash(cs);
    PathCovers(cs, ns);
  }

  lemma {:induction false} LastNotSlash(cs: seq<string>)
    requires cs != [] && AllComponents(cs)
    ensures !HasSuffix(PathText(cs), "/")
  {
    var s := PathText(cs);
    assert Component(cs[0]);
    if |cs| == 1 {
      assert cs[1..] == [] && PathText(cs[1..]) == "";
      assert s == "/" + cs[0];
      assert s[|s| - 1] == cs[0][|cs[0]| - 1];
    } else {
      LastNotSlash(cs[1..]);
      var t := PathText(cs[1..]);
      assert s[|s| - 1] == t[|t| - 1] && t[|t| - 1..] == [t[|t| - 1]];
      assert s[|s| - 1..] == [s[|s| - 1]];
    }
  }
}
