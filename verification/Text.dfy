/** The few string operations the models share, written out. */
module Text {

  datatype Option<+T> = None | Some(value: T)

  /** `strings.Contains`. `<=` on strings is "is a prefix of". */
  predicate Contains(s: string, sub: string) {
    sub <= s || (s != [] && Contains(s[1..], sub))
  }

  /** The text stands somewhere in the other. */
  ghost predicate Occurs(s: string, sub: string) {
    exists k :: 0 <= k <= |s| && sub <= s[k..]
  }

  lemma {:induction false} ContainsMeaning(s: string, sub: string)
    ensures Contains(s, sub) <==> Occurs(s, sub)
  {
    assert s[0..] == s;
    if s != [] {
      ContainsMeaning(s[1..], sub);
      assert forall k :: 1 <= k <= |s| ==> s[k..] == s[1..][k - 1..];
      if Occurs(s[1..], sub) {
        var k :| 0 <= k <= |s[1..]| && sub <= s[1..][k..];
        assert sub <= s[k + 1..];
      }
    }
  }

  /** `strings.HasSuffix`. */
  predicate HasSuffix(s: string, suffix: string) {
    |suffix| <= |s| && s[|s| - |suffix|..] == suffix
  }

  /** `strings.CutPrefix`. */
  function CutPrefix(s: string, prefix: string): Option<string> {
    if prefix <= s then Some(s[|prefix|..]) else None
  }

  /** `strings.CutSuffix`. */
  function CutSuffix(s: string, suffix: string): Option<string> {
    if HasSuffix(s, suffix) then Some(s[..|s| - |suffix|]) else None
  }

  function Digit(d: nat): char
    requires d < 10
  {
    (('0' as int) + d) as char
  }

  /** `strconv.Itoa` on a position, which is never negative. */
  function Itoa(n: nat): (s: string)
    ensures s != []
  {
    if n < 10 then [Digit(n)] else Itoa(n / 10) + [Digit(n % 10)]
  }

  /** Distinct numbers have distinct decimal texts. */
  lemma {:induction false} ItoaInjective(m: nat, n: nat)
    requires Itoa(m) == Itoa(n)
    ensures m == n
  {
    var s, t := Itoa(m), Itoa(n);
    assert s[|s| - 1] == Digit(m % 10) && t[|t| - 1] == Digit(n % 10);
    assert m % 10 == n % 10;
    if m >= 10 && n >= 10 {
      assert Itoa(m / 10) == s[..|s| - 1] && Itoa(n / 10) == t[..|t| - 1];
      ItoaInjective(m / 10, n / 10);
    }
  }
}
