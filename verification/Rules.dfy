/** Bringing a tool block an older release wrote up to date with the defaults: its status rules and its other
    fields. */
module Rules {
  import opened Text

  datatype Rule = Rule(state: string, pattern: string)

  const WAITING := "waiting"
  const WORKING := "working"
  const ERRORED := "errored"

  const CLAUDE := "claude"
  const OPENCODE := "opencode"
  const CODEX := "codex"

  /** What the built-in patterns come to: whether a pattern compiles and matches a text; the bare phrase once
      shipped; the line a one-line pattern's replacement has to read, where the pattern is superseded; which
      status patterns and which texts of a tool are superseded; and the dialog lines to be recognized. */
  datatype Patterns = Patterns(
    matches: (string, string) -> bool,
    bare: string,
    wrapped: string -> Option<string>,
    oldStatus: (string, string) -> bool,
    oldText: (string, string, string) -> bool,
    samples: string -> seq<string>)

  /** The three upgrades: of the bare phrase, of one-line patterns, and of codex's status rules. */
  datatype Upgrade = Bare | OneLine | Status

  predicate Superseded(p: Patterns, u: Upgrade, r: Rule) {
    match u
    case Bare => r.state == WAITING && r.pattern == p.bare
    case OneLine => r.state == WAITING && p.wrapped(r.pattern).Some?
    case Status => (r.state == ERRORED || r.state == WORKING) && p.oldStatus(r.state, r.pattern)
  }

  /** `d` can take the place of `r`. */
  predicate Replaces(p: Patterns, u: Upgrade, r: Rule, d: Rule) {
    match u
    case Bare => d.state == WAITING && Contains(d.pattern, p.bare)
    case OneLine => d.state == WAITING && p.wrapped(r.pattern).Some? && p.matches(d.pattern, p.wrapped(r.pattern).value)
    case Status => d.state == r.state
  }

  function FirstReplacing(p: Patterns, u: Upgrade, r: Rule, def: seq<Rule>): (d: Option<Rule>)
    ensures d.Some? ==> d.value in def && Replaces(p, u, r, d.value)
  {
    if def == [] then None else if Replaces(p, u, r, def[0]) then Some(def[0]) else FirstReplacing(p, u, r, def[1..])
  }

  function Fixed(p: Patterns, u: Upgrade, def: seq<Rule>, r: Rule): Rule {
    var d := FirstReplacing(p, u, r, def);
    if Superseded(p, u, r) && d.Some? then d.value else r
  }

  function Upgraded(p: Patterns, u: Upgrade, rules: seq<Rule>, def: seq<Rule>): (out: seq<Rule>)
    ensures |out| == |rules| && forall i :: 0 <= i < |rules| ==> out[i] == Fixed(p, u, def, rules[i])
  {
    seq(|rules|, i requires 0 <= i < |rules| => Fixed(p, u, def, rules[i]))
  }

  /** A rule that says a text is a dialog waiting for somebody. */
  predicate Reads(p: Patterns, r: Rule, sample: string) {
    r.state == WAITING && p.matches(r.pattern, sample)
  }

  predicate SomeReads(p: Patterns, rules: seq<Rule>, sample: string) {
    exists i :: 0 <= i < |rules| && Reads(p, rules[i], sample)
  }

  function FirstReading(p: Patterns, def: seq<Rule>, sample: string): (d: Option<Rule>)
    ensures d.Some? ==> d.value in def && Reads(p, d.value, sample)
    ensures d.None? ==> !SomeReads(p, def, sample)
  {
    if def == [] then None else if Reads(p, def[0], sample) then Some(def[0]) else FirstReading(p, def[1..], sample)
  }

  /** How many waiting rules lead the list. */
  function Leading(rules: seq<Rule>): (at: nat)
    ensures at <= |rules|
  {
    if rules == [] || rules[0].state != WAITING then 0 else 1 + Leading(rules[1..])
  }

  function WithRuleFor(p: Patterns, sample: string, user: seq<Rule>, def: seq<Rule>): seq<Rule> {
    var d := FirstReading(p, def, sample);
    if SomeReads(p, user, sample) || d.None? then user else user[..Leading(user)] + [d.value] + user[Leading(user)..]
  }

  function WithDialogRules(p: Patterns, user: seq<Rule>, def: seq<Rule>, samples: seq<string>): seq<Rule> {
    if samples == [] then user
    else WithRuleFor(p, samples[|samples| - 1], WithDialogRules(p, user, def, samples[..|samples| - 1]), def)
  }

  function MergedRules(p: Patterns, name: string, user: seq<Rule>, def: seq<Rule>): seq<Rule> {
    if user == [] then def
    else if name == CLAUDE then WithDialogRules(p, Upgraded(p, OneLine, Upgraded(p, Bare, user, def), def), def, p.samples(name))
    else if name == OPENCODE then WithDialogRules(p, user, def, p.samples(name))
    else if name == CODEX then Upgraded(p, Status, WithDialogRules(p, user, def, p.samples(name)), def)
    else user
  }

  // ---- the upgrades as they run --------------------------------------------------------------------

  lemma NextReplacing(p: Patterns, u: Upgrade, r: Rule, def: seq<Rule>, k: nat)
    requires k < |def|
    ensures FirstReplacing(p, u, r, def[k..]) ==
            if Replaces(p, u, r, def[k]) then Some(def[k]) else FirstReplacing(p, u, r, def[k + 1..])
  {
    assert def[k..][1..] == def[k + 1..];
  }

  method UpgradeBareEnterToConfirm(p: Patterns, user: array<Rule>, def: seq<Rule>)
    modifies user
    ensures user[..] == Upgraded(p, Bare, old(user[..]), def)
  {
    for i := 0 to user.Length
      invariant forall k :: 0 <= k < i ==> user[k] == Fixed(p, Bare, def, old(user[k]))
      invariant forall k :: i <= k < user.Length ==> user[k] == old(user[k])
    {
      var d := BareReplacement(p, user[i], def);
      if d.Some? {
        user[i] := d.value;
      }
    }
  }

  method BareReplacement(p: Patterns, r: Rule, def: seq<Rule>) returns (d: Option<Rule>)
    ensures d == if Superseded(p, Bare, r) then FirstReplacing(p, Bare, r, def) else None
  {
    if r.state != WAITING || r.pattern != p.bare {
      return None;
    }
    var k := 0;
    assert def[0..] == def;
    while k < |def|
      invariant 0 <= k <= |def| && FirstReplacing(p, Bare, r, def) == FirstReplacing(p, Bare, r, def[k..])
    {
      NextReplacing(p, Bare, r, def, k);
      if def[k].state == WAITING && Contains(def[k].pattern, p.bare) {
        return Some(def[k]);
      }
      k := k + 1;
    }
    d := None;
  }

  method UpgradeOneLineAskRules(p: Patterns, user: array<Rule>, def: seq<Rule>)
    modifies user
    ensures user[..] == Upgraded(p, OneLine, old(user[..]), def)
  {
    for i := 0 to user.Length
      invariant forall k :: 0 <= k < i ==> user[k] == Fixed(p, OneLine, def, old(user[k]))
      invariant forall k :: i <= k < user.Length ==> user[k] == old(user[k])
    {
      var d := OneLineReplacement(p, user[i], def);
      if d.Some? {
        user[i] := d.value;
      }
    }
  }

  method OneLineReplacement(p: Patterns, r: Rule, def: seq<Rule>) returns (d: Option<Rule>)
    ensures d == if Superseded(p, OneLine, r) then FirstReplacing(p, OneLine, r, def) else None
  {
    var wrapped := p.wrapped(r.pattern);
    if r.state != WAITING || wrapped.None? {
      return None;
    }
    var k := 0;
    assert def[0..] == def;
    while k < |def|
      invariant 0 <= k <= |def| && FirstReplacing(p, OneLine, r, def) == FirstReplacing(p, OneLine, r, def[k..])
    {
      NextReplacing(p, OneLine, r, def, k);
      if def[k].state == WAITING && p.matches(def[k].pattern, wrapped.value) {
        return Some(def[k]);
      }
      k := k + 1;
    }
    d := None;
  }

  /** The loop over a codex block's rules. */
  method UpgradeStatusRules(p: Patterns, user: array<Rule>, def: seq<Rule>)
    modifies user
    ensures user[..] == Upgraded(p, Status, old(user[..]), def)
  {
    for i := 0 to user.Length
      invariant forall k :: 0 <= k < i ==> user[k] == Fixed(p, Status, def, old(user[k]))
      invariant forall k :: i <= k < user.Length ==> user[k] == old(user[k])
    {
      var d := StatusReplacement(p, user[i], def);
      if d.Some? {
        user[i] := d.value;
      }
    }
  }

  method StatusReplacement(p: Patterns, r: Rule, def: seq<Rule>) returns (d: Option<Rule>)
    ensures d == if Superseded(p, Status, r) then FirstReplacing(p, Status, r, def) else None
  {
    if !(r.state == ERRORED && p.oldStatus(ERRORED, r.pattern)) && !(r.state == WORKING && p.oldStatus(WORKING, r.pattern)) {
      return None;
    }
    var k := 0;
    assert def[0..] == def;
    while k < |def|
      invariant 0 <= k <= |def| && FirstReplacing(p, Status, r, def) == FirstReplacing(p, Status, r, def[k..])
    {
      NextReplacing(p, Status, r, def, k);
      if def[k].state == r.state {
        return Some(def[k]);
      }
      k := k + 1;
    }
    d := None;
  }

  method AddRuleFor(p: Patterns, sample: string, user: seq<Rule>, def: seq<Rule>) returns (out: seq<Rule>)
    ensures out == WithRuleFor(p, sample, user, def)
  {
    for i := 0 to |user|
      invariant forall k :: 0 <= k < i ==> !Reads(p, user[k], sample)
    {
      if user[i].state != WAITING {
        continue;
      }
      if p.matches(user[i].pattern, sample) {
        return user;
      }
    }
    for i := 0 to |def|
      invariant FirstReading(p, def, sample) == FirstReading(p, def[i..], sample)
    {
      assert def[i..][1..] == def[i + 1..];
      if def[i].state != WAITING || !p.matches(def[i].pattern, sample) {
        continue;
      }
      var at := 0;
      while at < |user| && user[at].state == WAITING
        invariant 0 <= at <= |user| && Leading(user) == at + Leading(user[at..])
      {
        assert user[at..][1..] == user[at + 1..];
        at := at + 1;
      }
      return user[..at] + [def[i]] + user[at..];
    }
    return user;
  }

  method AddDialogRules(p: Patterns, user: seq<Rule>, def: seq<Rule>, samples: seq<string>) returns (out: seq<Rule>)
    ensures out == WithDialogRules(p, user, def, samples)
  {
    out := user;
    for i := 0 to |samples|
      invariant out == WithDialogRules(p, user, def, samples[..i])
    {
      assert samples[..i + 1][..i] == samples[..i];
      out := AddRuleFor(p, samples[i], out, def);
    }
    assert samples[..|samples|] == samples;
  }

  method MergeRules(p: Patterns, name: string, user: array<Rule>, def: seq<Rule>) returns (rules: seq<Rule>)
    modifies user
    ensures rules == MergedRules(p, name, old(user[..]), def)
  {
    rules := user[..];
    if |rules| == 0 {
      rules := def;
    } else if name == CLAUDE {
      UpgradeBareEnterToConfirm(p, user, def);
      UpgradeOneLineAskRules(p, user, def);
      rules := AddDialogRules(p, user[..], def, p.samples(name));
    } else if name == OPENCODE {
      rules := AddDialogRules(p, rules, def, p.samples(name));
    } else if name == CODEX {
      rules := AddDialogRules(p, rules, def, p.samples(name));
      var own := new Rule[|rules|](i requires 0 <= i < |rules| => rules[i]);
      assert own[..] == rules;
      UpgradeStatusRules(p, own, def);
      rules := own[..];
    }
  }

  // ---- what an upgrade and an insertion come to ----------------------------------------------------

  /** The default at `k` is the first that takes a superseded rule's place. */
  ghost predicate FirstOf(p: Patterns, u: Upgrade, r: Rule, def: seq<Rule>, k: int) {
    0 <= k < |def| && TakesPlace(p, u, r, def[k]) && forall j :: 0 <= j < k ==> !TakesPlace(p, u, r, def[j])
  }

  /** For the bare phrase a waiting rule that carries it, for a one-line pattern a waiting rule that reads the line
      wrapped, for a status rule one of the same state. */
  ghost predicate TakesPlace(p: Patterns, u: Upgrade, r: Rule, d: Rule) {
    && (u == Bare ==> d.state == WAITING && Occurs(d.pattern, p.bare))
    && (u == OneLine ==> d.state == WAITING && exists line :: p.wrapped(r.pattern) == Some(line) && p.matches(d.pattern, line))
    && (u == Status ==> d.state == r.state)
  }

  /** What a release shipped and no longer does. */
  ghost predicate Shipped(p: Patterns, u: Upgrade, r: Rule) {
    && (u == Bare ==> r == Rule(WAITING, p.bare))
    && (u == OneLine ==> r.state == WAITING && exists line :: p.wrapped(r.pattern) == Some(line))
    && (u == Status ==> (r.state == ERRORED || r.state == WORKING) && p.oldStatus(r.state, r.pattern))
  }

  lemma TakesPlaceMeaning(p: Patterns, u: Upgrade, r: Rule, d: Rule)
    ensures Replaces(p, u, r, d) <==> TakesPlace(p, u, r, d)
    ensures Superseded(p, u, r) <==> Shipped(p, u, r)
  {
    ContainsMeaning(d.pattern, p.bare);
  }

  lemma {:induction false} FirstOfMeaning(p: Patterns, u: Upgrade, r: Rule, def: seq<Rule>, k: nat)
    requires k <= |def| && forall j :: 0 <= j < k ==> !TakesPlace(p, u, r, def[j])
    ensures forall n :: FirstOf(p, u, r, def, n) ==> FirstReplacing(p, u, r, def[k..]) == Some(def[n])
    ensures (forall n :: !FirstOf(p, u, r, def, n)) ==> FirstReplacing(p, u, r, def[k..]) == None
    decreases |def| - k
  {
    if k < |def| {
      NextReplacing(p, u, r, def, k);
      TakesPlaceMeaning(p, u, r, def[k]);
      if TakesPlace(p, u, r, def[k]) {
        assert FirstOf(p, u, r, def, k);
      } else {
        FirstOfMeaning(p, u, r, def, k + 1);
      }
    }
  }

  /** A superseded rule becomes the first default that takes its place; without one, and any other rule, it stays. */
  lemma UpgradeMeaning(p: Patterns, u: Upgrade, def: seq<Rule>, r: Rule)
    ensures forall k :: Shipped(p, u, r) && FirstOf(p, u, r, def, k) ==> Fixed(p, u, def, r) == def[k]
    ensures !Shipped(p, u, r) || (forall k :: !FirstOf(p, u, r, def, k)) ==> Fixed(p, u, def, r) == r
  {
    assert def[0..] == def;
    FirstOfMeaning(p, u, r, def, 0);
    TakesPlaceMeaning(p, u, r, r);
  }

  /** A waiting rule that reads the sample. */
  predicate WaitsOn(p: Patterns, r: Rule, sample: string) {
    r.state == WAITING && p.matches(r.pattern, sample)
  }

  ghost predicate FirstWaitingOn(p: Patterns, def: seq<Rule>, sample: string, k: int) {
    0 <= k < |def| && WaitsOn(p, def[k], sample) && forall j :: 0 <= j < k ==> !WaitsOn(p, def[j], sample)
  }

  lemma {:induction false} FirstReadingMeaning(p: Patterns, def: seq<Rule>, sample: string, k: nat)
    requires k <= |def| && forall j :: 0 <= j < k ==> !WaitsOn(p, def[j], sample)
    ensures forall n :: FirstWaitingOn(p, def, sample, n) ==> FirstReading(p, def[k..], sample) == Some(def[n])
    ensures (forall n :: !FirstWaitingOn(p, def, sample, n)) ==> FirstReading(p, def[k..], sample) == None
    decreases |def| - k
  {
    if k < |def| {
      assert def[k..][1..] == def[k + 1..];
      if WaitsOn(p, def[k], sample) {
        assert FirstWaitingOn(p, def, sample, k);
      } else {
        FirstReadingMeaning(p, def, sample, k + 1);
      }
    }
  }

  /** The first `at` rules wait, and the next does not. */
  ghost predicate WaitingLead(rules: seq<Rule>, at: int) {
    0 <= at <= |rules| && (forall i :: 0 <= i < at ==> rules[i].state == WAITING) && (at < |rules| ==> rules[at].state != WAITING)
  }

  /** For a sample that no rule reads, the first default waiting rule that reads it goes behind the waiting rules that
      lead; for any other, and without such a default, nothing changes. */
  lemma RuleForMeaning(p: Patterns, sample: string, user: seq<Rule>, def: seq<Rule>)
    ensures (exists i :: 0 <= i < |user| && WaitsOn(p, user[i], sample)) ==> WithRuleFor(p, sample, user, def) == user
    ensures (forall k :: !FirstWaitingOn(p, def, sample, k)) ==> WithRuleFor(p, sample, user, def) == user
    ensures forall k, at :: FirstWaitingOn(p, def, sample, k) && WaitingLead(user, at)
                            && (forall i :: 0 <= i < |user| ==> !WaitsOn(p, user[i], sample)) ==>
              WithRuleFor(p, sample, user, def) == user[..at] + [def[k]] + user[at..]
  {
    assert def[0..] == def;
    FirstReadingMeaning(p, def, sample, 0);
    forall i | 0 <= i < |user| ensures Reads(p, user[i], sample) <==> WaitsOn(p, user[i], sample) {
    }
    forall at | WaitingLead(user, at) ensures at == Leading(user) {
      LeadingIs(user, at);
    }
  }

  // ---- what merging keeps --------------------------------------------------------------------------

  lemma {:induction false} LeadingMeaning(rules: seq<Rule>)
    ensures forall i :: 0 <= i < Leading(rules) ==> rules[i].state == WAITING
    ensures Leading(rules) < |rules| ==> rules[Leading(rules)].state != WAITING
  {
    if rules != [] && rules[0].state == WAITING {
      LeadingMeaning(rules[1..]);
    }
  }

  lemma {:induction false} LeadingIs(rules: seq<Rule>, at: nat)
    requires at <= |rules| && (forall i :: 0 <= i < at ==> rules[i].state == WAITING)
    requires at < |rules| ==> rules[at].state != WAITING
    ensures Leading(rules) == at
  {
    if at > 0 {
      LeadingIs(rules[1..], at - 1);
    }
  }

  /** `added` are default rules, each for a sample no rule of `user` reads. */
  ghost predicate AddedFor(p: Patterns, user: seq<Rule>, def: seq<Rule>, samples: seq<string>, added: seq<Rule>) {
    |added| <= |samples| && forall d :: d in added ==> d in def && FillsAGap(p, user, samples, d)
  }

  ghost predicate FillsAGap(p: Patterns, user: seq<Rule>, samples: seq<string>, d: Rule) {
    exists sample :: sample in samples && Reads(p, d, sample) && !SomeReads(p, user, sample)
  }

  lemma SplicedReads(p: Patterns, a: seq<Rule>, b: seq<Rule>, c: seq<Rule>, sample: string)
    ensures SomeReads(p, a + b + c, sample) <==> SomeReads(p, a, sample) || SomeReads(p, b, sample) || SomeReads(p, c, sample)
  {
    var all := a + b + c;
    if SomeReads(p, a, sample) {
      var i :| 0 <= i < |a| && Reads(p, a[i], sample);
      assert all[i] == a[i];
    }
    if SomeReads(p, b, sample) {
      var i :| 0 <= i < |b| && Reads(p, b[i], sample);
      assert all[|a| + i] == b[i];
    }
    if SomeReads(p, c, sample) {
      var i :| 0 <= i < |c| && Reads(p, c[i], sample);
      assert all[|a| + |b| + i] == c[i];
    }
  }

  lemma SplicedLeading(user: seq<Rule>, added: seq<Rule>)
    requires forall d :: d in added ==> d.state == WAITING
    ensures var at := Leading(user);
            var rules := user[..at] + added + user[at..];
            && Leading(rules) == at + |added|
            && rules[..at + |added|] == user[..at] + added && rules[at + |added|..] == user[at..]
  {
    var at := Leading(user);
    var rules := user[..at] + added + user[at..];
    LeadingMeaning(user);
    LeadingIs(rules, at + |added|);
  }

  lemma ReadsWithAdded(p: Patterns, user: seq<Rule>, added: seq<Rule>, sample: string)
    ensures var at := Leading(user);
            SomeReads(p, user[..at] + added + user[at..], sample) <==> SomeReads(p, user, sample) || SomeReads(p, added, sample)
  {
    var at := Leading(user);
    SplicedReads(p, user[..at], added, user[at..], sample);
    SplicedReads(p, user[..at], [], user[at..], sample);
    assert user[..at] + [] + user[at..] == user;
  }

  /** A rule added for one more sample goes after the ones added before it. */
  lemma AddOne(p: Patterns, user: seq<Rule>, def: seq<Rule>, samples: seq<string>, added: seq<Rule>, sample: string) returns (more: seq<Rule>)
    requires AddedFor(p, user, def, samples, added)
    ensures var at := Leading(user);
            WithRuleFor(p, sample, user[..at] + added + user[at..], def) == user[..at] + more + user[at..]
    ensures AddedFor(p, user, def, samples + [sample], more)
  {
    var at, d := Leading(user), FirstReading(p, def, sample);
    var rules := user[..at] + added + user[at..];
    ReadsWithAdded(p, user, added, sample);
    var last := if SomeReads(p, rules, sample) || d.None? then [] else [d.value];
    more := added + last;
    SampleMore(p, user, def, samples, added, sample, last);
    if last == [] {
      assert more == added;
    } else {
      AddedWait(p, user, def, samples, added);
      SplicedLeading(user, added);
      assert user[..at] + added + last + user[at..] == user[..at] + more + user[at..];
    }
  }

  /** The rules that fill gaps for some samples, and one that fills the gap for one sample more. */
  lemma SampleMore(p: Patterns, user: seq<Rule>, def: seq<Rule>, samples: seq<string>, added: seq<Rule>, sample: string, last: seq<Rule>)
    requires AddedFor(p, user, def, samples, added) && |last| <= 1
    requires forall d :: d in last ==> d in def && Reads(p, d, sample) && !SomeReads(p, user, sample)
    ensures AddedFor(p, user, def, samples + [sample], added + last)
  {
    forall d | d in added + last ensures d in def && FillsAGap(p, user, samples + [sample], d) {
      if d in added {
        var s :| s in samples && Reads(p, d, s) && !SomeReads(p, user, s);
        assert s in samples + [sample];
      } else {
        assert sample in samples + [sample] && Reads(p, d, sample);
      }
    }
  }

  /** Adding dialog rules keeps all the rules given, in order, and puts what it adds in one place: right after
      the waiting rules that lead the list. What it adds are default waiting rules, each reading a sample none
      of the given rules reads. */
  lemma {:induction false} DialogRulesAreInserted(p: Patterns, user: seq<Rule>, def: seq<Rule>, samples: seq<string>)
      returns (added: seq<Rule>)
    ensures WithDialogRules(p, user, def, samples) == user[..Leading(user)] + added + user[Leading(user)..]
    ensures AddedFor(p, user, def, samples, added)
  {
    if samples == [] {
      added := [];
      assert user[..Leading(user)] + [] + user[Leading(user)..] == user;
    } else {
      var n := |samples| - 1;
      var before := DialogRulesAreInserted(p, user, def, samples[..n]);
      added := AddOne(p, user, def, samples[..n], before, samples[n]);
      assert samples == samples[..n] + [samples[n]];
    }
  }

  /** Every sample some default rule reads is read by a rule. */
  ghost predicate Covered(p: Patterns, rules: seq<Rule>, def: seq<Rule>, samples: seq<string>) {
    forall s :: s in samples ==> CoveredOne(p, rules, def, s)
  }

  predicate CoveredOne(p: Patterns, rules: seq<Rule>, def: seq<Rule>, sample: string) {
    SomeReads(p, def, sample) ==> SomeReads(p, rules, sample)
  }

  lemma WithRuleCovers(p: Patterns, sample: string, user: seq<Rule>, def: seq<Rule>)
    ensures CoveredOne(p, WithRuleFor(p, sample, user, def), def, sample)
    ensures forall s :: SomeReads(p, user, s) ==> SomeReads(p, WithRuleFor(p, sample, user, def), s)
  {
    var at, d := Leading(user), FirstReading(p, def, sample);
    if !SomeReads(p, user, sample) && d.Some? {
      assert Reads(p, [d.value][0], sample);
      SplicedReads(p, user[..at], [d.value], user[at..], sample);
      assert user[..at] + [] + user[at..] == user;
      forall s | SomeReads(p, user, s) ensures SomeReads(p, user[..at] + [d.value] + user[at..], s) {
        SplicedReads(p, user[..at], [d.value], user[at..], s);
        SplicedReads(p, user[..at], [], user[at..], s);
      }
    }
  }

  /** It leaves every sample a default waiting rule reads covered. */
  lemma {:induction false} DialogRulesCover(p: Patterns, user: seq<Rule>, def: seq<Rule>, samples: seq<string>)
    ensures Covered(p, WithDialogRules(p, user, def, samples), def, samples)
  {
    if samples != [] {
      var n := |samples| - 1;
      var before := WithDialogRules(p, user, def, samples[..n]);
      DialogRulesCover(p, user, def, samples[..n]);
      WithRuleCovers(p, samples[n], before, def);
      forall s | s in samples ensures CoveredOne(p, WithDialogRules(p, user, def, samples), def, s) {
        assert s == samples[n] || s in samples[..n];
        assert s in samples[..n] ==> CoveredOne(p, before, def, s);
      }
    }
  }

  /** Rules that cover the samples are left as they are. */
  lemma {:induction false} CoveredIsUnchanged(p: Patterns, rules: seq<Rule>, def: seq<Rule>, samples: seq<string>)
    requires Covered(p, rules, def, samples)
    ensures WithDialogRules(p, rules, def, samples) == rules
  {
    if samples != [] {
      var n := |samples| - 1;
      assert forall s :: s in samples[..n] ==> s in samples;
      CoveredIsUnchanged(p, rules, def, samples[..n]);
      assert samples[n] in samples && CoveredOne(p, rules, def, samples[n]);
      ReadingIsSome(p, def, samples[n]);
    }
  }

  lemma ReadingIsSome(p: Patterns, def: seq<Rule>, sample: string)
    ensures FirstReading(p, def, sample).Some? ==> SomeReads(p, def, sample)
  {
    var d := FirstReading(p, def, sample);
    if d.Some? {
      var i :| 0 <= i < |def| && def[i] == d.value;
    }
  }

  // ---- merging settles in one pass -----------------------------------------------------------------

  /** The defaults carry no superseded rule. */
  ghost predicate UpToDate(p: Patterns, def: seq<Rule>) {
    forall d, u :: d in def ==> !Superseded(p, u, d)
  }

  /** No rule is left that an upgrade would change. */
  ghost predicate Settled(p: Patterns, u: Upgrade, rules: seq<Rule>, def: seq<Rule>) {
    forall r :: r in rules ==> SettledRule(p, u, r, def)
  }

  predicate SettledRule(p: Patterns, u: Upgrade, r: Rule, def: seq<Rule>) {
    Superseded(p, u, r) ==> FirstReplacing(p, u, r, def).None?
  }

  lemma UpgradedSettles(p: Patterns, u: Upgrade, rules: seq<Rule>, def: seq<Rule>)
    requires UpToDate(p, def)
    ensures Settled(p, u, Upgraded(p, u, rules, def), def)
    ensures forall v :: Settled(p, v, rules, def) ==> Settled(p, v, Upgraded(p, u, rules, def), def)
  {
    var out := Upgraded(p, u, rules, def);
    forall r, v | r in out && (v == u || Settled(p, v, rules, def)) ensures SettledRule(p, v, r, def) {
      var i :| 0 <= i < |out| && out[i] == r;
      assert rules[i] in rules;
      assert r == rules[i] || r in def;
      assert v != u ==> SettledRule(p, v, rules[i], def);
    }
  }

  lemma SettledIsUnchanged(p: Patterns, u: Upgrade, rules: seq<Rule>, def: seq<Rule>)
    requires Settled(p, u, rules, def)
    ensures Upgraded(p, u, rules, def) == rules
  {
    forall i | 0 <= i < |rules| ensures Upgraded(p, u, rules, def)[i] == rules[i] {
      assert rules[i] in rules && SettledRule(p, u, rules[i], def);
    }
  }

  lemma InsertedStaysSettled(p: Patterns, u: Upgrade, rules: seq<Rule>, def: seq<Rule>, samples: seq<string>)
    requires UpToDate(p, def) && Settled(p, u, rules, def)
    ensures Settled(p, u, WithDialogRules(p, rules, def, samples), def)
  {
    var out := WithDialogRules(p, rules, def, samples);
    var added := DialogRulesAreInserted(p, rules, def, samples);
    forall r | r in out ensures SettledRule(p, u, r, def) {
      assert r in rules || r in added;
    }
  }

  lemma DefaultsAreSettled(p: Patterns, u: Upgrade, def: seq<Rule>)
    requires UpToDate(p, def)
    ensures Settled(p, u, def, def)
  {
  }

  /** Replacing status rules touches no waiting rule. */
  lemma StatusKeepsCover(p: Patterns, rules: seq<Rule>, def: seq<Rule>, samples: seq<string>)
    requires Covered(p, rules, def, samples)
    ensures Covered(p, Upgraded(p, Status, rules, def), def, samples)
  {
    var out := Upgraded(p, Status, rules, def);
    forall s | s in samples ensures CoveredOne(p, out, def, s) {
      assert CoveredOne(p, rules, def, s);
      if SomeReads(p, rules, s) {
        var i :| 0 <= i < |rules| && Reads(p, rules[i], s);
        assert out[i] == rules[i];
      }
    }
  }

  lemma MergedIsNotEmpty(p: Patterns, name: string, user: seq<Rule>, def: seq<Rule>)
    ensures MergedRules(p, name, user, def) == [] ==> def == []
  {
    if user != [] {
      var samples := p.samples(name);
      var added := DialogRulesAreInserted(p, user, def, samples);
      var kept := Upgraded(p, OneLine, Upgraded(p, Bare, user, def), def);
      var more := DialogRulesAreInserted(p, kept, def, samples);
    }
  }

  /** Merging a tool's rules with the same defaults a second time changes nothing. */
  lemma RulesMergedTwice(p: Patterns, name: string, user: seq<Rule>, def: seq<Rule>)
    requires UpToDate(p, def)
    ensures MergedRules(p, name, MergedRules(p, name, user, def), def) == MergedRules(p, name, user, def)
  {
    var once, samples := MergedRules(p, name, user, def), p.samples(name);
    MergedIsSettled(p, name, user, def);
    MergedIsNotEmpty(p, name, user, def);
    if name == CLAUDE {
      SettledIsUnchanged(p, Bare, once, def);
      SettledIsUnchanged(p, OneLine, once, def);
      CoveredIsUnchanged(p, once, def, samples);
    } else if name == OPENCODE {
      CoveredIsUnchanged(p, once, def, samples);
    } else if name == CODEX {
      CoveredIsUnchanged(p, once, def, samples);
      SettledIsUnchanged(p, Status, once, def);
    }
  }

  lemma MergedIsSettled(p: Patterns, name: string, user: seq<Rule>, def: seq<Rule>)
    requires UpToDate(p, def)
    ensures var once := MergedRules(p, name, user, def);
            && (name in {CLAUDE, OPENCODE, CODEX} ==> Covered(p, once, def, p.samples(name)))
            && (name == CLAUDE ==> Settled(p, Bare, once, def) && Settled(p, OneLine, once, def))
            && (name == CODEX ==> Settled(p, Status, once, def))
  {
    var samples := p.samples(name);
    if user == [] {
      DefaultsAreSettled(p, Bare, def);
      DefaultsAreSettled(p, OneLine, def);
      DefaultsAreSettled(p, Status, def);
    } else if name == CLAUDE {
      var first := Upgraded(p, Bare, user, def);
      var second := Upgraded(p, OneLine, first, def);
      UpgradedSettles(p, Bare, user, def);
      UpgradedSettles(p, OneLine, first, def);
      InsertedStaysSettled(p, Bare, second, def, samples);
      InsertedStaysSettled(p, OneLine, second, def, samples);
      DialogRulesCover(p, second, def, samples);
    } else if name == OPENCODE {
      DialogRulesCover(p, user, def, samples);
    } else if name == CODEX {
      DialogRulesCover(p, user, def, samples);
      StatusKeepsCover(p, WithDialogRules(p, user, def, samples), def, samples);
      UpgradedSettles(p, Status, WithDialogRules(p, user, def, samples), def);
    }
  }

  // ---- the other fields ----------------------------------------------------------------------------

  /** A tool block; a field it does not set has the zero value. `shell` is a flag only the block's author
      sets. */
  datatype Tool = Tool(texts: map<string, string>, lists: map<string, seq<string>>, delays: map<string, int>,
                       flags: map<string, bool>, shell: bool, rules: seq<Rule>)

  function TextOf(t: Tool, field: string): string {
    if field in t.texts then t.texts[field] else ""
  }

  function ListOf(t: Tool, field: string): seq<string> {
    if field in t.lists then t.lists[field] else []
  }

  function DelayOf(t: Tool, field: string): int {
    if field in t.delays then t.delays[field] else 0
  }

  function FlagOf(t: Tool, field: string): bool {
    field in t.flags && t.flags[field]
  }

  function MergedText(p: Patterns, name: string, field: string, own: string, def: string): string {
    var filled := if own == "" then def else own;
    if p.oldText(name, field, filled) then def else filled
  }

  function MergedTool(p: Patterns, name: string, user: Tool, def: Tool): Tool {
    Tool(
      map f | f in user.texts.Keys + def.texts.Keys :: MergedText(p, name, f, TextOf(user, f), TextOf(def, f)),
      map f | f in user.lists.Keys + def.lists.Keys :: if ListOf(user, f) == [] then ListOf(def, f) else ListOf(user, f),
      map f | f in user.delays.Keys + def.delays.Keys :: if DelayOf(user, f) <= 0 then DelayOf(def, f) else DelayOf(user, f),
      map f | f in user.flags.Keys + def.flags.Keys :: FlagOf(user, f) || FlagOf(def, f),
      user.shell,
      MergedRules(p, name, user.rules, def.rules))
  }

  lemma TextsMergedTwice(p: Patterns, name: string, user: Tool, def: Tool)
    ensures MergedTool(p, name, MergedTool(p, name, user, def), def).texts == MergedTool(p, name, user, def).texts
  {
    var once := MergedTool(p, name, user, def);
    var twice := MergedTool(p, name, once, def).texts;
    forall f | f in twice ensures f in once.texts && twice[f] == once.texts[f] {
      assert once.texts[f] == MergedText(p, name, f, TextOf(user, f), TextOf(def, f));
      assert twice[f] == MergedText(p, name, f, once.texts[f], TextOf(def, f));
    }
  }

  lemma ListsMergedTwice(p: Patterns, name: string, user: Tool, def: Tool)
    ensures MergedTool(p, name, MergedTool(p, name, user, def), def).lists == MergedTool(p, name, user, def).lists
  {
    var once := MergedTool(p, name, user, def);
    var twice := MergedTool(p, name, once, def).lists;
    forall f | f in twice ensures f in once.lists && twice[f] == once.lists[f] {
      assert ListOf(once, f) == once.lists[f];
    }
  }

  lemma DelaysMergedTwice(p: Patterns, name: string, user: Tool, def: Tool)
    ensures MergedTool(p, name, MergedTool(p, name, user, def), def).delays == MergedTool(p, name, user, def).delays
  {
    var once := MergedTool(p, name, user, def);
    var twice := MergedTool(p, name, once, def).delays;
    forall f | f in twice ensures f in once.delays && twice[f] == once.delays[f] {
      assert DelayOf(once, f) == once.delays[f];
    }
  }

  lemma FlagsMergedTwice(p: Patterns, name: string, user: Tool, def: Tool)
    ensures MergedTool(p, name, MergedTool(p, name, user, def), def).flags == MergedTool(p, name, user, def).flags
  {
    var once := MergedTool(p, name, user, def);
    var twice := MergedTool(p, name, once, def).flags;
    forall f | f in twice ensures f in once.flags && twice[f] == once.flags[f] {
      assert FlagOf(once, f) == once.flags[f];
    }
  }

  /** Merging a tool block with the same defaults twice equals merging it once, as long as the defaults carry
      no superseded rule. */
  lemma ToolMergedTwice(p: Patterns, name: string, user: Tool, def: Tool)
    requires UpToDate(p, def.rules)
    ensures MergedTool(p, name, MergedTool(p, name, user, def), def) == MergedTool(p, name, user, def)
  {
    TextsMergedTwice(p, name, user, def);
    ListsMergedTwice(p, name, user, def);
    DelaysMergedTwice(p, name, user, def);
    FlagsMergedTwice(p, name, user, def);
    RulesMergedTwice(p, name, user.rules, def.rules);
  }

  /** A field that is not set reads as the zero value. */
  lemma FieldsRead(t: Tool, f: string)
    ensures TextOf(t, f) == "" || (f in t.texts && TextOf(t, f) == t.texts[f])
    ensures ListOf(t, f) == [] || (f in t.lists && ListOf(t, f) == t.lists[f])
    ensures DelayOf(t, f) == 0 || (f in t.delays && DelayOf(t, f) == t.delays[f])
    ensures f in t.texts ==> t.texts[f] == TextOf(t, f)
    ensures f in t.lists ==> t.lists[f] == ListOf(t, f)
    ensures f in t.delays ==> t.delays[f] == DelayOf(t, f)
  {
  }

  /** Field by field: what the author set stands, but for a text an older release shipped; what is not set is the
      default's. A flag is up when either has it up, and only the author says that a block is a shell. */
  lemma FieldsMerged(p: Patterns, name: string, user: Tool, def: Tool, f: string)
    ensures var merged := MergedTool(p, name, user, def);
            && TextOf(merged, f) == (if TextOf(user, f) != "" && !p.oldText(name, f, TextOf(user, f)) then TextOf(user, f)
                                     else TextOf(def, f))
            && ListOf(merged, f) == (if ListOf(user, f) != [] then ListOf(user, f) else ListOf(def, f))
            && DelayOf(merged, f) == (if DelayOf(user, f) > 0 then DelayOf(user, f) else DelayOf(def, f))
            && ((f in merged.flags && merged.flags[f]) <==>
                  (f in user.flags && user.flags[f]) || (f in def.flags && def.flags[f]))
            && merged.shell == user.shell
            && (user.rules == [] ==> merged.rules == def.rules)
  {
  }

  /** What an author wrote stands: any text that is not one an older release shipped, and every rule that is
      not, at its place among the others. Whatever is new among the rules is a default waiting rule, behind
      the waiting rules that lead the list. */
  lemma AuthorsWordStands(p: Patterns, name: string, user: Tool, def: Tool) returns (kept: seq<Rule>, added: seq<Rule>)
    requires user.rules != []
    ensures var merged := MergedTool(p, name, user, def);
            && (forall f :: TextOf(user, f) != "" && !p.oldText(name, f, TextOf(user, f)) ==> TextOf(merged, f) == TextOf(user, f))
            && merged.shell == user.shell
            && |kept| == |user.rules|
            && (name !in {CLAUDE, CODEX} ==> kept == user.rules)
            && (name == CLAUDE ==> forall i :: 0 <= i < |kept| ==>
                  kept[i] == Fixed(p, OneLine, def.rules, Fixed(p, Bare, def.rules, user.rules[i])))
            && (name == CODEX ==> forall i :: 0 <= i < |kept| ==> kept[i] == Fixed(p, Status, def.rules, user.rules[i]))
            && (name !in {CLAUDE, OPENCODE, CODEX} ==> added == [])
            && (forall i :: 0 <= i < |kept| && (forall u :: !Superseded(p, u, user.rules[i])) ==> kept[i] == user.rules[i])
            && BehindLead(kept, added, merged.rules)
    ensures forall d :: d in added ==> d in def.rules && d.state == WAITING
  {
    kept, added := RulesStand(p, name, user.rules, def.rules);
    forall f ensures TextOf(user, f) != "" && !p.oldText(name, f, TextOf(user, f)) ==>
                       TextOf(MergedTool(p, name, user, def), f) == TextOf(user, f)
    {
      FieldsMerged(p, name, user, def, f);
    }
    forall i | 0 <= i < |kept| && (forall u :: !Superseded(p, u, user.rules[i])) ensures kept[i] == user.rules[i] {
      assert !Superseded(p, Bare, user.rules[i]) && !Superseded(p, OneLine, user.rules[i]) && !Superseded(p, Status, user.rules[i]);
    }
  }

  /** What becomes of each rule of each tool, and what is inserted behind them. */
  lemma RulesStand(p: Patterns, name: string, rules: seq<Rule>, def: seq<Rule>) returns (kept: seq<Rule>, added: seq<Rule>)
    requires rules != []
    ensures |kept| == |rules|
    ensures name !in {CLAUDE, CODEX} ==> kept == rules
    ensures name == CLAUDE ==> forall i :: 0 <= i < |kept| ==> kept[i] == Fixed(p, OneLine, def, Fixed(p, Bare, def, rules[i]))
    ensures name == CODEX ==> forall i :: 0 <= i < |kept| ==> kept[i] == Fixed(p, Status, def, rules[i])
    ensures name !in {CLAUDE, OPENCODE, CODEX} ==> added == []
    ensures BehindLead(kept, added, MergedRules(p, name, rules, def))
    ensures forall d :: d in added ==> d in def && d.state == WAITING
  {
    var samples := p.samples(name);
    if name == CLAUDE {
      kept := Upgraded(p, OneLine, Upgraded(p, Bare, rules, def), def);
      added := InsertedBehindLead(p, kept, def, samples);
    } else if name == OPENCODE {
      kept := rules;
      added := InsertedBehindLead(p, kept, def, samples);
    } else if name == CODEX {
      kept := Upgraded(p, Status, rules, def);
      added := StatusBehindLead(p, rules, def, samples);
    } else {
      kept, added := rules, [];
      LeadingMeaning(kept);
      assert WaitingLead(kept, Leading(kept)) && kept == kept[..Leading(kept)] + added + kept[Leading(kept)..];
    }
  }

  ghost predicate BehindLead(kept: seq<Rule>, added: seq<Rule>, merged: seq<Rule>) {
    exists at :: WaitingLead(kept, at) && merged == kept[..at] + added + kept[at..]
  }

  lemma InsertedBehindLead(p: Patterns, kept: seq<Rule>, def: seq<Rule>, samples: seq<string>) returns (added: seq<Rule>)
    ensures BehindLead(kept, added, WithDialogRules(p, kept, def, samples))
    ensures forall d :: d in added ==> d in def && d.state == WAITING
  {
    added := DialogRulesAreInserted(p, kept, def, samples);
    AddedWait(p, kept, def, samples, added);
    LeadingMeaning(kept);
    assert WaitingLead(kept, Leading(kept));
  }

  lemma StatusBehindLead(p: Patterns, rules: seq<Rule>, def: seq<Rule>, samples: seq<string>) returns (added: seq<Rule>)
    ensures BehindLead(Upgraded(p, Status, rules, def), added, Upgraded(p, Status, WithDialogRules(p, rules, def, samples), def))
    ensures forall d :: d in added ==> d in def && d.state == WAITING
  {
    added := DialogRulesAreInserted(p, rules, def, samples);
    AddedWait(p, rules, def, samples, added);
    StatusOfInserted(p, rules, added, def, Leading(rules));
    LeadingMeaning(rules);
    assert WaitingLead(Upgraded(p, Status, rules, def), Leading(rules));
  }

  lemma AddedWait(p: Patterns, user: seq<Rule>, def: seq<Rule>, samples: seq<string>, added: seq<Rule>)
    requires AddedFor(p, user, def, samples, added)
    ensures forall d :: d in added ==> d in def && d.state == WAITING
  {
    forall d | d in added ensures d.state == WAITING {
      assert FillsAGap(p, user, samples, d);
    }
  }

  lemma StatusOfInserted(p: Patterns, rules: seq<Rule>, added: seq<Rule>, def: seq<Rule>, at: nat)
    requires at <= |rules| && forall d :: d in added ==> d.state == WAITING
    ensures var kept := Upgraded(p, Status, rules, def);
            Upgraded(p, Status, rules[..at] + added + rules[at..], def) == kept[..at] + added + kept[at..]
  {
    var kept, all := Upgraded(p, Status, rules, def), rules[..at] + added + rules[at..];
    var left, right := Upgraded(p, Status, all, def), kept[..at] + added + kept[at..];
    forall i | 0 <= i < |all| ensures left[i] == right[i] {
      assert at <= i < at + |added| ==> all[i] == added[i - at] && added[i - at] in added;
    }
  }
}
