/** What every linking pass concludes: no conversation twice, nothing admissible left out without cause,
    one answer per board whatever the order of its panes and conversations, and evidence in tiers. */
module LinkFacts {
  import opened Text
  import opened LinkSpec

  // ---- the greedy pass, by position ----------------------------------------------------------------

  lemma {:induction false} GreedyInjective(pairs: seq<Pairing>)
    ensures forall x :: x in Greedy(pairs) ==> x in pairs
    ensures forall x, y :: x in Greedy(pairs) && y in Greedy(pairs) && Clash(x, y) ==> x == y
  {
    if pairs != [] {
      GreedyInjective(pairs[..|pairs| - 1]);
    }
  }

  /** A pair left out clashes with a chosen one that was placed before it. */
  lemma {:induction false} GreedyBlocked(pairs: seq<Pairing>, i: nat)
    requires i < |pairs| && pairs[i] !in Greedy(pairs)
    ensures exists j :: 0 <= j < i && pairs[j] in Greedy(pairs) && Clash(pairs[i], pairs[j])
  {
    var n := |pairs| - 1;
    var init := pairs[..n];
    if i < n {
      GreedyBlocked(init, i);
      var j :| 0 <= j < i && init[j] in Greedy(init) && Clash(init[i], init[j]);
      assert pairs[j] in Greedy(pairs) && Clash(pairs[i], pairs[j]);
    } else {
      var y :| y in Greedy(init) && Clash(pairs[i], y);
      GreedyInjective(init);
      var j :| 0 <= j < n && init[j] == y;
      assert pairs[j] in Greedy(pairs);
    }
  }

  /** The contract of a linking pass, with nothing assumed of the board: no conversation serves two panes and
      no pane two conversations, every admissible pair left out shares its pane or its conversation with a
      chosen pair that does not sort after it, and every pane is matched or unresolved. */
  lemma MatchingIsStable(b: Board, pairs: seq<Pairing>, a: Assignment)
    requires Links(b, pairs, a)
    ensures forall x :: x in Greedy(pairs) ==> Admitted(b, x)
    ensures forall x, y :: x in Greedy(pairs) && y in Greedy(pairs) && Clash(x, y) ==> x == y
    ensures forall x :: Admitted(b, x) && x !in Greedy(pairs) ==>
              exists y :: y in Greedy(pairs) && Clash(x, y) && !Before(PairOf(b, x), PairOf(b, y))
    ensures forall p :: p in b.panes ==> (p.key in a.matched <==> p.key !in a.unresolved)
    ensures forall key :: key in a.unresolved ==> exists p :: p in b.panes && p.key == key
  {
    GreedyInjective(pairs);
    forall x | Admitted(b, x) && x !in Greedy(pairs)
      ensures exists y :: y in Greedy(pairs) && Clash(x, y) && !Before(PairOf(b, x), PairOf(b, y))
    {
      assert x == PairingAt(b, x.pane, x.convo);
      var i :| 0 <= i < |pairs| && pairs[i] == x;
      GreedyBlocked(pairs, i);
      var j :| 0 <= j < i && pairs[j] in Greedy(pairs) && Clash(pairs[i], pairs[j]);
      assert !Before(PairOf(b, pairs[i]), PairOf(b, pairs[j]));
    }
    UnmatchedMeaning(b.panes, a.matched);
  }

  lemma {:induction false} UnmatchedMeaning(panes: seq<Pane>, matched: map<string, Match>)
    ensures forall p :: p in panes ==> (p.key in matched <==> p.key !in Unmatched(panes, matched))
    ensures forall key :: key in Unmatched(panes, matched) ==>
              key !in matched && exists p :: p in panes && p.key == key
  {
    if panes != [] {
      var init, last := panes[..|panes| - 1], panes[|panes| - 1];
      UnmatchedMeaning(init, matched);
      assert forall p :: p in panes <==> p in init || p == last;
    }
  }

  // ---- the matching, by value ----------------------------------------------------------------------

  ghost predicate AdmittedPair(b: Board, x: Pair) {
    x.pane in b.panes && x.convo in b.convos && Offer(b, x.pane, x.convo) == Some(x.signals)
  }

  predicate Shares(x: Pair, y: Pair) {
    x.pane == y.pane || x.convo == y.convo
  }

  /** A set of admissible pairs, injective both ways, such that each admissible pair outside it shares its
      pane or its conversation with one inside that sorts strictly ahead. */
  ghost predicate Stable(b: Board, chosen: set<Pair>) {
    && (forall x :: x in chosen ==> AdmittedPair(b, x))
    && (forall x, y :: x in chosen && y in chosen && Shares(x, y) ==> x == y)
    && (forall x :: AdmittedPair(b, x) && x !in chosen ==> exists y :: y in chosen && Shares(x, y) && Before(y, x))
  }

  lemma {:induction false} FirstOf(d: set<Pair>) returns (x: Pair)
    requires d != {}
    ensures x in d && forall y :: y in d ==> !Before(y, x)
    decreases |d|
  {
    x :| x in d;
    var rest := d - {x};
    BeforeAsymmetric(x, x);
    if rest != {} {
      var z := FirstOf(rest);
      if Before(z, x) {
        forall y | y in d ensures !Before(y, z) {
          BeforeAsymmetric(x, z);
        }
        x := z;
      } else {
        forall y | y in d ensures !Before(y, x) {
          if y != x {
            NotAfterTransitive(x, z, y);
          }
        }
      }
    }
  }

  ghost predicate SameOffers(a: Board, b: Board) {
    forall x :: AdmittedPair(a, x) <==> AdmittedPair(b, x)
  }

  /** Where two stable matchings disagree, they also disagree on a pair that sorts ahead. */
  lemma EarlierDisagreement(a: Board, b: Board, m: set<Pair>, n: set<Pair>, x: Pair)
    requires Stable(a, m) && Stable(b, n) && SameOffers(a, b)
    requires x in m && x !in n
    ensures exists y :: y in n && y !in m && Before(y, x)
  {
    var y :| y in n && Shares(x, y) && Before(y, x);
  }

  /** Two stable matchings over the same admissible pairs are the same. */
  lemma StableUnique(a: Board, b: Board, m: set<Pair>, n: set<Pair>)
    requires Stable(a, m) && Stable(b, n) && SameOffers(a, b)
    ensures m == n
  {
    var d := (m - n) + (n - m);
    if d != {} {
      var x := FirstOf(d);
      if x in m {
        EarlierDisagreement(a, b, m, n, x);
      } else {
        EarlierDisagreement(b, a, n, m, x);
      }
    }
  }

  // ---- one answer per board ------------------------------------------------------------------------

  /** Pane keys are distinct, and so are the conversations' (tool, id) names. */
  ghost predicate Distinct(b: Board) {
    && (forall i, j :: 0 <= i < j < |b.panes| ==> b.panes[i].key != b.panes[j].key)
    && (forall i, j :: 0 <= i < j < |b.convos| ==>
          b.convos[i].tool != b.convos[j].tool || b.convos[i].id != b.convos[j].id)
  }

  ghost function Values(b: Board, chosen: seq<Pairing>): set<Pair>
    requires forall x :: x in chosen ==> InBoard(b, x)
  {
    set x | x in chosen :: PairOf(b, x)
  }

  lemma SamePair(b: Board, x: Pairing, y: Pairing)
    requires Distinct(b) && Admitted(b, x) && Admitted(b, y)
    ensures b.panes[x.pane].key == b.panes[y.pane].key ==> x.pane == y.pane
    ensures b.panes[x.pane].key == b.panes[y.pane].key && b.convos[x.convo].id == b.convos[y.convo].id ==> x == y
    ensures b.convos[x.convo] == b.convos[y.convo] ==> x.convo == y.convo
  {
    assert b.panes[x.pane].tool == b.convos[x.convo].tool;
    assert b.panes[y.pane].tool == b.convos[y.convo].tool;
  }

  /** On a board with distinct names, the comparator orders admissible pairs strictly and totally. */
  lemma StrictTotalOrder(b: Board, x: Pairing, y: Pairing)
    requires Distinct(b) && Admitted(b, x) && Admitted(b, y) && x != y
    ensures Before(PairOf(b, x), PairOf(b, y)) <==> !Before(PairOf(b, y), PairOf(b, x))
  {
    SamePair(b, x, y);
    BeforeTotal(PairOf(b, x), PairOf(b, y));
    BeforeAsymmetric(PairOf(b, x), PairOf(b, y));
  }

  lemma BlockedBy(b: Board, pairs: seq<Pairing>, a: Assignment, x: Pairing) returns (y: Pairing)
    requires Links(b, pairs, a) && Admitted(b, x) && x !in Greedy(pairs)
    ensures y in Greedy(pairs) && Admitted(b, y) && Clash(x, y) && !Before(PairOf(b, x), PairOf(b, y))
  {
    MatchingIsStable(b, pairs, a);
    y :| y in Greedy(pairs) && Clash(x, y) && !Before(PairOf(b, x), PairOf(b, y));
  }

  /** A chosen pair blocks every admissible pair it clashes with. */
  lemma ChosenBlocks(b: Board, pairs: seq<Pairing>, a: Assignment, u: Pair)
    requires Distinct(b) && Links(b, pairs, a) && AdmittedPair(b, u)
    requires u !in Values(b, Greedy(pairs))
    ensures exists v :: v in Values(b, Greedy(pairs)) && Shares(u, v) && Before(v, u)
  {
    var p :| 0 <= p < |b.panes| && b.panes[p] == u.pane;
    var c :| 0 <= c < |b.convos| && b.convos[c] == u.convo;
    var x := PairingAt(b, p, c);
    assert PairOf(b, x) == u && x !in Greedy(pairs);
    var y := BlockedBy(b, pairs, a, x);
    StrictTotalOrder(b, x, y);
    assert PairOf(b, y) in Values(b, Greedy(pairs)) && Shares(u, PairOf(b, y));
  }

  /** Two chosen pairs of the same pane, pane key or conversation are one. */
  lemma ChosenOnce(b: Board, pairs: seq<Pairing>, a: Assignment, x: Pairing, y: Pairing)
    requires Distinct(b) && Links(b, pairs, a) && x in Greedy(pairs) && y in Greedy(pairs)
    requires b.panes[x.pane].key == b.panes[y.pane].key || b.convos[x.convo] == b.convos[y.convo]
    ensures x == y
  {
    MatchingIsStable(b, pairs, a);
    SamePair(b, x, y);
    assert Clash(x, y);
  }

  lemma ChosenAdmitted(b: Board, pairs: seq<Pairing>, a: Assignment, u: Pair) returns (x: Pairing)
    requires Links(b, pairs, a) && u in Values(b, Greedy(pairs))
    ensures x in Greedy(pairs) && PairOf(b, x) == u && AdmittedPair(b, u)
  {
    GreedyInjective(pairs);
    x :| x in Greedy(pairs) && PairOf(b, x) == u;
    assert Admitted(b, x);
  }

  lemma ChosenIsStable(b: Board, pairs: seq<Pairing>, a: Assignment)
    requires Distinct(b) && Links(b, pairs, a)
    ensures Stable(b, Values(b, Greedy(pairs)))
  {
    var m := Values(b, Greedy(pairs));
    forall u | u in m ensures AdmittedPair(b, u) {
      var _ := ChosenAdmitted(b, pairs, a, u);
    }
    forall u, v | u in m && v in m && Shares(u, v) ensures u == v {
      var x := ChosenAdmitted(b, pairs, a, u);
      var y := ChosenAdmitted(b, pairs, a, v);
      ChosenOnce(b, pairs, a, x, y);
    }
    forall u | AdmittedPair(b, u) && u !in m ensures exists v :: v in m && Shares(u, v) && Before(v, u) {
      ChosenBlocks(b, pairs, a, u);
    }
  }

  /** The matches a set of pairs stands for. */
  ghost predicate Describes(m: set<Pair>, matched: map<string, Match>) {
    && (forall x :: x in m ==> x.pane.key in matched && matched[x.pane.key] == MatchOf(x))
    && (forall key :: key in matched ==> exists x :: x in m && x.pane.key == key)
  }

  lemma DescribesOneMore(m: set<Pair>, matched: map<string, Match>, x: Pair)
    requires Describes(m, matched) && forall y :: y in m && y.pane.key == x.pane.key ==> y == x
    ensures Describes(m + {x}, matched[x.pane.key := MatchOf(x)])
  {
    var after := matched[x.pane.key := MatchOf(x)];
    forall key | key in after ensures exists y :: y in m + {x} && y.pane.key == key {
      if key == x.pane.key {
        assert x in m + {x};
      } else {
        var y :| y in m && y.pane.key == key;
        assert y in m + {x};
      }
    }
  }

  ghost predicate OnePerKey(m: set<Pair>) {
    forall x, y :: x in m && y in m && x.pane.key == y.pane.key ==> x == y
  }

  lemma {:induction false} MatchedDescribes(b: Board, chosen: seq<Pairing>)
    requires forall x :: x in chosen ==> InBoard(b, x)
    requires OnePerKey(Values(b, chosen))
    ensures Describes(Values(b, chosen), MatchedBy(b, chosen))
  {
    if chosen != [] {
      var n := |chosen| - 1;
      var init, last := chosen[..n], chosen[n];
      assert forall x :: x in chosen <==> x in init || x == last;
      assert Values(b, chosen) == Values(b, init) + {PairOf(b, last)};
      MatchedDescribes(b, init);
      DescribesOneMore(Values(b, init), MatchedBy(b, init), PairOf(b, last));
    }
  }

  /** The same panes and the same conversations, each in any order. */
  ghost predicate Rearranged(a: Board, b: Board) {
    multiset(a.panes) == multiset(b.panes) && multiset(a.convos) == multiset(b.convos) && a.shows == b.shows
  }

  lemma WithoutOne<T>(t: seq<T>, k: nat)
    requires k < |t|
    ensures multiset(t[..k] + t[k + 1..]) == multiset(t) - multiset{t[k]}
  {
    assert t == t[..k] + [t[k]] + t[k + 1..];
  }

  lemma {:induction false} PaneCountWithout(t: seq<Pane>, k: nat, bucket: string)
    requires k < |t|
    ensures PaneCount(t, bucket) ==
            PaneCount(t[..k] + t[k + 1..], bucket) + if Bucket(t[k].tool, t[k].cwd) == bucket then 1 else 0
  {
    var n := |t| - 1;
    if k == n {
      assert t[..k] + t[k + 1..] == t[..n];
    } else {
      PaneCountWithout(t[..n], k, bucket);
      assert (t[..k] + t[k + 1..])[..n - 1] == t[..n][..k] + t[..n][k + 1..];
    }
  }

  lemma {:induction false} PaneCountRearranged(s: seq<Pane>, t: seq<Pane>, bucket: string)
    requires multiset(s) == multiset(t)
    ensures PaneCount(s, bucket) == PaneCount(t, bucket)
  {
    if s == [] {
      assert |multiset(t)| == 0;
    } else {
      var n := |s| - 1;
      assert s[n] in multiset(t);
      var k :| 0 <= k < |t| && t[k] == s[n];
      WithoutOne(s, n);
      WithoutOne(t, k);
      PaneCountRearranged(s[..n] + s[n + 1..], t[..k] + t[k + 1..], bucket);
      PaneCountWithout(s, n, bucket);
      PaneCountWithout(t, k, bucket);
    }
  }

  lemma {:induction false} ConvoCountWithout(t: seq<Conversation>, k: nat, bucket: string)
    requires k < |t|
    ensures ConvoCount(t, bucket) ==
            ConvoCount(t[..k] + t[k + 1..], bucket) + if Bucket(t[k].tool, t[k].cwd) == bucket then 1 else 0
  {
    var n := |t| - 1;
    if k == n {
      assert t[..k] + t[k + 1..] == t[..n];
    } else {
      ConvoCountWithout(t[..n], k, bucket);
      assert (t[..k] + t[k + 1..])[..n - 1] == t[..n][..k] + t[..n][k + 1..];
    }
  }

  lemma {:induction false} ConvoCountRearranged(s: seq<Conversation>, t: seq<Conversation>, bucket: string)
    requires multiset(s) == multiset(t)
    ensures ConvoCount(s, bucket) == ConvoCount(t, bucket)
  {
    if s == [] {
      assert |multiset(t)| == 0;
    } else {
      var n := |s| - 1;
      assert s[n] in multiset(t);
      var k :| 0 <= k < |t| && t[k] == s[n];
      WithoutOne(s, n);
      WithoutOne(t, k);
      ConvoCountRearranged(s[..n] + s[n + 1..], t[..k] + t[k + 1..], bucket);
      ConvoCountWithout(s, n, bucket);
      ConvoCountWithout(t, k, bucket);
    }
  }

  lemma RearrangedOffers(a: Board, b: Board)
    requires Rearranged(a, b)
    ensures SameOffers(a, b)
  {
    assert forall p :: p in a.panes <==> p in multiset(a.panes);
    assert forall c :: c in a.convos <==> c in multiset(a.convos);
    assert forall p :: p in b.panes <==> p in multiset(b.panes);
    assert forall c :: c in b.convos <==> c in multiset(b.convos);
    forall x ensures AdmittedPair(a, x) <==> AdmittedPair(b, x) {
      var bucket := Bucket(x.pane.tool, x.pane.cwd);
      PaneCountRearranged(a.panes, b.panes, bucket);
      ConvoCountRearranged(a.convos, b.convos, bucket);
      assert Evidence(a, x.pane, x.convo) == Evidence(b, x.pane, x.convo);
    }
  }

  lemma LinkDescribes(b: Board, pairs: seq<Pairing>, a: Assignment)
    requires Distinct(b) && Links(b, pairs, a)
    ensures Describes(Values(b, Greedy(pairs)), a.matched)
  {
    var m := Values(b, Greedy(pairs));
    forall u, v | u in m && v in m && u.pane.key == v.pane.key ensures u == v {
      var x := ChosenAdmitted(b, pairs, a, u);
      var y := ChosenAdmitted(b, pairs, a, v);
      ChosenOnce(b, pairs, a, x, y);
    }
    MatchedDescribes(b, Greedy(pairs));
  }

  lemma DescribesUnique(m: set<Pair>, s: map<string, Match>, t: map<string, Match>)
    requires Describes(m, s) && Describes(m, t)
    ensures s == t
  {
  }

  /** The same board links the same way however its panes and conversations are ordered and however the
      sort breaks ties: the same matches, and the same panes unresolved. */
  lemma LinkIgnoresOrder(a: Board, b: Board, aPairs: seq<Pairing>, bPairs: seq<Pairing>, x: Assignment, y: Assignment)
    requires Distinct(a) && Distinct(b) && Rearranged(a, b)
    requires Links(a, aPairs, x) && Links(b, bPairs, y)
    ensures x.matched == y.matched
    ensures forall key :: key in x.unresolved <==> key in y.unresolved
  {
    ChosenIsStable(a, aPairs, x);
    ChosenIsStable(b, bPairs, y);
    RearrangedOffers(a, b);
    var m, n := Values(a, Greedy(aPairs)), Values(b, Greedy(bPairs));
    StableUnique(a, b, m, n);
    MatchingIsStable(a, aPairs, x);
    MatchingIsStable(b, bPairs, y);
    LinkDescribes(a, aPairs, x);
    LinkDescribes(b, bPairs, y);
    DescribesUnique(m, x.matched, y.matched);
    UnmatchedMeaning(a.panes, x.matched);
    UnmatchedMeaning(b.panes, y.matched);
    assert forall p :: p in a.panes <==> p in multiset(a.panes);
    assert forall p :: p in b.panes <==> p in multiset(b.panes);
  }

  // ---- tiers of evidence ---------------------------------------------------------------------------

  lemma {:induction false} RankAppend(s: seq<Signal>, t: seq<Signal>)
    ensures Rank(s + t) == Rank(s) + Rank(t)
  {
    if t == [] {
      assert s + t == s;
    } else {
      assert (s + t)[..|s + t| - 1] == s + t[..|t| - 1];
      RankAppend(s, t[..|t| - 1]);
    }
  }

  function Worth(signals: seq<Signal>, s: Signal): nat {
    if s in signals then Score(s) else 0
  }

  /** The rank is the sum of what the signals present are worth, and a solo pair shows no identity. */
  ghost predicate Summed(s: seq<Signal>) {
    && Rank(s) == Worth(s, AgentID) + Worth(s, Process) + Worth(s, Tmux) + Worth(s, Cwd) + Worth(s, TextShown)
                  + Worth(s, Solo)
    && (Solo in s ==> AgentID !in s && Process !in s && TextShown !in s)
  }

  lemma AddedSignal(e: seq<Signal>, c: bool, s: Signal)
    requires Summed(e) && Solo !in e && s !in e && s != Solo
    ensures var e' := e + When(c, s);
            Summed(e') && Solo !in e' && (forall t :: t in e' <==> t in e || (c && t == s))
  {
    if c {
      assert (e + [s])[..|e|] == e;
      assert forall t :: t in e + [s] <==> t in e || t == s;
    } else {
      assert e + [] == e;
    }
  }

  lemma FiveSignals(agent: bool, process: bool, tmux: bool, cwd: bool, text: bool)
    ensures var e := When(agent, AgentID) + When(process, Process) + When(tmux, Tmux) + When(cwd, Cwd)
                     + When(text, TextShown);
            Summed(e) && Holds(e, agent, process, tmux, cwd, text)
  {
    var e1 := When(agent, AgentID);
    AddedSignal([], agent, AgentID);
    assert [] + e1 == e1;
    AddedSignal(e1, process, Process);
    var e2 := e1 + When(process, Process);
    AddedSignal(e2, tmux, Tmux);
    var e3 := e2 + When(tmux, Tmux);
    AddedSignal(e3, cwd, Cwd);
    AddedSignal(e3 + When(cwd, Cwd), text, TextShown);
  }

  ghost predicate Holds(e: seq<Signal>, agent: bool, process: bool, tmux: bool, cwd: bool, text: bool) {
    && (AgentID in e <==> agent) && (Process in e <==> process) && (Tmux in e <==> tmux)
    && (Cwd in e <==> cwd) && (TextShown in e <==> text) && Solo !in e
  }

  lemma EvidenceSummed(b: Board, p: Pane, c: Conversation)
    ensures Summed(Evidence(b, p, c)) && Solo !in Evidence(b, p, c)
    ensures Cwd in Evidence(b, p, c) <==> p.cwd != "" && p.cwd == c.cwd
  {
    FiveSignals(p.agentId != "" && p.agentId == c.id, c.pid > 0 && c.pid in p.pids,
                c.tmuxHint != "" && HasSuffix(c.tmuxHint, "." + p.key), p.cwd != "" && p.cwd == c.cwd,
                b.shows(p.text, c.excerpts));
  }

  lemma SoloSummed(e: seq<Signal>)
    requires Summed(e) && Solo !in e && !Accepts(e) && Cwd in e
    ensures Summed(e + [Solo])
  {
    RankAppend(e, [Solo]);
    assert [Solo][..0] == [];
  }

  lemma OfferSummed(b: Board, x: Pair)
    requires AdmittedPair(b, x)
    ensures Summed(x.signals)
  {
    EvidenceSummed(b, x.pane, x.convo);
    if !Accepts(Evidence(b, x.pane, x.convo)) {
      SoloSummed(Evidence(b, x.pane, x.convo));
    }
  }

  lemma SummedTiers(s: seq<Signal>, t: seq<Signal>)
    requires Summed(s) && Summed(t)
    ensures AgentID in s && AgentID !in t ==> Rank(s) > Rank(t)
    ensures Process in s && AgentID !in t && Process !in t ==> Rank(s) > Rank(t)
  {
  }

  /** A launched-with id outranks everything without one, and a process everything that is no identity. */
  lemma IdentitiesOutrank(b: Board, x: Pair, y: Pair)
    requires AdmittedPair(b, x) && AdmittedPair(b, y)
    ensures AgentID in x.signals && AgentID !in y.signals ==> Before(x, y)
    ensures Process in x.signals && AgentID !in y.signals && Process !in y.signals ==> Before(x, y)
  {
    OfferSummed(b, x);
    OfferSummed(b, y);
    SummedTiers(x.signals, y.signals);
  }

  lemma {:induction false} PaneCounted(panes: seq<Pane>, i: nat, bucket: string)
    requires i < |panes| && Bucket(panes[i].tool, panes[i].cwd) == bucket
    ensures PaneCount(panes, bucket) >= 1
    ensures forall j :: 0 <= j < |panes| && j != i && Bucket(panes[j].tool, panes[j].cwd) == bucket ==>
              PaneCount(panes, bucket) >= 2
  {
    var n := |panes| - 1;
    if i < n {
      PaneCounted(panes[..n], i, bucket);
    } else {
      forall j | 0 <= j < n && Bucket(panes[j].tool, panes[j].cwd) == bucket ensures PaneCount(panes, bucket) >= 2 {
        PaneCounted(panes[..n], j, bucket);
      }
    }
  }

  lemma {:induction false} ConvoCounted(convos: seq<Conversation>, i: nat, bucket: string)
    requires i < |convos| && Bucket(convos[i].tool, convos[i].cwd) == bucket
    ensures ConvoCount(convos, bucket) >= 1
    ensures forall j :: 0 <= j < |convos| && j != i && Bucket(convos[j].tool, convos[j].cwd) == bucket ==>
              ConvoCount(convos, bucket) >= 2
  {
    var n := |convos| - 1;
    if i < n {
      ConvoCounted(convos[..n], i, bucket);
    } else {
      forall j | 0 <= j < n && Bucket(convos[j].tool, convos[j].cwd) == bucket ensures ConvoCount(convos, bucket) >= 2 {
        ConvoCounted(convos[..n], j, bucket);
      }
    }
  }

  /** A pair admitted for being alone is contested, on its pane or its conversation, only by an identity. */
  lemma SoloContestedByIdentity(b: Board, x: Pairing, y: Pairing)
    requires Admitted(b, x) && Admitted(b, y) && x != y && Clash(x, y) && Solo in x.signals
    ensures AgentID in y.signals || Process in y.signals
  {
    var p, c := b.panes[x.pane], b.convos[x.convo];
    var bucket := Bucket(p.tool, p.cwd);
    EvidenceSummed(b, p, c);
    EvidenceSummed(b, b.panes[y.pane], b.convos[y.convo]);
    assert p.cwd == c.cwd && p.tool == c.tool;
    if Cwd in y.signals {
      PaneCounted(b.panes, x.pane, bucket);
      ConvoCounted(b.convos, x.convo, bucket);
    }
  }
}
