/** The linking pass as it runs. */
module Linking {
  import opened Text
  import opened LinkSpec
  import opened LinkFacts

  function At(counts: map<string, nat>, bucket: string): nat {
    if bucket in counts then counts[bucket] else 0
  }

  /** How many panes and how many conversations sit in each tool-and-directory bucket. */
  method SoloCounts(panes: seq<Pane>, convos: seq<Conversation>)
    returns (panesBy: map<string, nat>, convosBy: map<string, nat>)
    ensures forall bucket :: At(panesBy, bucket) == PaneCount(panes, bucket)
    ensures forall bucket :: At(convosBy, bucket) == ConvoCount(convos, bucket)
  {
    panesBy, convosBy := map[], map[];
    for i := 0 to |panes|
      invariant forall bucket :: At(panesBy, bucket) == PaneCount(panes[..i], bucket)
    {
      assert panes[..i + 1][..i] == panes[..i];
      var bucket := Bucket(panes[i].tool, panes[i].cwd);
      panesBy := panesBy[bucket := At(panesBy, bucket) + 1];
    }
    assert panes[..|panes|] == panes;
    for i := 0 to |convos|
      invariant forall bucket :: At(convosBy, bucket) == ConvoCount(convos[..i], bucket)
    {
      assert convos[..i + 1][..i] == convos[..i];
      var bucket := Bucket(convos[i].tool, convos[i].cwd);
      convosBy := convosBy[bucket := At(convosBy, bucket) + 1];
    }
    assert convos[..|convos|] == convos;
  }

  method CollectEvidence(b: Board, pane: Pane, convo: Conversation) returns (signals: seq<Signal>)
    ensures signals == Evidence(b, pane, convo)
  {
    signals := [];
    if pane.agentId != "" && pane.agentId == convo.id {
      signals := signals + [AgentID];
    }
    if convo.pid > 0 && convo.pid in pane.pids {
      signals := signals + [Process];
    }
    if convo.tmuxHint != "" && HasSuffix(convo.tmuxHint, "." + pane.key) {
      signals := signals + [Tmux];
    }
    if pane.cwd != "" && pane.cwd == convo.cwd {
      signals := signals + [Cwd];
    }
    if b.shows(pane.text, convo.excerpts) {
      signals := signals + [TextShown];
    }
  }

  method RankOf(signals: seq<Signal>) returns (score: nat)
    ensures score == Rank(signals)
  {
    score := 0;
    for i := 0 to |signals|
      invariant score == Rank(signals[..i])
    {
      assert signals[..i + 1][..i] == signals[..i];
      match signals[i]
      case AgentID => score := score + 200;
      case Process => score := score + 100;
      case Tmux => score := score + 20;
      case TextShown => score := score + 10;
      case Cwd => score := score + 5;
      case Solo => score := score + 1;
    }
    assert signals[..|signals|] == signals;
  }

  /** The signals one pair is admitted with, if it is. */
  method Admit(b: Board, pane: Pane, convo: Conversation, panesBy: map<string, nat>, convosBy: map<string, nat>)
    returns (offer: Option<seq<Signal>>)
    requires forall bucket :: At(panesBy, bucket) == PaneCount(b.panes, bucket)
    requires forall bucket :: At(convosBy, bucket) == ConvoCount(b.convos, bucket)
    ensures offer == Offer(b, pane, convo)
  {
    if pane.tool == "" || pane.tool != convo.tool {
      return None;
    }
    var signals := CollectEvidence(b, pane, convo);
    if !Accepts(signals) {
      var bucket := Bucket(pane.tool, pane.cwd);
      if Cwd in signals && At(panesBy, bucket) == 1 && At(convosBy, bucket) == 1 {
        signals := signals + [Solo];
      } else {
        return None;
      }
    }
    return Some(signals);
  }

  /** The offers of pane `p`, by conversation. */
  ghost function Offers(b: Board, p: nat): (offers: seq<Option<seq<Signal>>>)
    requires p < |b.panes|
    ensures |offers| == |b.convos|
  {
    seq(|b.convos|, c requires 0 <= c < |b.convos| => Offer(b, b.panes[p], b.convos[c]))
  }

  /** The pairs the first `n` offers of pane `p` make. */
  ghost function Row(offers: seq<Option<seq<Signal>>>, p: nat, n: nat): seq<Pairing>
    requires n <= |offers|
  {
    if n == 0 then []
    else if offers[n - 1].None? then Row(offers, p, n - 1)
    else Row(offers, p, n - 1) + [Pairing(p, n - 1, offers[n - 1].value, Rank(offers[n - 1].value))]
  }

  /** The offers of every pane. */
  ghost function Table(b: Board): (table: seq<seq<Option<seq<Signal>>>>)
    ensures |table| == |b.panes|
  {
    seq(|b.panes|, p requires 0 <= p < |b.panes| => Offers(b, p))
  }

  ghost function Rows(table: seq<seq<Option<seq<Signal>>>>, m: nat): seq<Pairing>
    requires m <= |table|
  {
    if m == 0 then [] else Rows(table, m - 1) + Row(table[m - 1], m - 1, |table[m - 1]|)
  }

  lemma {:induction false} RowPlace(offers: seq<Option<seq<Signal>>>, p: nat, n: nat, x: Pairing) returns (c: nat)
    requires n <= |offers| && x in Row(offers, p, n)
    ensures c < n && offers[c].Some? && x == Pairing(p, c, offers[c].value, Rank(offers[c].value))
  {
    c := n - 1;
    if x in Row(offers, p, n - 1) {
      c := RowPlace(offers, p, n - 1, x);
    }
  }

  lemma {:induction false} RowContains(offers: seq<Option<seq<Signal>>>, p: nat, n: nat, c: nat)
    requires c < n <= |offers| && offers[c].Some?
    ensures Pairing(p, c, offers[c].value, Rank(offers[c].value)) in Row(offers, p, n)
  {
    if c < n - 1 {
      RowContains(offers, p, n - 1, c);
    }
  }

  lemma {:induction false} RowsPlace(table: seq<seq<Option<seq<Signal>>>>, m: nat, x: Pairing) returns (p: nat)
    requires m <= |table| && x in Rows(table, m)
    ensures p < m && x in Row(table[p], p, |table[p]|)
  {
    p := m - 1;
    if x in Rows(table, m - 1) {
      p := RowsPlace(table, m - 1, x);
    }
  }

  lemma {:induction false} RowInRows(table: seq<seq<Option<seq<Signal>>>>, m: nat, p: nat, x: Pairing)
    requires p < m <= |table| && x in Row(table[p], p, |table[p]|)
    ensures x in Rows(table, m)
  {
    if p < m - 1 {
      RowInRows(table, m - 1, p, x);
    }
  }

  lemma RowsAreAll(b: Board)
    ensures AllPairs(b, Rows(Table(b), |b.panes|))
  {
    var table := Table(b);
    forall x | x in Rows(table, |b.panes|) ensures Admitted(b, x) {
      var p := RowsPlace(table, |b.panes|, x);
      var c := RowPlace(table[p], p, |b.convos|, x);
      assert table[p][c] == Offer(b, b.panes[p], b.convos[c]);
    }
    forall p, c | 0 <= p < |b.panes| && 0 <= c < |b.convos| && Offer(b, b.panes[p], b.convos[c]).Some?
      ensures PairingAt(b, p, c) in Rows(table, |b.panes|)
    {
      assert table[p][c] == Offer(b, b.panes[p], b.convos[c]);
      RowContains(table[p], p, |b.convos|, c);
      RowInRows(table, |b.panes|, p, PairingAt(b, p, c));
    }
  }

  /** Every admissible pair, panes outermost. */
  method AllPairings(b: Board) returns (pairs: seq<Pairing>)
    ensures AllPairs(b, pairs)
  {
    var panesBy, convosBy := SoloCounts(b.panes, b.convos);
    pairs := [];
    ghost var table := Table(b);
    for p := 0 to |b.panes|
      invariant pairs == Rows(table, p)
    {
      var row := PairsOfPane(b, p, panesBy, convosBy, table[p]);
      pairs := pairs + row;
    }
    RowsAreAll(b);
  }

  method PairsOfPane(b: Board, p: nat, panesBy: map<string, nat>, convosBy: map<string, nat>,
                     ghost offers: seq<Option<seq<Signal>>>)
    returns (pairs: seq<Pairing>)
    requires p < |b.panes| && offers == Offers(b, p)
    requires forall bucket :: At(panesBy, bucket) == PaneCount(b.panes, bucket)
    requires forall bucket :: At(convosBy, bucket) == ConvoCount(b.convos, bucket)
    ensures pairs == Row(offers, p, |offers|)
  {
    pairs := [];
    for c := 0 to |b.convos|
      invariant pairs == Row(offers, p, c)
    {
      var pair := OfferedPair(b, p, c, panesBy, convosBy, offers);
      if pair.Some? {
        pairs := pairs + [pair.value];
      }
    }
  }

  method OfferedPair(b: Board, p: nat, c: nat, panesBy: map<string, nat>, convosBy: map<string, nat>,
                     ghost offers: seq<Option<seq<Signal>>>)
    returns (pair: Option<Pairing>)
    requires p < |b.panes| && c < |b.convos| && offers == Offers(b, p)
    requires forall bucket :: At(panesBy, bucket) == PaneCount(b.panes, bucket)
    requires forall bucket :: At(convosBy, bucket) == ConvoCount(b.convos, bucket)
    ensures pair == if offers[c].None? then None else Some(Pairing(p, c, offers[c].value, Rank(offers[c].value)))
  {
    var offer := Admit(b, b.panes[p], b.convos[c], panesBy, convosBy);
    if offer.None? {
      return None;
    }
    var rank := RankOf(offer.value);
    pair := Some(Pairing(p, c, offer.value, rank));
  }

  ghost predicate AllInBoard(b: Board, pairs: seq<Pairing>) {
    forall x :: x in pairs ==> InBoard(b, x)
  }

  /** A sort by the comparator; any other sorted permutation would do. */
  method SortPairs(b: Board, pairs: seq<Pairing>) returns (sorted: seq<Pairing>)
    requires AllInBoard(b, pairs)
    ensures multiset(sorted) == multiset(pairs)
    ensures AllInBoard(b, sorted) && Sorted(b, sorted)
  {
    sorted := [];
    for i := 0 to |pairs|
      invariant multiset(sorted) == multiset(pairs[..i])
      invariant AllInBoard(b, sorted) && Sorted(b, sorted)
    {
      assert pairs[..i + 1] == pairs[..i] + [pairs[i]];
      assert pairs[i] in pairs;
      sorted := Insert(b, sorted, pairs[i]);
    }
    assert pairs[..|pairs|] == pairs;
  }

  method Insert(b: Board, sorted: seq<Pairing>, x: Pairing) returns (longer: seq<Pairing>)
    requires InBoard(b, x) && AllInBoard(b, sorted) && Sorted(b, sorted)
    ensures multiset(longer) == multiset(sorted) + multiset{x}
    ensures AllInBoard(b, longer) && Sorted(b, longer)
  {
    var at := 0;
    while at < |sorted| && !Before(PairOf(b, x), PairOf(b, sorted[at]))
      invariant 0 <= at <= |sorted|
      invariant forall j :: 0 <= j < at ==> !Before(PairOf(b, x), PairOf(b, sorted[j]))
    {
      at := at + 1;
    }
    longer := sorted[..at] + [x] + sorted[at..];
    assert sorted == sorted[..at] + sorted[at..];
    InsertedAllSorted(b, sorted, x, at);
  }

  lemma InsertedAllSorted(b: Board, sorted: seq<Pairing>, x: Pairing, at: nat)
    requires InBoard(b, x) && AllInBoard(b, sorted) && Sorted(b, sorted) && at <= |sorted|
    requires forall i :: 0 <= i < at ==> !Before(PairOf(b, x), PairOf(b, sorted[i]))
    requires at < |sorted| ==> Before(PairOf(b, x), PairOf(b, sorted[at]))
    ensures AllInBoard(b, sorted[..at] + [x] + sorted[at..]) && Sorted(b, sorted[..at] + [x] + sorted[at..])
  {
    var longer := sorted[..at] + [x] + sorted[at..];
    InsertedInBoard(b, sorted, x, at);
    forall j, k | 0 <= j < k < |longer| ensures !Before(PairOf(b, longer[k]), PairOf(b, longer[j])) {
      InsertedSorted(b, sorted, x, at, j, k);
    }
  }

  lemma InsertedInBoard(b: Board, sorted: seq<Pairing>, x: Pairing, at: nat)
    requires InBoard(b, x) && AllInBoard(b, sorted) && at <= |sorted|
    ensures AllInBoard(b, sorted[..at] + [x] + sorted[at..])
  {
  }

  lemma InsertedSorted(b: Board, sorted: seq<Pairing>, x: Pairing, at: nat, j: nat, k: nat)
    requires InBoard(b, x) && AllInBoard(b, sorted) && Sorted(b, sorted) && at <= |sorted| && j < k <= |sorted|
    requires forall i :: 0 <= i < at ==> !Before(PairOf(b, x), PairOf(b, sorted[i]))
    requires at < |sorted| ==> Before(PairOf(b, x), PairOf(b, sorted[at]))
    ensures var longer := sorted[..at] + [x] + sorted[at..];
            InBoard(b, longer[j]) && InBoard(b, longer[k]) && !Before(PairOf(b, longer[k]), PairOf(b, longer[j]))
  {
    var longer := sorted[..at] + [x] + sorted[at..];
    assert forall i :: 0 <= i < at ==> longer[i] == sorted[i];
    assert forall i :: at < i < |longer| ==> longer[i] == sorted[i - 1];
    if j == at {
      BeforeAsymmetric(PairOf(b, x), PairOf(b, sorted[at]));
      if at < k - 1 {
        NotAfterTransitive(PairOf(b, x), PairOf(b, sorted[at]), PairOf(b, sorted[k - 1]));
      }
    }
  }

  /** Pairs taken in order, each unless its pane or its conversation is taken. */
  method TakeInOrder(b: Board, sorted: seq<Pairing>) returns (matched: map<string, Match>)
    requires AllInBoard(b, sorted) && AllInBoard(b, Greedy(sorted))
    ensures matched == MatchedBy(b, Greedy(sorted))
  {
    matched := map[];
    var usedPane: set<nat>, usedConvo: set<nat> := {}, {};
    ghost var chosen: seq<Pairing> := [];
    for i := 0 to |sorted|
      invariant chosen == Greedy(sorted[..i]) && AllInBoard(b, chosen)
      invariant UsedBy(chosen, usedPane, usedConvo)
      invariant matched == MatchedBy(b, chosen)
    {
      var x := sorted[i];
      NextTaken(sorted, i, chosen, usedPane, usedConvo);
      assert x in sorted && InBoard(b, x);
      if x.pane in usedPane || x.convo in usedConvo {
        continue;
      }
      usedPane := usedPane + {x.pane};
      usedConvo := usedConvo + {x.convo};
      matched := matched[b.panes[x.pane].key := Match(b.panes[x.pane].key, b.convos[x.convo], x.signals)];
      Taken(b, chosen, x);
      chosen := chosen + [x];
    }
    assert sorted[..|sorted|] == sorted;
  }

  ghost predicate UsedBy(chosen: seq<Pairing>, usedPane: set<nat>, usedConvo: set<nat>) {
    && usedPane == (set x | x in chosen :: x.pane)
    && usedConvo == (set x | x in chosen :: x.convo)
  }

  lemma NextTaken(sorted: seq<Pairing>, i: nat, chosen: seq<Pairing>, usedPane: set<nat>, usedConvo: set<nat>)
    requires i < |sorted| && chosen == Greedy(sorted[..i]) && UsedBy(chosen, usedPane, usedConvo)
    ensures var x := sorted[i];
            if x.pane in usedPane || x.convo in usedConvo then Greedy(sorted[..i + 1]) == chosen
            else Greedy(sorted[..i + 1]) == chosen + [x] && UsedBy(chosen + [x], usedPane + {x.pane}, usedConvo + {x.convo})
  {
    var x := sorted[i];
    assert sorted[..i + 1][..i] == sorted[..i] && sorted[..i + 1][i] == x;
    if x.pane in usedPane {
      var y :| y in chosen && y.pane == x.pane;
      assert Clash(x, y);
    } else if x.convo in usedConvo {
      var y :| y in chosen && y.convo == x.convo;
      assert Clash(x, y);
    }
  }

  lemma Taken(b: Board, chosen: seq<Pairing>, x: Pairing)
    requires AllInBoard(b, chosen) && InBoard(b, x)
    ensures AllInBoard(b, chosen + [x])
    ensures MatchedBy(b, chosen + [x]) == MatchedBy(b, chosen)[b.panes[x.pane].key := MatchOf(PairOf(b, x))]
  {
    assert (chosen + [x])[..|chosen|] == chosen;
  }

  method PanesLeft(panes: seq<Pane>, matched: map<string, Match>) returns (unresolved: seq<string>)
    ensures unresolved == Unmatched(panes, matched)
  {
    unresolved := [];
    for i := 0 to |panes|
      invariant unresolved == Unmatched(panes[..i], matched)
    {
      assert panes[..i + 1][..i] == panes[..i];
      if panes[i].key !in matched {
        unresolved := unresolved + [panes[i].key];
      }
    }
    assert panes[..|panes|] == panes;
  }

  /** Which conversation each pane is running. */
  method Link(b: Board) returns (a: Assignment)
    ensures exists pairs :: Links(b, pairs, a)
  {
    var all := AllPairings(b);
    var sorted := SortPairs(b, all);
    SameElements(all, sorted);
    GreedyInjective(sorted);
    var matched := TakeInOrder(b, sorted);
    var unresolved := PanesLeft(b.panes, matched);
    a := Assignment(matched, unresolved);
    assert Links(b, sorted, a);
  }

  lemma SameElements(s: seq<Pairing>, t: seq<Pairing>)
    requires multiset(s) == multiset(t)
    ensures forall x :: x in s <==> x in t
  {
    assert forall x :: x in s <==> x in multiset(s);
    assert forall x :: x in t <==> x in multiset(t);
  }
}
