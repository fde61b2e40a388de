/** What a linking pass decides, told by what the panes and the conversations have in common: when a pair is on
    offer, which of two pairs is ahead, and who is matched in the end. */
module LinkOutcome {
  import opened Text
  import opened LinkSpec
  import opened LinkFacts

  // ---- what is on offer ----------------------------------------------------------------------------

  predicate Identified(p: Pane, c: Conversation) { p.agentId != "" && p.agentId == c.id }
  predicate Running(p: Pane, c: Conversation) { c.pid > 0 && c.pid in p.pids }
  predicate Hinted(p: Pane, c: Conversation) { c.tmuxHint != "" && HasSuffix(c.tmuxHint, "." + p.key) }
  predicate Here(p: Pane, c: Conversation) { p.cwd != "" && p.cwd == c.cwd }

  /** An identity, or the right place and the conversation's words on the pane. */
  predicate Convincing(b: Board, p: Pane, c: Conversation) {
    Identified(p, c) || Running(p, c) || (Here(p, c) && b.shows(p.text, c.excerpts))
  }

  /** No other pane and no other conversation has that pane's tool and directory. */
  ghost predicate Lonely(b: Board, i: nat, k: nat)
    requires i < |b.panes| && k < |b.convos|
  {
    var place := b.panes[i].tool + "\0" + b.panes[i].cwd;
    && (forall j :: 0 <= j < |b.panes| && b.panes[j].tool + "\0" + b.panes[j].cwd == place ==> j == i)
    && forall j :: 0 <= j < |b.convos| && b.convos[j].tool + "\0" + b.convos[j].cwd == place ==> j == k
  }

  lemma {:induction false} NoPane(panes: seq<Pane>, bucket: string)
    requires forall j :: 0 <= j < |panes| ==> Bucket(panes[j].tool, panes[j].cwd) != bucket
    ensures PaneCount(panes, bucket) == 0
  {
    if panes != [] {
      NoPane(panes[..|panes| - 1], bucket);
    }
  }

  lemma {:induction false} OnePane(panes: seq<Pane>, i: nat, bucket: string)
    requires i < |panes|
    requires forall j :: 0 <= j < |panes| ==> (Bucket(panes[j].tool, panes[j].cwd) == bucket <==> j == i)
    ensures PaneCount(panes, bucket) == 1
  {
    var n := |panes| - 1;
    if i == n {
      NoPane(panes[..n], bucket);
    } else {
      OnePane(panes[..n], i, bucket);
    }
  }

  lemma {:induction false} NoConvo(convos: seq<Conversation>, bucket: string)
    requires forall j :: 0 <= j < |convos| ==> Bucket(convos[j].tool, convos[j].cwd) != bucket
    ensures ConvoCount(convos, bucket) == 0
  {
    if convos != [] {
      NoConvo(convos[..|convos| - 1], bucket);
    }
  }

  lemma {:induction false} OneConvo(convos: seq<Conversation>, k: nat, bucket: string)
    requires k < |convos|
    requires forall j :: 0 <= j < |convos| ==> (Bucket(convos[j].tool, convos[j].cwd) == bucket <==> j == k)
    ensures ConvoCount(convos, bucket) == 1
  {
    var n := |convos| - 1;
    if k == n {
      NoConvo(convos[..n], bucket);
    } else {
      OneConvo(convos[..n], k, bucket);
    }
  }

  lemma LonelyMeaning(b: Board, i: nat, k: nat)
    requires i < |b.panes| && k < |b.convos|
    requires b.panes[i].tool == b.convos[k].tool && b.panes[i].cwd == b.convos[k].cwd
    ensures Alone(b, b.panes[i]) <==> Lonely(b, i, k)
  {
    var bucket := Bucket(b.panes[i].tool, b.panes[i].cwd);
    PaneCounted(b.panes, i, bucket);
    ConvoCounted(b.convos, k, bucket);
    if Lonely(b, i, k) {
      OnePane(b.panes, i, bucket);
      OneConvo(b.convos, k, bucket);
    }
  }

  /** The signals are exactly what pane and conversation have in common, and being alone where that had to do. */
  ghost predicate Tells(b: Board, i: nat, k: nat, s: seq<Signal>)
    requires i < |b.panes| && k < |b.convos|
  {
    var p, c := b.panes[i], b.convos[k];
    && (AgentID in s <==> Identified(p, c)) && (Process in s <==> Running(p, c)) && (Tmux in s <==> Hinted(p, c))
    && (Cwd in s <==> Here(p, c)) && (TextShown in s <==> b.shows(p.text, c.excerpts))
    && (Solo in s <==> !Convincing(b, p, c) && Here(p, c) && Lonely(b, i, k))
  }

  lemma EvidenceTells(b: Board, p: Pane, c: Conversation)
    ensures Holds(Evidence(b, p, c), Identified(p, c), Running(p, c), Hinted(p, c), Here(p, c), b.shows(p.text, c.excerpts))
  {
    FiveSignals(Identified(p, c), Running(p, c), Hinted(p, c), Here(p, c), b.shows(p.text, c.excerpts));
  }

  /** A pane and a conversation of the same tool are paired exactly on convincing evidence, or in the right place when
      both are alone there. */
  lemma OfferExactly(b: Board, i: nat, k: nat)
    requires i < |b.panes| && k < |b.convos|
    ensures var p, c := b.panes[i], b.convos[k];
            var offer := Offer(b, p, c);
            && (offer.Some? <==> p.tool != "" && p.tool == c.tool && (Convincing(b, p, c) || (Here(p, c) && Lonely(b, i, k))))
            && (offer.Some? ==> Tells(b, i, k, offer.value))
  {
    var p, c := b.panes[i], b.convos[k];
    EvidenceTells(b, p, c);
    if p.tool == c.tool && Here(p, c) {
      LonelyMeaning(b, i, k);
    }
  }

  // ---- which of two pairs is ahead -----------------------------------------------------------------

  /** The weightiest signal one has and the other has not decides. */
  predicate MoreEvidence(s: seq<Signal>, t: seq<Signal>) {
    if (AgentID in s) != (AgentID in t) then AgentID in s
    else if (Process in s) != (Process in t) then Process in s
    else if (Tmux in s) != (Tmux in t) then Tmux in s
    else if (TextShown in s) != (TextShown in t) then TextShown in s
    else if (Cwd in s) != (Cwd in t) then Cwd in s
    else Solo in s && Solo !in t
  }

  lemma EvidenceDecides(s: seq<Signal>, t: seq<Signal>)
    requires Summed(s) && Summed(t)
    ensures Rank(s) > Rank(t) <==> MoreEvidence(s, t)
  {
  }

  /** The order of dictionaries: the first place where the two differ decides, and a beginning is ahead of the
      whole. */
  ghost predicate Earlier(a: string, b: string) {
    exists k :: DiffersAt(a, b, k)
  }

  predicate DiffersAt(a: string, b: string, k: int) {
    0 <= k <= |a| && k < |b| && a[..k] == b[..k] && (k == |a| || a[k] < b[k])
  }

  lemma DiffersLater(a: string, b: string, k: int)
    requires a != [] && b != [] && a[0] == b[0]
    ensures k > 0 ==> (DiffersAt(a, b, k) <==> DiffersAt(a[1..], b[1..], k - 1))
    ensures !DiffersAt(a, b, 0)
  {
    if 0 < k <= |a| && k < |b| {
      assert a[..k] == [a[0]] + a[1..][..k - 1] && b[..k] == [b[0]] + b[1..][..k - 1];
      assert a[1..][..k - 1] == a[..k][1..] && b[1..][..k - 1] == b[..k][1..];
    }
  }

  lemma {:induction false} StringLessMeaning(a: string, b: string)
    ensures StringLess(a, b) <==> Earlier(a, b)
  {
    if a != [] && b != [] && a[0] == b[0] {
      StringLessMeaning(a[1..], b[1..]);
      if Earlier(a, b) {
        var k :| DiffersAt(a, b, k);
        DiffersLater(a, b, k);
      }
      if Earlier(a[1..], b[1..]) {
        var k :| DiffersAt(a[1..], b[1..], k);
        DiffersLater(a, b, k + 1);
      }
    } else if b != [] && (a == [] || a[0] < b[0]) {
      assert DiffersAt(a, b, 0);
    } else {
      forall k ensures !DiffersAt(a, b, k) {
        FirstAgrees(a, b, k);
      }
    }
  }

  lemma FirstAgrees(a: string, b: string, k: int)
    ensures DiffersAt(a, b, k) && k > 0 ==> a != [] && b != [] && a[0] == b[0]
  {
    if DiffersAt(a, b, k) && k > 0 {
      assert a[..k][0] == a[0] && b[..k][0] == b[0];
    }
  }

  /** More evidence first, then the conversation updated later, then the smaller pane key, then the smaller id. */
  ghost predicate Ahead(x: Pair, y: Pair) {
    || MoreEvidence(x.signals, y.signals)
    || (!MoreEvidence(y.signals, x.signals)
        && (x.convo.updatedAt > y.convo.updatedAt
            || (x.convo.updatedAt == y.convo.updatedAt
                && (Earlier(x.pane.key, y.pane.key)
                    || (x.pane.key == y.pane.key && Earlier(x.convo.id, y.convo.id))))))
  }

  lemma BeforeIsAhead(b: Board, x: Pair, y: Pair)
    requires AdmittedPair(b, x) && AdmittedPair(b, y)
    ensures Before(x, y) <==> Ahead(x, y)
  {
    OfferSummed(b, x);
    OfferSummed(b, y);
    EvidenceDecides(x.signals, y.signals);
    EvidenceDecides(y.signals, x.signals);
    StringLessMeaning(x.pane.key, y.pane.key);
    StringLessMeaning(x.convo.id, y.convo.id);
    StringTotal(x.pane.key, x.pane.key);
  }

  /** Everything one pair has in common the other has too, and something more. */
  predicate Includes(s: seq<Signal>, t: seq<Signal>) {
    (forall x :: x in t ==> x in s) && exists x :: x in s && x !in t
  }

  lemma InclusionIsAhead(s: seq<Signal>, t: seq<Signal>)
    requires Includes(s, t)
    ensures MoreEvidence(s, t)
  {
    var x :| x in s && x !in t;
    match x
    case AgentID =>
    case Process =>
    case Tmux =>
    case TextShown =>
    case Cwd =>
    case Solo =>
  }

  // ---- who is matched ------------------------------------------------------------------------------

  /** A pair on offer that is not taken makes way for a taken one, of its pane or its conversation, that it is not
      ahead of. */
  lemma LeftOutForAhead(b: Board, pairs: seq<Pairing>, a: Assignment, x: Pairing) returns (y: Pairing)
    requires Links(b, pairs, a) && Admitted(b, x) && x !in Greedy(pairs)
    ensures y in Greedy(pairs) && Admitted(b, y) && Clash(x, y) && !Ahead(PairOf(b, x), PairOf(b, y))
  {
    y := BlockedBy(b, pairs, a, x);
    BeforeIsAhead(b, PairOf(b, x), PairOf(b, y));
  }

  /** A pane is not given a conversation while one ahead of it is free: that one is with another pane then, which it
      is not ahead at. */
  lemma AheadUnlessTaken(b: Board, pairs: seq<Pairing>, a: Assignment, x: Pairing, y: Pairing) returns (z: Pairing)
    requires Links(b, pairs, a) && Admitted(b, x) && y in Greedy(pairs) && Admitted(b, y)
    requires x.pane == y.pane && Ahead(PairOf(b, x), PairOf(b, y))
    ensures z in Greedy(pairs) && z.convo == x.convo && z.pane != x.pane && !Ahead(PairOf(b, x), PairOf(b, z))
  {
    NotAheadOfItself(b, y);
    MatchingIsStable(b, pairs, a);
    assert x in Greedy(pairs) ==> Clash(x, y);
    z := LeftOutForAhead(b, pairs, a, x);
    assert z.pane == x.pane ==> Clash(z, y);
  }

  /** Nor is a conversation given to a pane while one ahead of that is free. */
  lemma AheadUnlessServed(b: Board, pairs: seq<Pairing>, a: Assignment, x: Pairing, y: Pairing) returns (z: Pairing)
    requires Links(b, pairs, a) && Admitted(b, x) && y in Greedy(pairs) && Admitted(b, y)
    requires x.convo == y.convo && Ahead(PairOf(b, x), PairOf(b, y))
    ensures z in Greedy(pairs) && z.pane == x.pane && z.convo != x.convo && !Ahead(PairOf(b, x), PairOf(b, z))
  {
    NotAheadOfItself(b, y);
    MatchingIsStable(b, pairs, a);
    assert x in Greedy(pairs) ==> Clash(x, y);
    z := LeftOutForAhead(b, pairs, a, x);
    assert z.convo == x.convo ==> Clash(z, y);
  }

  lemma NotAheadOfItself(b: Board, x: Pairing)
    requires Admitted(b, x)
    ensures !Ahead(PairOf(b, x), PairOf(b, x))
  {
    BeforeIsAhead(b, PairOf(b, x), PairOf(b, x));
    BeforeAsymmetric(PairOf(b, x), PairOf(b, x));
  }

  /** Of two conversations with the same evidence a pane does not get the one updated earlier, unless the other is
      with another pane. */
  lemma LaterUnlessTaken(b: Board, pairs: seq<Pairing>, a: Assignment, x: Pairing, y: Pairing) returns (z: Pairing)
    requires Links(b, pairs, a) && Admitted(b, x) && y in Greedy(pairs) && Admitted(b, y) && x.pane == y.pane
    requires (forall s :: s in x.signals <==> s in y.signals) && b.convos[x.convo].updatedAt > b.convos[y.convo].updatedAt
    ensures z in Greedy(pairs) && z.convo == x.convo && z.pane != x.pane
  {
    z := AheadUnlessTaken(b, pairs, a, x, y);
  }

  /** Nor one with part of the other's evidence only. */
  lemma MoreUnlessTaken(b: Board, pairs: seq<Pairing>, a: Assignment, x: Pairing, y: Pairing) returns (z: Pairing)
    requires Links(b, pairs, a) && Admitted(b, x) && y in Greedy(pairs) && Admitted(b, y) && x.pane == y.pane
    requires Includes(x.signals, y.signals)
    ensures z in Greedy(pairs) && z.convo == x.convo && z.pane != x.pane
  {
    InclusionIsAhead(x.signals, y.signals);
    z := AheadUnlessTaken(b, pairs, a, x, y);
  }

  lemma {:induction false} MatchedBySame(b: Board, chosen: seq<Pairing>, x: Pairing)
    requires InBoard(b, x) && chosen != [] && forall y :: y in chosen ==> y == x
    ensures MatchedBy(b, chosen) == map[b.panes[x.pane].key := Match(b.panes[x.pane].key, b.convos[x.convo], x.signals)]
  {
    var n := |chosen| - 1;
    assert chosen[n] in chosen;
    if n > 0 {
      assert forall y :: y in chosen[..n] ==> y in chosen;
      MatchedBySame(b, chosen[..n], x);
    }
  }

  /** A pane alone on the board gets the conversation that is ahead of all others on offer to it. */
  lemma LonePaneTakesFirst(b: Board, pairs: seq<Pairing>, a: Assignment, x: Pairing)
    requires Links(b, pairs, a) && |b.panes| == 1 && Admitted(b, x)
    requires forall y :: Admitted(b, y) && y.convo != x.convo ==> Ahead(PairOf(b, x), PairOf(b, y))
    ensures a.matched == map[b.panes[0].key := Match(b.panes[0].key, b.convos[x.convo], x.signals)]
    ensures a.unresolved == []
  {
    LonePaneTakes(b, pairs, a, x);
    MatchedBySame(b, Greedy(pairs), x);
    assert b.panes[1..] == [] && b.panes[0] == b.panes[x.pane];
    UnmatchedInOrder(b.panes, a.matched);
  }

  lemma SamePlace(b: Board, x: Pairing, y: Pairing)
    requires Admitted(b, x) && Admitted(b, y)
    ensures InBoard(b, x) && InBoard(b, y)
    ensures x.pane == y.pane && x.convo == y.convo ==> x == y
  {
  }

  lemma LonePaneTakes(b: Board, pairs: seq<Pairing>, a: Assignment, x: Pairing)
    requires Links(b, pairs, a) && |b.panes| == 1 && Admitted(b, x)
    requires forall y :: Admitted(b, y) && y.convo != x.convo ==> Ahead(PairOf(b, x), PairOf(b, y))
    ensures x in Greedy(pairs) && forall y :: y in Greedy(pairs) ==> y == x
  {
    if x !in Greedy(pairs) {
      var y := LeftOutForAhead(b, pairs, a, x);
      SamePlace(b, x, y);
    }
    GreedyInjective(pairs);
    forall y | y in Greedy(pairs) ensures y == x {
      assert InBoard(b, y) && Clash(x, y);
    }
  }

  /** Of two conversations it has the same in common with, that is the one updated later. */
  lemma LonePaneTakesLater(b: Board, pairs: seq<Pairing>, a: Assignment, x: Pairing, y: Pairing)
    requires Links(b, pairs, a) && |b.panes| == 1 && |b.convos| == 2 && Admitted(b, x) && Admitted(b, y)
    requires x.signals == y.signals && b.convos[x.convo].updatedAt > b.convos[y.convo].updatedAt
    ensures a.matched == map[b.panes[0].key := Match(b.panes[0].key, b.convos[x.convo], x.signals)]
  {
    SamePlace(b, x, y);
    LaterIsAhead(PairOf(b, x), PairOf(b, y));
    forall z | Admitted(b, z) && z.convo != x.convo ensures Ahead(PairOf(b, x), PairOf(b, z)) {
      OnlyOther(b, x, y, z);
    }
    LonePaneTakesFirst(b, pairs, a, x);
  }

  lemma LaterIsAhead(x: Pair, y: Pair)
    requires (forall s :: s in x.signals <==> s in y.signals) && x.convo.updatedAt > y.convo.updatedAt
    ensures Ahead(x, y)
  {
  }

  lemma OnlyOther(b: Board, x: Pairing, y: Pairing, z: Pairing)
    requires |b.panes| == 1 && |b.convos| == 2 && Admitted(b, x) && Admitted(b, y) && Admitted(b, z)
    requires y.convo != x.convo && z.convo != x.convo
    ensures z == y
  {
    SamePlace(b, x, y);
    SamePlace(b, y, z);
  }

  /** The matches are the pairs taken, each under its pane's key with its conversation and its signals. */
  lemma MatchesAreTaken(b: Board, pairs: seq<Pairing>, a: Assignment)
    requires Distinct(b) && Links(b, pairs, a)
    ensures forall x :: x in Greedy(pairs) ==>
              && b.panes[x.pane].key in a.matched
              && a.matched[b.panes[x.pane].key] == Match(b.panes[x.pane].key, b.convos[x.convo], x.signals)
    ensures forall key :: key in a.matched ==> exists x :: x in Greedy(pairs) && b.panes[x.pane].key == key
  {
    LinkDescribes(b, pairs, a);
    forall x | x in Greedy(pairs)
      ensures b.panes[x.pane].key in a.matched
      ensures a.matched[b.panes[x.pane].key] == Match(b.panes[x.pane].key, b.convos[x.convo], x.signals)
    {
      assert PairOf(b, x) in Values(b, Greedy(pairs));
    }
    forall key | key in a.matched ensures exists x :: x in Greedy(pairs) && b.panes[x.pane].key == key {
      var u :| u in Values(b, Greedy(pairs)) && u.pane.key == key;
      var x :| x in Greedy(pairs) && PairOf(b, x) == u;
    }
  }

  /** The keys without a match, read from the front. */
  function Left(panes: seq<Pane>, matched: map<string, Match>): seq<string> {
    if panes == [] then []
    else (if panes[0].key in matched then [] else [panes[0].key]) + Left(panes[1..], matched)
  }

  lemma {:induction false} LeftAppend(a: seq<Pane>, p: Pane, matched: map<string, Match>)
    ensures Left(a + [p], matched) == Left(a, matched) + if p.key in matched then [] else [p.key]
  {
    if a == [] {
      assert [p][1..] == [];
    } else {
      assert (a + [p])[1..] == a[1..] + [p];
      LeftAppend(a[1..], p, matched);
    }
  }

  /** The panes left unresolved come in the order of the panes. */
  lemma {:induction false} UnmatchedInOrder(panes: seq<Pane>, matched: map<string, Match>)
    ensures Unmatched(panes, matched) == Left(panes, matched)
  {
    if panes != [] {
      var n := |panes| - 1;
      UnmatchedInOrder(panes[..n], matched);
      LeftAppend(panes[..n], panes[n], matched);
      assert panes == panes[..n] + [panes[n]];
    }
  }
}
