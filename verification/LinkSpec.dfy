/** Which conversation each pane is running: evidence, ranking and the greedy matching, on values. */
module LinkSpec {
  import opened Text

  datatype Signal = AgentID | Process | Tmux | Cwd | TextShown | Solo

  datatype Pane = Pane(key: string, tool: string, cwd: string, text: string, pids: seq<int>, agentId: string)

  datatype Conversation = Conversation(
    tool: string, id: string, cwd: string, excerpts: seq<string>, updatedAt: int, pid: int, tmuxHint: string)

  datatype Match = Match(paneKey: string, conversation: Conversation, signals: seq<Signal>)

  datatype Assignment = Assignment(matched: map<string, Match>, unresolved: seq<string>)

  /** The panes, the conversations, and the outside test of whether a pane's text shows an excerpt. */
  datatype Board = Board(panes: seq<Pane>, convos: seq<Conversation>, shows: (string, seq<string>) -> bool)

  function When(c: bool, s: Signal): seq<Signal> {
    if c then [s] else []
  }

  function Evidence(b: Board, p: Pane, c: Conversation): seq<Signal> {
    When(p.agentId != "" && p.agentId == c.id, AgentID) +
    When(c.pid > 0 && c.pid in p.pids, Process) +
    When(c.tmuxHint != "" && HasSuffix(c.tmuxHint, "." + p.key), Tmux) +
    When(p.cwd != "" && p.cwd == c.cwd, Cwd) +
    When(b.shows(p.text, c.excerpts), TextShown)
  }

  predicate Accepts(signals: seq<Signal>) {
    AgentID in signals || Process in signals || (Cwd in signals && TextShown in signals)
  }

  function Score(s: Signal): nat {
    match s
    case AgentID => 200
    case Process => 100
    case Tmux => 20
    case TextShown => 10
    case Cwd => 5
    case Solo => 1
  }

  function Rank(signals: seq<Signal>): nat {
    if signals == [] then 0 else Rank(signals[..|signals| - 1]) + Score(signals[|signals| - 1])
  }

  function Bucket(tool: string, cwd: string): string {
    tool + "\0" + cwd
  }

  function PaneCount(panes: seq<Pane>, bucket: string): nat {
    if panes == [] then 0
    else PaneCount(panes[..|panes| - 1], bucket) +
         if Bucket(panes[|panes| - 1].tool, panes[|panes| - 1].cwd) == bucket then 1 else 0
  }

  function ConvoCount(convos: seq<Conversation>, bucket: string): nat {
    if convos == [] then 0
    else ConvoCount(convos[..|convos| - 1], bucket) +
         if Bucket(convos[|convos| - 1].tool, convos[|convos| - 1].cwd) == bucket then 1 else 0
  }

  /** The pane and the conversation are alone in their tool and directory. */
  predicate Alone(b: Board, p: Pane) {
    PaneCount(b.panes, Bucket(p.tool, p.cwd)) == 1 && ConvoCount(b.convos, Bucket(p.tool, p.cwd)) == 1
  }

  /** The signals a pair is admitted with, or None when it is not. */
  function Offer(b: Board, p: Pane, c: Conversation): Option<seq<Signal>> {
    if p.tool == "" || p.tool != c.tool then None
    else
      var signals := Evidence(b, p, c);
      if Accepts(signals) then Some(signals)
      else if Cwd in signals && Alone(b, p) then Some(signals + [Solo])
      else None
  }

  // ---- order ---------------------------------------------------------------------------------------

  /** Go's `<` on strings. */
  predicate StringLess(a: string, b: string) {
    b != [] && (a == [] || a[0] < b[0] || (a[0] == b[0] && StringLess(a[1..], b[1..])))
  }

  lemma {:induction false} StringTotal(a: string, b: string)
    ensures a == b || StringLess(a, b) || StringLess(b, a)
    ensures !(StringLess(a, b) && StringLess(b, a))
    ensures !StringLess(a, a)
  {
    if a != [] && b != [] && a[0] == b[0] {
      StringTotal(a[1..], b[1..]);
      assert a == [a[0]] + a[1..] && b == [b[0]] + b[1..];
    }
    if a != [] {
      StringTotal(a[1..], a[1..]);
    }
  }

  lemma {:induction false} StringTransitive(a: string, b: string, c: string)
    requires StringLess(a, b) && StringLess(b, c)
    ensures StringLess(a, c)
  {
    if a != [] && a[0] == b[0] && b[0] == c[0] {
      StringTransitive(a[1..], b[1..], c[1..]);
    }
  }

  /** A pane with a conversation it may be running. */
  datatype Pair = Pair(pane: Pane, convo: Conversation, signals: seq<Signal>)

  /** The comparator: rank, then recency, then the pane's key, then the conversation's id. */
  predicate Before(x: Pair, y: Pair) {
    if Rank(x.signals) != Rank(y.signals) then Rank(x.signals) > Rank(y.signals)
    else if x.convo.updatedAt != y.convo.updatedAt then x.convo.updatedAt > y.convo.updatedAt
    else if x.pane.key != y.pane.key then StringLess(x.pane.key, y.pane.key)
    else StringLess(x.convo.id, y.convo.id)
  }

  lemma BeforeAsymmetric(x: Pair, y: Pair)
    ensures !(Before(x, y) && Before(y, x))
    ensures !Before(x, x)
  {
    StringTotal(x.pane.key, y.pane.key);
    StringTotal(x.convo.id, y.convo.id);
    StringTotal(x.convo.id, x.convo.id);
  }

  lemma BeforeTransitive(x: Pair, y: Pair, z: Pair)
    requires Before(x, y) && Before(y, z)
    ensures Before(x, z)
  {
    if x.pane.key != y.pane.key && y.pane.key != z.pane.key && StringLess(x.pane.key, y.pane.key)
       && StringLess(y.pane.key, z.pane.key) {
      StringTransitive(x.pane.key, y.pane.key, z.pane.key);
      StringTotal(x.pane.key, z.pane.key);
    }
    if StringLess(x.convo.id, y.convo.id) && StringLess(y.convo.id, z.convo.id) {
      StringTransitive(x.convo.id, y.convo.id, z.convo.id);
    }
  }

  /** Pairs the comparator cannot tell apart agree on all it looks at. */
  lemma BeforeTotal(x: Pair, y: Pair)
    ensures Before(x, y) || Before(y, x) ||
            (Rank(x.signals) == Rank(y.signals) && x.convo.updatedAt == y.convo.updatedAt &&
             x.pane.key == y.pane.key && x.convo.id == y.convo.id)
  {
    StringTotal(x.pane.key, y.pane.key);
    StringTotal(x.convo.id, y.convo.id);
  }

  /** Not sorting after is transitive, so a sort by the comparator has one meaning. */
  lemma NotAfterTransitive(x: Pair, y: Pair, z: Pair)
    requires !Before(y, x) && !Before(z, y)
    ensures !Before(z, x)
  {
    BeforeTotal(x, y);
    BeforeTotal(y, z);
    BeforeAsymmetric(x, z);
    if Before(x, y) && Before(y, z) {
      BeforeTransitive(x, y, z);
    }
  }

  // ---- the matching --------------------------------------------------------------------------------

  /** A pair by position, as the linking pass builds it. */
  datatype Pairing = Pairing(pane: nat, convo: nat, signals: seq<Signal>, rank: nat)

  predicate InBoard(b: Board, x: Pairing) {
    x.pane < |b.panes| && x.convo < |b.convos|
  }

  function PairOf(b: Board, x: Pairing): Pair
    requires InBoard(b, x)
  {
    Pair(b.panes[x.pane], b.convos[x.convo], x.signals)
  }

  predicate Admitted(b: Board, x: Pairing) {
    && InBoard(b, x)
    && Offer(b, b.panes[x.pane], b.convos[x.convo]) == Some(x.signals)
    && x.rank == Rank(x.signals)
  }

  /** `pairs` holds every admissible pair, and nothing else. */
  ghost predicate AllPairs(b: Board, pairs: seq<Pairing>) {
    && (forall x :: x in pairs ==> Admitted(b, x))
    && (forall p, c :: 0 <= p < |b.panes| && 0 <= c < |b.convos| && Offer(b, b.panes[p], b.convos[c]).Some? ==>
          PairingAt(b, p, c) in pairs)
  }

  function PairingAt(b: Board, p: nat, c: nat): Pairing
    requires p < |b.panes| && c < |b.convos| && Offer(b, b.panes[p], b.convos[c]).Some?
  {
    var signals := Offer(b, b.panes[p], b.convos[c]).value;
    Pairing(p, c, signals, Rank(signals))
  }

  /** What `sort.Slice` guarantees: no pair sorts ahead of one placed before it. */
  ghost predicate Sorted(b: Board, pairs: seq<Pairing>)
    requires forall x :: x in pairs ==> InBoard(b, x)
  {
    forall j, k :: 0 <= j < k < |pairs| ==> !Before(PairOf(b, pairs[k]), PairOf(b, pairs[j]))
  }

  predicate Clash(x: Pairing, y: Pairing) {
    x.pane == y.pane || x.convo == y.convo
  }

  /** Pairs taken in order, each unless its pane or its conversation is taken. */
  function Greedy(pairs: seq<Pairing>): seq<Pairing> {
    if pairs == [] then []
    else
      var chosen, x := Greedy(pairs[..|pairs| - 1]), pairs[|pairs| - 1];
      if exists y :: y in chosen && Clash(x, y) then chosen else chosen + [x]
  }

  function MatchOf(x: Pair): Match {
    Match(x.pane.key, x.convo, x.signals)
  }

  /** The matches by pane key, later pairs over earlier ones. */
  function MatchedBy(b: Board, chosen: seq<Pairing>): map<string, Match>
    requires forall x :: x in chosen ==> InBoard(b, x)
  {
    if chosen == [] then map[]
    else
      var x := chosen[|chosen| - 1];
      assert x in chosen && InBoard(b, x);
      MatchedBy(b, chosen[..|chosen| - 1])[b.panes[x.pane].key := MatchOf(PairOf(b, x))]
  }

  function Unmatched(panes: seq<Pane>, matched: map<string, Match>): seq<string> {
    if panes == [] then []
    else
      Unmatched(panes[..|panes| - 1], matched) +
      if panes[|panes| - 1].key in matched then [] else [panes[|panes| - 1].key]
  }

  /** `a` is what a linking pass may conclude from the board. The sort is not stable and the comparator may
      tie, so this is a relation. */
  ghost predicate Links(b: Board, pairs: seq<Pairing>, a: Assignment) {
    && AllPairs(b, pairs) && Sorted(b, pairs)
    && (forall x :: x in Greedy(pairs) ==> InBoard(b, x))
    && a.matched == MatchedBy(b, Greedy(pairs))
    && a.unresolved == Unmatched(b.panes, a.matched)
  }
}
