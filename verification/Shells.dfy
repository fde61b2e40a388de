/** Counting the shells an agent left running, over whatever parent table `ps` printed: processes can repeat,
    be their own ancestors, or name parents nobody listed. */
module Shells {
  import opened Text

  datatype Row = Row(pid: int, parent: int, marked: bool)

  /** `rowOf` reads one printed line: None when it has too few fields or a field that is no number. */
  function Rows(rowOf: string -> Option<Row>, lines: seq<string>): seq<Row> {
    if lines == [] then []
    else
      var before, row := Rows(rowOf, lines[..|lines| - 1]), rowOf(lines[|lines| - 1]);
      if row.Some? then before + [row.value] else before
  }

  /** The children of `p` in the order their rows come. */
  function Kids(rows: seq<Row>, p: int): seq<int> {
    if rows == [] then []
    else
      var before, row := Kids(rows[..|rows| - 1], p), rows[|rows| - 1];
      if row.parent == p then before + [row.pid] else before
  }

  /** A process is a child of every process some row names as its parent, of itself too. */
  lemma {:induction false} KidsMeaning(rows: seq<Row>, p: int, kid: int)
    ensures kid in Kids(rows, p) <==> exists i :: 0 <= i < |rows| && rows[i].parent == p && rows[i].pid == kid
  {
    if rows != [] {
      var n := |rows| - 1;
      KidsMeaning(rows[..n], p, kid);
      assert forall i :: 0 <= i < n ==> rows[..n][i] == rows[i];
    }
  }

  /** The table is the lines that read as rows, in order. */
  lemma {:induction false} RowsMeaning(rowOf: string -> Option<Row>, lines: seq<string>, more: seq<string>)
    ensures Rows(rowOf, lines + more) == Rows(rowOf, lines) + Rows(rowOf, more)
    ensures forall row :: row in Rows(rowOf, lines) <==> exists i :: 0 <= i < |lines| && rowOf(lines[i]) == Some(row)
  {
    if more == [] {
      assert lines + more == lines;
    } else {
      var n := |more| - 1;
      assert (lines + more)[..|lines| + n] == lines + more[..n];
      RowsMeaning(rowOf, lines, more[..n]);
    }
    RowsRead(rowOf, lines);
  }

  lemma {:induction false} RowsRead(rowOf: string -> Option<Row>, lines: seq<string>)
    ensures forall row :: row in Rows(rowOf, lines) <==> exists i :: 0 <= i < |lines| && rowOf(lines[i]) == Some(row)
  {
    if lines != [] {
      var n := |lines| - 1;
      RowsRead(rowOf, lines[..n]);
      assert forall i :: 0 <= i < n ==> lines[..n][i] == lines[i];
    }
  }

  function Marked(rows: seq<Row>): set<int> {
    set i | 0 <= i < |rows| && rows[i].marked :: rows[i].pid
  }

  lemma MarkedMeaning(rows: seq<Row>, n: int)
    ensures n in Marked(rows) <==> exists i :: 0 <= i < |rows| && rows[i].marked && rows[i].pid == n
  {
  }

  /** A line of descent in which only the ends may be marked. */
  ghost predicate Descent(rows: seq<Row>, path: seq<int>) {
    && path != []
    && (forall i :: 0 <= i < |path| - 1 ==> path[i + 1] in Kids(rows, path[i]))
    && forall i :: 0 < i < |path| - 1 ==> path[i] !in Marked(rows)
  }

  ghost predicate Under(rows: seq<Row>, pid: int, n: int) {
    exists path :: Descent(rows, path) && path[0] == pid && path[|path| - 1] == n
  }

  /** What is to be counted: the marked processes, `pid` aside, with no marked one between it and them. */
  ghost predicate Outermost(rows: seq<Row>, pid: int, n: int) {
    n != pid && n in Marked(rows) && Under(rows, pid, n)
  }

  ghost function OutermostMarked(rows: seq<Row>, pid: int): set<int> {
    set n | n in Marked(rows) && Outermost(rows, pid, n)
  }

  /** Processes the search goes on from. */
  predicate Open(rows: seq<Row>, pid: int, n: int) {
    n == pid || n !in Marked(rows)
  }

  lemma OneFurther(rows: seq<Row>, pid: int, n: int, kid: int)
    requires Under(rows, pid, n) && Open(rows, pid, n) && kid in Kids(rows, n)
    ensures Under(rows, pid, kid)
  {
    var path :| Descent(rows, path) && path[0] == pid && path[|path| - 1] == n;
    if n == pid {
      var short := [pid, kid];
      assert Descent(rows, short) && short[0] == pid && short[|short| - 1] == kid;
    } else {
      var longer := path + [kid];
      Lengthened(rows, path, kid);
      assert longer[0] == pid && longer[|longer| - 1] == kid;
    }
  }

  lemma Lengthened(rows: seq<Row>, path: seq<int>, kid: int)
    requires Descent(rows, path) && path[|path| - 1] !in Marked(rows) && kid in Kids(rows, path[|path| - 1])
    ensures Descent(rows, path + [kid])
  {
    var longer := path + [kid];
    forall i | 0 <= i < |longer| - 1
      ensures longer[i + 1] in Kids(rows, longer[i]) && (0 < i ==> longer[i] !in Marked(rows))
    {
      assert i < |path| - 1 ==> path[i + 1] in Kids(rows, path[i]);
    }
  }

  lemma StartsUnder(rows: seq<Row>, pid: int)
    ensures Under(rows, pid, pid)
  {
    assert Descent(rows, [pid]);
  }

  /** A set that holds `pid` and the children of all its open members holds everything under `pid`. */
  lemma {:induction false} ClosedHoldsAll(rows: seq<Row>, pid: int, seen: set<int>, path: seq<int>)
    requires pid in seen && Descent(rows, path) && path[0] == pid
    requires forall n, kid | n in seen && Open(rows, pid, n) && kid in Kids(rows, n) :: kid in seen
    ensures path[|path| - 1] in seen
  {
    if |path| > 1 {
      var init := path[..|path| - 1];
      assert Descent(rows, init);
      ClosedHoldsAll(rows, pid, seen, init);
      assert Open(rows, pid, init[|init| - 1]);
    }
  }

  lemma {:induction false} KidsAreListed(rows: seq<Row>, p: int)
    ensures forall kid | kid in Kids(rows, p) :: kid in Listed(rows)
  {
    if rows != [] {
      KidsAreListed(rows[..|rows| - 1], p);
      assert Listed(rows[..|rows| - 1]) <= Listed(rows);
    }
  }

  function Listed(rows: seq<Row>): set<int> {
    set i | 0 <= i < |rows| :: rows[i].pid
  }

  // ---- the search ----------------------------------------------------------------------------------

  /** What holds while `queue` waits to be expanded: all seen is under `pid`, and the children of every open
      process are seen, but for those of the queue and of `now`, the one being expanded. */
  ghost predicate Searched(rows: seq<Row>, pid: int, seen: set<int>, queue: seq<int>, now: Option<int>) {
    && pid in seen && seen <= Listed(rows) + {pid}
    && (forall n | n in seen :: Under(rows, pid, n))
    && (forall q | q in queue :: q in seen && Open(rows, pid, q))
    && (now.Some? ==> now.value in seen && Open(rows, pid, now.value))
    && forall n | n in seen && Open(rows, pid, n) && n !in queue && now != Some(n) ::
         forall kid | kid in Kids(rows, n) :: kid in seen
  }

  function Counted(rows: seq<Row>, pid: int, seen: set<int>): set<int> {
    set n | n in seen && n != pid && n in Marked(rows)
  }

  /** Looking at one child not seen before. */
  lemma SeeKid(rows: seq<Row>, pid: int, seen: set<int>, queue: seq<int>, now: int, kid: int)
    requires Searched(rows, pid, seen, queue, Some(now)) && kid in Kids(rows, now) && kid !in seen
    ensures kid in Listed(rows)
    ensures kid in Marked(rows) ==>
      Searched(rows, pid, seen + {kid}, queue, Some(now)) && Counted(rows, pid, seen + {kid}) == Counted(rows, pid, seen) + {kid}
    ensures kid !in Marked(rows) ==>
      Searched(rows, pid, seen + {kid}, queue + [kid], Some(now)) && Counted(rows, pid, seen + {kid}) == Counted(rows, pid, seen)
  {
    KidsAreListed(rows, now);
    OneFurther(rows, pid, now, kid);
  }

  /** An empty queue means the search has seen what is under `pid`, and counted what is to be counted. */
  lemma SearchedAll(rows: seq<Row>, pid: int, seen: set<int>)
    requires Searched(rows, pid, seen, [], None)
    ensures forall n :: n in seen <==> Under(rows, pid, n)
    ensures Counted(rows, pid, seen) == OutermostMarked(rows, pid)
  {
    forall n | Under(rows, pid, n) ensures n in seen {
      var path :| Descent(rows, path) && path[0] == pid && path[|path| - 1] == n;
      ClosedHoldsAll(rows, pid, seen, path);
    }
  }

  method ChildrenOf(rows: seq<Row>) returns (children: map<int, seq<int>>, marked: set<int>)
    ensures forall p :: Kids(rows, p) == if p in children then children[p] else []
    ensures marked == Marked(rows)
  {
    children, marked := map[], {};
    for i := 0 to |rows|
      invariant forall p :: Kids(rows[..i], p) == if p in children then children[p] else []
      invariant marked == Marked(rows[..i])
    {
      var row := rows[i];
      assert rows[..i + 1][..i] == rows[..i];
      assert Marked(rows[..i + 1]) == Marked(rows[..i]) + if row.marked then {row.pid} else {};
      children := children[row.parent := (if row.parent in children then children[row.parent] else []) + [row.pid]];
      if row.marked {
        marked := marked + {row.pid};
      }
    }
    assert rows[..|rows|] == rows;
  }

  method ParseTable(rowOf: string -> Option<Row>, lines: seq<string>) returns (rows: seq<Row>)
    ensures rows == Rows(rowOf, lines)
  {
    rows := [];
    for i := 0 to |lines|
      invariant rows == Rows(rowOf, lines[..i])
    {
      assert lines[..i + 1][..i] == lines[..i];
      var row := rowOf(lines[i]);
      if row.None? {
        continue;
      }
      rows := rows + [row.value];
    }
    assert lines[..|lines|] == lines;
  }

  /** The number of distinct outermost marked processes under `pid`; 0 when there is no table. */
  method ClaudeShellsUnder(rowOf: string -> Option<Row>, table: Option<seq<string>>, pid: int) returns (count: nat)
    ensures count == if table.None? then 0 else |OutermostMarked(Rows(rowOf, table.value), pid)|
  {
    if table.None? {
      return 0;
    }
    var rows := ParseTable(rowOf, table.value);
    var children, marked := ChildrenOf(rows);
    count := 0;
    var queue, seen := [pid], {pid};
    StartsUnder(rows, pid);
    while queue != []
      invariant Searched(rows, pid, seen, queue, None)
      invariant count == |Counted(rows, pid, seen)|
      decreases Listed(rows) - seen, |queue|
    {
      var next := queue[0];
      BeginNext(rows, pid, seen, queue);
      queue := queue[1..];
      seen, queue, count := Expand(rows, pid, next, if next in children then children[next] else [], marked, seen, queue, count);
    }
    SearchedAll(rows, pid, seen);
  }

  lemma BeginNext(rows: seq<Row>, pid: int, seen: set<int>, queue: seq<int>)
    requires queue != [] && Searched(rows, pid, seen, queue, None)
    ensures Searched(rows, pid, seen, queue[1..], Some(queue[0]))
  {
    var next := queue[0];
    assert next in queue;
    assert next in seen && Open(rows, pid, next);
    assert queue == [next] + queue[1..];
  }

  /** The children of `next`: the new ones are seen now, and each is counted or queued. */
  method Expand(ghost rows: seq<Row>, ghost pid: int, ghost next: int, kids: seq<int>, marked: set<int>,
                seen0: set<int>, queue0: seq<int>, count0: nat)
      returns (seen: set<int>, queue: seq<int>, count: nat)
    requires Searched(rows, pid, seen0, queue0, Some(next)) && kids == Kids(rows, next) && marked == Marked(rows)
    requires count0 == |Counted(rows, pid, seen0)|
    ensures Searched(rows, pid, seen, queue, None) && count == |Counted(rows, pid, seen)|
    ensures (seen == seen0 && queue == queue0) || Listed(rows) - seen < Listed(rows) - seen0
  {
    seen, queue, count := seen0, queue0, count0;
    for i := 0 to |kids|
      invariant Searched(rows, pid, seen, queue, Some(next))
      invariant forall k :: 0 <= k < i ==> kids[k] in seen
      invariant count == |Counted(rows, pid, seen)|
      invariant seen0 <= seen
      invariant (seen == seen0 && queue == queue0) || Listed(rows) - seen < Listed(rows) - seen0
    {
      var kid := kids[i];
      if kid in seen {
        continue;
      }
      SeeKid(rows, pid, seen, queue, next, kid);
      seen := seen + {kid};
      if kid in marked {
        count := count + 1;
        continue;
      }
      queue := queue + [kid];
    }
  }
}
