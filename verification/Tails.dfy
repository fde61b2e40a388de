/** Questions answered from a transcript's tail: which tool calls stand unresolved, and which question the
    operator is being asked. A reader of either looks at no more than a window at the end of the file. */
module Tails {
  import opened Lines
  import opened Text
  import Delta

  datatype Call = Call(name: string, input: Bytes)

  datatype Part = Part(toolUse: bool, id: string, call: Call)

  /** One decoded record; Skip for a line that does not decode, a record of another type, or an assistant
      record whose content is no list of parts. */
  datatype Entry =
    | Skip
    | User(meta: bool, prompt: string, results: seq<string>)
    | Assistant(meta: bool, parts: seq<Part>)

  predicate NothingDecodesToNothing(decode: Bytes -> Entry) {
    decode([]) == Skip
  }

  datatype Pending = Pending(calls: map<string, Call>, complete: bool)

  function Without(calls: map<string, Call>, ids: seq<string>): map<string, Call> {
    map id | id in calls && id !in ids :: calls[id]
  }

  function WithUses(calls: map<string, Call>, parts: seq<Part>): map<string, Call> {
    if parts == [] then calls
    else
      var before, part := WithUses(calls, parts[..|parts| - 1]), parts[|parts| - 1];
      if part.toolUse && part.id != "" then before[part.id := part.call] else before
  }

  function Take(p: Pending, entry: Entry): Pending {
    match entry
    case Skip => p
    case User(meta, prompt, results) =>
      if meta then p
      else if prompt != "" then Pending(map[], true)
      else Pending(Without(p.calls, results), p.complete)
    case Assistant(meta, parts) =>
      if meta then p else Pending(WithUses(p.calls, parts), p.complete)
  }

  function TakeAll(decode: Bytes -> Entry, p: Pending, lines: seq<Bytes>): Pending {
    if lines == [] then p
    else Take(TakeAll(decode, p, lines[..|lines| - 1]), decode(lines[|lines| - 1]))
  }

  /** The lines a window starting at `start` is read as: its first is dropped unless the window is the file. */
  function TailLines(f: Bytes, start: nat): seq<Bytes>
    requires start <= |f|
  {
    var lines := Records(f[start..]);
    if start == 0 || lines == [] then lines else lines[1..]
  }

  datatype Tail = Tail(calls: Option<map<string, Call>>, next: nat)

  function PendingFrom(decode: Bytes -> Entry, f: Bytes, start: nat): Tail
    requires start <= |f|
  {
    var p := TakeAll(decode, Pending(map[], start == 0), TailLines(f, start));
    Tail(if p.complete then Some(p.calls) else None, start + CompleteEnd(f[start..]))
  }

  /** As much of the end of the file as the window holds. */
  function TailStart(size: nat, window: nat): (start: nat)
    ensures start <= size && size - start <= window
    ensures start > 0 ==> size - start == window
  {
    if size > window then size - window else 0
  }

  // ---- the readers as they run ---------------------------------------------------------------------

  lemma {:induction false} TakeAllAppend(decode: Bytes -> Entry, p: Pending, first: seq<Bytes>, more: seq<Bytes>)
    ensures TakeAll(decode, p, first + more) == TakeAll(decode, TakeAll(decode, p, first), more)
  {
    if more == [] {
      assert first + more == first;
    } else {
      assert (first + more)[..|first + more| - 1] == first + more[..|more| - 1];
      TakeAllAppend(decode, p, first, more[..|more| - 1]);
    }
  }

  /** The lines the reader splits off its window say what the window's records say. */
  lemma WindowSplit(decode: Bytes -> Entry, p: Pending, f: Bytes, start: nat)
    requires start <= |f| && NothingDecodesToNothing(decode)
    ensures var raw := f[start..];
            var lines := Split(raw[..CompleteEnd(raw)]);
            TakeAll(decode, p, if start > 0 then lines[1..] else lines) == TakeAll(decode, p, TailLines(f, start))
  {
    var raw := f[start..];
    WholePart(raw);
    var lines := Split(raw[..CompleteEnd(raw)]);
    assert lines == Records(raw) + [[]];
    var none: seq<Bytes> := [[]];
    assert none[..0] == [];
    if start == 0 || Records(raw) != [] {
      assert (if start > 0 then lines[1..] else lines) == TailLines(f, start) + none;
      TakeAllAppend(decode, p, TailLines(f, start), none);
    } else {
      assert lines[1..] == [];
    }
  }

  /** One record against the pending calls, part by part. */
  method TakeEntry(p: Pending, entry: Entry) returns (p': Pending)
    ensures p' == Take(p, entry)
  {
    p' := p;
    match entry
    case Skip =>
    case User(meta, prompt, results) =>
      if meta {
        return;
      }
      if prompt != "" {
        p' := Pending(map[], true);
      }
      for i := 0 to |results|
        invariant p'.complete == (prompt != "" || p.complete)
        invariant p'.calls == if prompt != "" then map[] else Without(p.calls, results[..i])
      {
        assert results[..i + 1] == results[..i] + [results[i]];
        p' := p'.(calls := p'.calls - {results[i]});
      }
      assert results[..|results|] == results;
    case Assistant(meta, parts) =>
      if meta {
        return;
      }
      for i := 0 to |parts|
        invariant p' == Pending(WithUses(p.calls, parts[..i]), p.complete)
      {
        assert parts[..i + 1][..i] == parts[..i];
        if parts[i].toolUse && parts[i].id != "" {
          p' := p'.(calls := p'.calls[parts[i].id := parts[i].call]);
        }
      }
      assert parts[..|parts|] == parts;
  }

  method PendingCalls(decode: Bytes -> Entry, f: Bytes) returns (tail: Tail)
    requires NothingDecodesToNothing(decode)
    ensures tail == PendingFrom(decode, f, TailStart(|f|, Delta.DELTA_CAP))
  {
    var start := TailStart(|f|, Delta.DELTA_CAP);
    var raw := f[start..];
    var end := CompleteEnd(raw);
    var lines := Split(raw[..end]);
    if start > 0 {
      lines := lines[1..];
    }
    var p := Pending(map[], start == 0);
    WindowSplit(decode, p, f, start);
    for i := 0 to |lines|
      invariant p == TakeAll(decode, Pending(map[], start == 0), lines[..i])
    {
      assert lines[..i + 1][..i] == lines[..i];
      p := TakeEntry(p, decode(lines[i]));
    }
    assert lines[..|lines|] == lines;
    tail := Tail(if p.complete then Some(p.calls) else None, start + end);
  }

  /** The one unresolved call of that name, of any name when it is empty; "" when there is none or more than
      one. */
  method PendingTool(decode: Bytes -> Entry, f: Bytes, name: string) returns (id: string, next: nat)
    requires NothingDecodesToNothing(decode)
    ensures var tail := PendingFrom(decode, f, TailStart(|f|, Delta.DELTA_CAP));
            && next == tail.next
            && (tail.calls == None ==> id == "")
            && (tail.calls.Some? ==> forall k | k != "" ::
                  id == k <==>
                    && k in tail.calls.value && (name == "" || tail.calls.value[k].name == name)
                    && forall other | other in tail.calls.value && (name == "" || tail.calls.value[other].name == name) :: other == k)
  {
    var tail := PendingCalls(decode, f);
    id, next := "", tail.next;
    if tail.calls == None {
      return;
    }
    var calls := tail.calls.value;
    NoEmptyId(decode, Pending(map[], TailStart(|f|, Delta.DELTA_CAP) == 0), TailLines(f, TailStart(|f|, Delta.DELTA_CAP)));
    var left := calls.Keys;
    while left != {}
      invariant left <= calls.Keys
      invariant id != "" ==> id in calls && id !in left && Named(calls, id, name)
      invariant forall k | k in calls && k !in left && Named(calls, k, name) :: k == id
    {
      var candidate :| candidate in left;
      left := left - {candidate};
      if name != "" && calls[candidate].name != name {
        continue;
      }
      if id != "" {
        assert Named(calls, candidate, name);
        return "", next;
      }
      id := candidate;
    }
  }

  predicate Named(calls: map<string, Call>, id: string, name: string)
    requires id in calls
  {
    name == "" || calls[id].name == name
  }

  lemma {:induction false} NoEmptyId(decode: Bytes -> Entry, p: Pending, lines: seq<Bytes>)
    requires "" !in p.calls
    ensures "" !in TakeAll(decode, p, lines).calls
  {
    if lines != [] {
      NoEmptyId(decode, p, lines[..|lines| - 1]);
      match decode(lines[|lines| - 1])
      case Assistant(_, parts) => NoEmptyUse(TakeAll(decode, p, lines[..|lines| - 1]).calls, parts);
      case _ =>
    }
  }

  lemma {:induction false} NoEmptyUse(calls: map<string, Call>, parts: seq<Part>)
    requires "" !in calls
    ensures "" !in WithUses(calls, parts)
  {
    if parts != [] {
      NoEmptyUse(calls, parts[..|parts| - 1]);
    }
  }

  // ---- a bounded tail refines the whole file -------------------------------------------------------

  /** A prompt somebody typed: everything asked before it is settled. */
  predicate Typed(entry: Entry) {
    entry.User? && !entry.meta && entry.prompt != ""
  }

  predicate TypedIn(decode: Bytes -> Entry, lines: seq<Bytes>) {
    exists i :: 0 <= i < |lines| && Typed(decode(lines[i]))
  }

  /** What was pending before a typed prompt no longer matters. */
  lemma {:induction false} PromptForgets(decode: Bytes -> Entry, p: Pending, q: Pending, lines: seq<Bytes>)
    ensures TypedIn(decode, lines) ==> TakeAll(decode, p, lines) == TakeAll(decode, q, lines) && TakeAll(decode, p, lines).complete
    ensures !TypedIn(decode, lines) ==> TakeAll(decode, p, lines).complete == p.complete
  {
    if lines != [] {
      var n := |lines| - 1;
      var init := lines[..n];
      PromptForgets(decode, p, q, init);
      if TypedIn(decode, init) {
        var i :| 0 <= i < n && Typed(decode(init[i]));
        assert lines[i] == init[i];
      } else {
        assert TypedIn(decode, lines) <==> Typed(decode(lines[n])) by {
          forall i | 0 <= i < n ensures !Typed(decode(lines[i])) {
            assert lines[i] == init[i];
          }
        }
      }
    }
  }

  /** Whenever a bounded read says what is pending, it is what reading the whole file says; and it says so
      exactly when it is the whole file or reaches back to a typed prompt. */
  lemma TailAgrees(decode: Bytes -> Entry, f: Bytes, start: nat)
    requires start <= |f|
    ensures PendingFrom(decode, f, 0).calls.Some?
    ensures PendingFrom(decode, f, start).calls ==
            if start == 0 || TypedIn(decode, TailLines(f, start)) then PendingFrom(decode, f, 0).calls else None
  {
    var empty, lines := Pending(map[], true), TailLines(f, start);
    assert f[0..] == f;
    PromptForgets(decode, empty, empty, Records(f));
    if start > 0 {
      PromptForgets(decode, Pending(map[], false), empty, lines);
      if Records(f[start..]) != [] {
        var j := RecordsFrom(f, start);
        var before := TakeAll(decode, empty, Records(f)[..j]);
        assert Records(f)[..j] + lines == Records(f);
        TakeAllAppend(decode, empty, Records(f)[..j], lines);
        PromptForgets(decode, Pending(map[], false), before, lines);
      }
    }
  }

  /** The cursor handed back is where the file's last whole record ends, unless the window is all of one
      unfinished record: then it is the window's start, which ends a record only by chance. */
  lemma TailCursor(decode: Bytes -> Entry, f: Bytes, start: nat)
    requires start <= |f|
    ensures var next := PendingFrom(decode, f, start).next;
            && next == (if start == 0 || Records(f[start..]) != [] then CompleteEnd(f) else start)
            && (Boundary(f, next) <==> Boundary(f, start) || Records(f[start..]) != [])
  {
    RecordsOrRest(f[start..]);
    RestIsSuffix(f);
    if start == 0 {
      assert f[0..] == f;
    } else if Records(f[start..]) != [] {
      var j := RecordsFrom(f, start);
    }
  }

  /** By chance only: when all of a long file is one unfinished record, the cursor is inside it. */
  lemma CursorInsideRecord(decode: Bytes -> Entry, f: Bytes)
    requires |f| > Delta.DELTA_CAP && Unbroken(f)
    ensures !Boundary(f, PendingFrom(decode, f, TailStart(|f|, Delta.DELTA_CAP)).next)
  {
    var start := TailStart(|f|, Delta.DELTA_CAP);
    UnbrokenHasNoRecord(f[start..]);
    TailCursor(decode, f, start);
  }

  /** The call a record makes under that id: the last one, where it makes several. */
  function AskedBy(entry: Entry, id: string): Option<Call> {
    if entry.Assistant? && !entry.meta then AskedIn(entry.parts, id) else None
  }

  function AskedIn(parts: seq<Part>, id: string): Option<Call> {
    if parts == [] then None
    else
      var part := parts[|parts| - 1];
      if part.toolUse && part.id != "" && part.id == id then Some(part.call) else AskedIn(parts[..|parts| - 1], id)
  }

  predicate Settles(entry: Entry, id: string) {
    Typed(entry) || (entry.User? && !entry.meta && id in entry.results)
  }

  /** `id` was asked for by some record, and no later one settled it or asked under the same id. */
  ghost predicate Unresolved(decode: Bytes -> Entry, lines: seq<Bytes>, id: string, call: Call) {
    exists i :: 0 <= i < |lines| && AskedBy(decode(lines[i]), id) == Some(call) && Untouched(decode, lines, i + 1, id)
  }

  ghost predicate Untouched(decode: Bytes -> Entry, lines: seq<Bytes>, from: nat, id: string) {
    forall j :: from <= j < |lines| ==> !Settles(decode(lines[j]), id) && AskedBy(decode(lines[j]), id) == None
  }

  lemma {:induction false} WithUsesMeaning(calls: map<string, Call>, parts: seq<Part>, id: string)
    ensures AskedIn(parts, id).Some? ==> id in WithUses(calls, parts) && WithUses(calls, parts)[id] == AskedIn(parts, id).value
    ensures AskedIn(parts, id) == None ==> (id in WithUses(calls, parts) <==> id in calls)
    ensures AskedIn(parts, id) == None && id in calls ==> WithUses(calls, parts)[id] == calls[id]
  {
    if parts != [] {
      WithUsesMeaning(calls, parts[..|parts| - 1], id);
    }
  }

  /** The pending calls of a file are exactly the unresolved ones. */
  lemma {:induction false} PendingMeansUnresolved(decode: Bytes -> Entry, lines: seq<Bytes>, id: string, call: Call)
    ensures var calls := TakeAll(decode, Pending(map[], true), lines).calls;
            id in calls && calls[id] == call <==> Unresolved(decode, lines, id, call)
  {
    if lines != [] {
      var n := |lines| - 1;
      var init, last := lines[..n], decode(lines[n]);
      PendingMeansUnresolved(decode, init, id, call);
      LastRecord(decode, lines, id, call);
      if last.Assistant? && !last.meta {
        WithUsesMeaning(TakeAll(decode, Pending(map[], true), init).calls, last.parts, id);
      }
    }
  }

  lemma LastRecord(decode: Bytes -> Entry, lines: seq<Bytes>, id: string, call: Call)
    requires lines != []
    ensures var last := decode(lines[|lines| - 1]);
            Unresolved(decode, lines, id, call) <==>
            if AskedBy(last, id).Some? then AskedBy(last, id) == Some(call)
            else !Settles(last, id) && Unresolved(decode, lines[..|lines| - 1], id, call)
  {
    var n := |lines| - 1;
    var init, last := lines[..n], decode(lines[n]);
    assert forall j :: 0 <= j < n ==> init[j] == lines[j];
    if AskedBy(last, id) == Some(call) {
      assert Untouched(decode, lines, n + 1, id);
    }
    if Unresolved(decode, lines, id, call) {
      var i :| 0 <= i < |lines| && AskedBy(decode(lines[i]), id) == Some(call) && Untouched(decode, lines, i + 1, id);
      if i < n {
        assert Untouched(decode, init, i + 1, id);
        assert AskedBy(decode(init[i]), id) == Some(call);
      }
    }
    if AskedBy(last, id) == None && !Settles(last, id) && Unresolved(decode, init, id, call) {
      var i :| 0 <= i < n && AskedBy(decode(init[i]), id) == Some(call) && Untouched(decode, init, i + 1, id);
      assert Untouched(decode, lines, i + 1, id);
      assert AskedBy(decode(lines[i]), id) == Some(call);
    }
  }
}
