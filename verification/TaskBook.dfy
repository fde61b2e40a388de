/** Work that outlives the turn which started it: what each line of a transcript says started and ended, and
    what a follower of the file knows after any cuts. */
module TaskBook {
  import opened Lines
  import opened Text

  datatype Kind = QueueOperation | UserRecord | AssistantRecord | OtherRecord

  datatype Block = ToolUse(id: string, name: string) | ToolResult(toolUseId: string) | OtherBlock

  /** What a user record's toolUseResult holds: nothing, an object, a list of texts, or something else. */
  datatype Outcome =
    | NoOutcome
    | Fields(backgroundTaskId: string, isAsync: bool, agentId: string, taskId: string,
             message: string, stoppedTaskId: string, killedShellId: string)
    | Texts(texts: seq<string>)
    | OtherOutcome

  datatype Entry = Entry(kind: Kind, session: string, operation: string, content: string, message: string,
                         attachment: string, prompt: string, blocks: seq<Block>, outcome: Outcome)

  /** Which of the marks a line carries. */
  datatype Marks = Marks(notification: bool, launch: bool, monitor: bool)

  /** The outside functions: finding the marks, decoding a line, whether a text opens with a notification, the
      task ids one names, and the task an MCP call says it moved to. */
  datatype Reader = Reader(marks: Bytes -> Marks, decode: Bytes -> Option<Entry>, announces: string -> bool,
                           taskIds: string -> seq<string>, movedTo: string -> Option<string>)

  datatype Tasks = Tasks(monitors: set<string>, started: set<string>, ended: set<string>)

  const NO_TASKS := Tasks({}, {}, {})

  function Pending(t: Tasks): set<string> {
    t.started - t.ended
  }

  const MONITOR := "Monitor"
  const ENQUEUE := "enqueue"
  const QUEUED_COMMAND := "queued_command"
  const STOPPED := "Successfully stopped task"
  const KILLED := "Successfully killed shell"

  /** The decoded line, when any mark made it worth decoding. */
  function Read(r: Reader, line: Bytes): Option<Entry> {
    var m := r.marks(line);
    if m.notification || m.launch || m.monitor then r.decode(line) else None
  }

  /** Where a notification's text is: a queued message, a user turn, or an attachment to one. */
  function NoticeText(e: Entry): string {
    if e.kind == QueueOperation && e.operation == ENQUEUE then e.content
    else if e.kind == UserRecord then e.message
    else if e.attachment == QUEUED_COMMAND then e.prompt
    else ""
  }

  function Noticed(r: Reader, line: Bytes, e: Entry): set<string> {
    var text := NoticeText(e);
    if r.marks(line).notification && r.announces(text) then set id | id in r.taskIds(text) else {}
  }

  function MonitorCalls(r: Reader, line: Bytes): set<string> {
    var e := Read(r, line);
    if e.Some? && e.value.kind == AssistantRecord && r.marks(line).monitor
    then set b | b in e.value.blocks && b.ToolUse? && b.name == MONITOR :: b.id
    else {}
  }

  /** A result this conversation owns: one its own name is on, or no name at all. */
  predicate Counts(own: string, e: Entry) {
    e.kind == UserRecord && !e.outcome.NoOutcome? && (e.session == "" || e.session == own)
  }

  predicate AnswersMonitor(monitors: set<string>, blocks: seq<Block>) {
    exists b :: b in blocks && b.ToolResult? && b.toolUseId in monitors
  }

  function StartedBy(own: string, r: Reader, monitors: set<string>, e: Entry): set<string> {
    if !Counts(own, e) then {}
    else
      match e.outcome
      case Fields(background, isAsync, agent, task, _, _, _) =>
        if background != "" then {background}
        else if isAsync && agent != "" then {agent}
        else if task != "" && AnswersMonitor(monitors, e.blocks) then {task}
        else {}
      case Texts(texts) => set t | t in texts && r.movedTo(t).Some? :: r.movedTo(t).value
      case _ => {}
  }

  function StoppedBy(own: string, r: Reader, monitors: set<string>, e: Entry): set<string> {
    if !Counts(own, e) || !e.outcome.Fields? || StartedBy(own, r, monitors, e) != {} then {}
    else if e.outcome.stoppedTaskId != "" && STOPPED <= e.outcome.message then {e.outcome.stoppedTaskId}
    else if e.outcome.killedShellId != "" && KILLED <= e.outcome.message then {e.outcome.killedShellId}
    else {}
  }

  function EndedBy(own: string, r: Reader, monitors: set<string>, line: Bytes): set<string> {
    var e := Read(r, line);
    if e.Some? then Noticed(r, line, e.value) + StoppedBy(own, r, monitors, e.value) else {}
  }

  function Launches(own: string, r: Reader, monitors: set<string>, line: Bytes): set<string> {
    var e := Read(r, line);
    if e.Some? then StartedBy(own, r, monitors, e.value) else {}
  }

  function Take(own: string, r: Reader, t: Tasks, line: Bytes): Tasks {
    Tasks(t.monitors + MonitorCalls(r, line),
          t.started + Launches(own, r, t.monitors, line),
          t.ended + EndedBy(own, r, t.monitors, line))
  }

  function TakeAll(own: string, r: Reader, t: Tasks, lines: seq<Bytes>): Tasks {
    if lines == [] then t
    else Take(own, r, TakeAll(own, r, t, lines[..|lines| - 1]), lines[|lines| - 1])
  }

  lemma {:induction false} TakeAllAppend(own: string, r: Reader, t: Tasks, first: seq<Bytes>, more: seq<Bytes>)
    ensures TakeAll(own, r, t, first + more) == TakeAll(own, r, TakeAll(own, r, t, first), more)
  {
    if more == [] {
      assert first + more == first;
    } else {
      assert (first + more)[..|first + more| - 1] == first + more[..|more| - 1];
      TakeAllAppend(own, r, t, first, more[..|more| - 1]);
    }
  }

  // ---- following a file ----------------------------------------------------------------------------

  /** Where a follower stands: all it has read is taken, but for an unterminated last line it keeps. */
  datatype Position = Position(offset: nat, partial: Bytes, tasks: Tasks)

  const START := Position(0, [], NO_TASKS)

  function Advance(own: string, r: Reader, p: Position, added: Bytes): Position {
    var unread := p.partial + added;
    Position(p.offset + |added|, Rest(unread), TakeAll(own, r, p.tasks, CompleteLines(unread)))
  }

  function Poll(own: string, r: Reader, p: Position, f: Bytes): Position {
    var from := if |f| < p.offset then START else p;
    Advance(own, r, from, f[from.offset..])
  }

  /** What a follower that has just read `f` from its beginning holds. */
  function Fresh(own: string, r: Reader, f: Bytes): Position {
    Position(|f|, Rest(f), TakeAll(own, r, NO_TASKS, CompleteLines(f)))
  }

  /** Polls of one path; None is a poll at which the file could not be opened, which forgets it. */
  function PollAll(own: string, r: Reader, versions: seq<Option<Bytes>>): Position {
    if versions == [] then START
    else
      match versions[|versions| - 1]
      case None => START
      case Some(f) => Poll(own, r, PollAll(own, r, versions[..|versions| - 1]), f)
  }

  predicate Follows(earlier: Option<Bytes>, later: Option<Bytes>) {
    earlier.Some? && later.Some? ==> earlier.value <= later.value || |later.value| < |earlier.value|
  }

  ghost predicate AppendOnlyOrReplaced(versions: seq<Option<Bytes>>) {
    forall i :: 0 < i < |versions| ==> Follows(versions[i - 1], versions[i])
  }

  lemma PollGrown(own: string, r: Reader, f: Bytes, g: Bytes)
    requires f <= g
    ensures Poll(own, r, Fresh(own, r, f), g) == Fresh(own, r, g)
  {
    var added := g[|f|..];
    assert g == f + added;
    AppendRest(f, added);
    AppendLines(f, added);
    TakeAllAppend(own, r, NO_TASKS, CompleteLines(f), CompleteLines(Rest(f) + added));
  }

  lemma PollFromStart(own: string, r: Reader, p: Position, g: Bytes)
    requires p == START || |g| < p.offset
    ensures Poll(own, r, p, g) == Fresh(own, r, g)
  {
    assert [] + g[0..] == g;
  }

  /** However appends were cut into polls, mid-line or not, a follower ends where one read of the last version
      ends: what is pending depends on the file's complete lines only. */
  lemma {:induction false} AnyCutsSame(own: string, r: Reader, versions: seq<Option<Bytes>>)
    requires versions != [] && AppendOnlyOrReplaced(versions)
    ensures PollAll(own, r, versions) ==
            match versions[|versions| - 1] case None => START case Some(f) => Fresh(own, r, f)
  {
    var n := |versions| - 1;
    var init := versions[..n];
    if versions[n].Some? {
      var g := versions[n].value;
      if n == 0 {
        PollFromStart(own, r, START, g);
      } else {
        assert AppendOnlyOrReplaced(init) by {
          forall i | 0 < i < n ensures Follows(init[i - 1], init[i]) {
            assert Follows(versions[i - 1], versions[i]);
          }
        }
        AnyCutsSame(own, r, init);
        assert init[n - 1] == versions[n - 1] && Follows(versions[n - 1], versions[n]);
        if versions[n - 1].Some? && versions[n - 1].value <= g {
          PollGrown(own, r, versions[n - 1].value, g);
        } else {
          PollFromStart(own, r, PollAll(own, r, init), g);
        }
      }
    }
  }

  /** A half-written line counts for nothing until its newline arrives. */
  lemma HalfALineWaits(own: string, r: Reader, f: Bytes, piece: Bytes)
    requires Unbroken(piece)
    ensures Fresh(own, r, f + piece).tasks == Fresh(own, r, f).tasks
  {
    UnbrokenAdded(f, piece);
    assert CompleteLines(f) + [] == CompleteLines(f);
  }

  lemma UnbrokenAdded(f: Bytes, piece: Bytes)
    requires Unbroken(piece)
    ensures CompleteLines(f + piece) == CompleteLines(f) + []
  {
    RestIsSuffix(f);
    AppendLines(f, piece);
    UnbrokenJoin(Rest(f), piece);
    UnbrokenHasNoRecord(Rest(f) + piece);
  }

  lemma UnbrokenJoin(a: Bytes, b: Bytes)
    requires Unbroken(a) && Unbroken(b)
    ensures Unbroken(a + b)
  {
    assert forall j :: 0 <= j < |a| + |b| ==> (a + b)[j] == if j < |a| then a[j] else b[j - |a|];
  }

  // ---- what the sets mean --------------------------------------------------------------------------

  /** The ids of the Monitor calls some of these lines make. */
  ghost function MonitorsIn(r: Reader, lines: seq<Bytes>): set<string> {
    set j, id | 0 <= j < |lines| && id in MonitorCalls(r, lines[j]) :: id
  }

  ghost predicate StartedIn(own: string, r: Reader, lines: seq<Bytes>, id: string) {
    exists i :: 0 <= i < |lines| && id in Launches(own, r, MonitorsIn(r, lines[..i]), lines[i])
  }

  ghost predicate EndedIn(own: string, r: Reader, lines: seq<Bytes>, id: string) {
    exists i :: 0 <= i < |lines| && id in EndedBy(own, r, MonitorsIn(r, lines[..i]), lines[i])
  }

  lemma {:induction false} MonitorsMeaning(own: string, r: Reader, lines: seq<Bytes>)
    ensures TakeAll(own, r, NO_TASKS, lines).monitors == MonitorsIn(r, lines)
  {
    if lines != [] {
      var n := |lines| - 1;
      MonitorsMeaning(own, r, lines[..n]);
      assert forall j :: 0 <= j < n ==> lines[..n][j] == lines[j];
      assert MonitorsIn(r, lines) == MonitorsIn(r, lines[..n]) + MonitorCalls(r, lines[n]);
    }
  }

  lemma StartedSplit(own: string, r: Reader, lines: seq<Bytes>, id: string)
    requires lines != []
    ensures var n := |lines| - 1;
            StartedIn(own, r, lines, id) <==>
            StartedIn(own, r, lines[..n], id) || id in Launches(own, r, MonitorsIn(r, lines[..n]), lines[n])
  {
    var n := |lines| - 1;
    var init := lines[..n];
    assert forall i :: 0 <= i < n ==> init[i] == lines[i] && init[..i] == lines[..i];
    if StartedIn(own, r, init, id) {
      var i :| 0 <= i < n && id in Launches(own, r, MonitorsIn(r, init[..i]), init[i]);
      assert id in Launches(own, r, MonitorsIn(r, lines[..i]), lines[i]);
    }
    if StartedIn(own, r, lines, id) {
      var i :| 0 <= i < |lines| && id in Launches(own, r, MonitorsIn(r, lines[..i]), lines[i]);
      assert i < n ==> id in Launches(own, r, MonitorsIn(r, init[..i]), init[i]);
    }
  }

  lemma EndedSplit(own: string, r: Reader, lines: seq<Bytes>, id: string)
    requires lines != []
    ensures var n := |lines| - 1;
            EndedIn(own, r, lines, id) <==>
            EndedIn(own, r, lines[..n], id) || id in EndedBy(own, r, MonitorsIn(r, lines[..n]), lines[n])
  {
    var n := |lines| - 1;
    var init := lines[..n];
    assert forall i :: 0 <= i < n ==> init[i] == lines[i] && init[..i] == lines[..i];
    if EndedIn(own, r, init, id) {
      var i :| 0 <= i < n && id in EndedBy(own, r, MonitorsIn(r, init[..i]), init[i]);
      assert id in EndedBy(own, r, MonitorsIn(r, lines[..i]), lines[i]);
    }
    if EndedIn(own, r, lines, id) {
      var i :| 0 <= i < |lines| && id in EndedBy(own, r, MonitorsIn(r, lines[..i]), lines[i]);
      assert i < n ==> id in EndedBy(own, r, MonitorsIn(r, init[..i]), init[i]);
    }
  }

  /** A task is pending exactly when some line launched it and no line, before or after that one, ended it. */
  lemma {:induction false} PendingMeans(own: string, r: Reader, lines: seq<Bytes>, id: string)
    ensures var t := TakeAll(own, r, NO_TASKS, lines);
            && (id in t.started <==> StartedIn(own, r, lines, id))
            && (id in t.ended <==> EndedIn(own, r, lines, id))
            && (id in Pending(t) <==> StartedIn(own, r, lines, id) && !EndedIn(own, r, lines, id))
  {
    if lines != [] {
      var n := |lines| - 1;
      PendingMeans(own, r, lines[..n], id);
      MonitorsMeaning(own, r, lines[..n]);
      StartedSplit(own, r, lines, id);
      EndedSplit(own, r, lines, id);
    }
  }

  /** Nothing is ever forgotten while a file is followed. */
  lemma {:induction false} OnlyGrows(own: string, r: Reader, t: Tasks, lines: seq<Bytes>)
    ensures var t' := TakeAll(own, r, t, lines);
            t.monitors <= t'.monitors && t.started <= t'.started && t.ended <= t'.ended
  {
    if lines != [] {
      OnlyGrows(own, r, t, lines[..|lines| - 1]);
    }
  }

  lemma GrownKeepsEnded(own: string, r: Reader, f: Bytes, g: Bytes)
    requires f <= g
    ensures Fresh(own, r, f).tasks.ended <= Fresh(own, r, g).tasks.ended
  {
    var added := g[|f|..];
    assert g == f + added;
    AppendLines(f, added);
    TakeAllAppend(own, r, NO_TASKS, CompleteLines(f), CompleteLines(Rest(f) + added));
    OnlyGrows(own, r, Fresh(own, r, f).tasks, CompleteLines(Rest(f) + added));
  }

  lemma FirstPolls(versions: seq<Option<Bytes>>, i: nat)
    requires AppendOnlyOrReplaced(versions) && i < |versions|
    ensures AppendOnlyOrReplaced(versions[..i + 1])
  {
    var first := versions[..i + 1];
    forall k | 0 < k < |first| ensures Follows(first[k - 1], first[k]) {
      assert Follows(versions[k - 1], versions[k]);
    }
  }

  /** A task seen to end is never pending again in that file, however it is cut and whatever is written later:
      not even when a line launches one under the same id. */
  lemma EndedForGood(own: string, r: Reader, versions: seq<Option<Bytes>>, i: nat, id: string)
    requires AppendOnlyOrReplaced(versions) && i < |versions| && versions[|versions| - 1].Some?
    requires versions[i].Some? && versions[i].value <= versions[|versions| - 1].value
    requires id in PollAll(own, r, versions[..i + 1]).tasks.ended
    ensures id !in Pending(PollAll(own, r, versions).tasks)
  {
    FirstPolls(versions, i);
    AnyCutsSame(own, r, versions[..i + 1]);
    AnyCutsSame(own, r, versions);
    GrownKeepsEnded(own, r, versions[i].value, versions[|versions| - 1].value);
  }

  /** A result stamped with another conversation neither starts nor stops a task here. */
  lemma ForeignResultsDoNotCount(own: string, r: Reader, t: Tasks, line: Bytes)
    requires Read(r, line).Some? && Read(r, line).value.session !in {"", own}
    ensures var t' := Take(own, r, t, line);
            t'.started == t.started && t'.ended == t.ended + Noticed(r, line, Read(r, line).value)
  {
  }

  // ---- whose launches count ------------------------------------------------------------------------

  /** A record that says a task was put in the background. */
  predicate BackgroundOf(e: Entry, id: string) {
    e.outcome.Fields? && id != "" && e.outcome.backgroundTaskId == id
  }

  /** A record that says an agent was started and not waited for. */
  predicate AgentOf(e: Entry, id: string) {
    e.outcome.Fields? && id != "" && e.outcome.backgroundTaskId == "" && e.outcome.isAsync && e.outcome.agentId == id
  }

  /** A record that answers a Monitor call with the task it watches. */
  predicate MonitorOf(monitors: set<string>, e: Entry, id: string) {
    && e.outcome.Fields? && id != "" && e.outcome.backgroundTaskId == "" && !(e.outcome.isAsync && e.outcome.agentId != "")
    && e.outcome.taskId == id && exists b :: b in e.blocks && b.ToolResult? && b.toolUseId in monitors
  }

  /** A record one of whose texts says that an MCP call was moved to a task. */
  predicate MovedOf(r: Reader, e: Entry, id: string) {
    e.outcome.Texts? && exists t :: t in e.outcome.texts && r.movedTo(t) == Some(id)
  }

  predicate Launching(r: Reader, monitors: set<string>, e: Entry, id: string) {
    BackgroundOf(e, id) || AgentOf(e, id) || MonitorOf(monitors, e, id) || MovedOf(r, e, id)
  }

  /** A line launches a task exactly when it is a user's record of one of the four kinds, and it is stamped with
      this conversation or not stamped at all. */
  lemma LaunchesExactly(own: string, r: Reader, monitors: set<string>, line: Bytes, id: string)
    ensures id in Launches(own, r, monitors, line) <==>
            exists e :: Says(r, line, e) && OwnResult(own, e) && Launching(r, monitors, e, id)
  {
    if Read(r, line).Some? {
      assert Says(r, line, Read(r, line).value);
    }
  }

  /** A line with one of the marks in it, and the record it decodes to. */
  predicate Says(r: Reader, line: Bytes, e: Entry) {
    (r.marks(line).notification || r.marks(line).launch || r.marks(line).monitor) && r.decode(line) == Some(e)
  }

  /** A user's record of what a tool did, stamped with this conversation or not stamped at all. */
  predicate OwnResult(own: string, e: Entry) {
    e.kind == UserRecord && !e.outcome.NoOutcome? && (e.session == "" || e.session == own)
  }

  /** The record is a notification that names the task: a queued message, else a user's turn, else the prompt
      attached to one. */
  predicate Announcing(r: Reader, e: Entry, id: string) {
    var queued, turn, attached :=
      e.kind == QueueOperation && e.operation == ENQUEUE, e.kind == UserRecord, e.attachment == QUEUED_COMMAND;
    || (queued && r.announces(e.content) && id in r.taskIds(e.content))
    || (turn && r.announces(e.message) && id in r.taskIds(e.message))
    || (!queued && !turn && attached && r.announces(e.prompt) && id in r.taskIds(e.prompt))
    || (!queued && !turn && !attached && r.announces("") && id in r.taskIds(""))
  }

  /** The record says that the task was stopped, or its shell killed, and neither that another one was. */
  predicate Stopping(e: Entry, id: string) {
    && e.outcome.Fields? && id != ""
    && var stopped := e.outcome.stoppedTaskId != "" && STOPPED <= e.outcome.message;
    || (stopped && e.outcome.stoppedTaskId == id)
    || (!stopped && e.outcome.killedShellId == id && KILLED <= e.outcome.message)
  }

  /** A line ends a task exactly when it carries the notification's mark and is a notification that names it, or is
      this conversation's record that the task was stopped or killed, and launches nothing. */
  lemma EndsExactly(own: string, r: Reader, monitors: set<string>, line: Bytes, id: string)
    ensures id in EndedBy(own, r, monitors, line) <==>
            exists e :: Says(r, line, e) &&
              ((r.marks(line).notification && Announcing(r, e, id)) ||
               (OwnResult(own, e) && Stopping(e, id) && forall x :: !Launching(r, monitors, e, x)))
  {
    var read := Read(r, line);
    if read.Some? {
      if OwnResult(own, read.value) && read.value.outcome.Fields? {
        LaunchesNothing(own, r, monitors, read.value);
      }
      assert forall e :: Says(r, line, e) ==> e == read.value;
      assert Says(r, line, read.value);
    }
  }

  lemma LaunchesNothing(own: string, r: Reader, monitors: set<string>, e: Entry)
    requires OwnResult(own, e) && e.outcome.Fields?
    ensures StartedBy(own, r, monitors, e) == {} <==> forall x :: !Launching(r, monitors, e, x)
  {
    forall x ensures x in StartedBy(own, r, monitors, e) <==> Launching(r, monitors, e, x) {
    }
    if StartedBy(own, r, monitors, e) != {} {
      var x :| x in StartedBy(own, r, monitors, e);
    }
  }

  /** A line makes a Monitor call exactly when it carries that mark, and is an assistant's record that uses the tool
      under that id. */
  lemma MonitorsExactly(r: Reader, line: Bytes, id: string)
    ensures id in MonitorCalls(r, line) <==>
            r.marks(line).monitor &&
            exists e :: Says(r, line, e) && e.kind == AssistantRecord && ToolUse(id, MONITOR) in e.blocks
  {
    var read := Read(r, line);
    if read.Some? && ToolUse(id, MONITOR) in read.value.blocks {
      var b := ToolUse(id, MONITOR);
      assert b.ToolUse? && b.name == MONITOR && b.id == id;
    }
  }

  /** Kind by kind: of each, the stamp alone decides. */
  lemma StampDecides(own: string, r: Reader, monitors: set<string>, line: Bytes, id: string)
    requires Read(r, line).Some? && Read(r, line).value.kind == UserRecord
    ensures var e := Read(r, line).value;
            var counted := id in Launches(own, r, monitors, line);
            var stamped := e.session in {"", own};
            && (BackgroundOf(e, id) ==> (counted <==> stamped))
            && (AgentOf(e, id) ==> (counted <==> stamped))
            && (MonitorOf(monitors, e, id) ==> (counted <==> stamped))
            && (MovedOf(r, e, id) ==> (counted <==> stamped))
  {
    LaunchesExactly(own, r, monitors, line, id);
  }

  /** So a launch on a line with no stamp counts in every conversation: one such line, which every follower,
      whatever the conversation its file is named for, shows as pending. */
  lemma UnstampedLaunchCounts(id: string) returns (r: Reader, line: Bytes)
    requires id != ""
    ensures Read(r, line).Some? && Read(r, line).value.session == ""
    ensures forall own :: Pending(Fresh(own, r, line).tasks) == {id}
  {
    var e := Entry(UserRecord, "", "", "", "", "", "", [], Fields(id, false, "", "", "", "", ""));
    r := Reader(l => Marks(false, true, false), l => Some(e), text => false, text => [], text => None);
    line := [0] + [NEWLINE];
    forall own ensures Pending(Fresh(own, r, line).tasks) == {id} {
      FirstLine(own, r, [0]);
      LaunchTaken(own, r, line, id);
    }
  }

  lemma FirstLine(own: string, r: Reader, record: Bytes)
    requires Unbroken(record)
    ensures Fresh(own, r, record + [NEWLINE]).tasks == Take(own, r, NO_TASKS, record + [NEWLINE])
  {
    var line := record + [NEWLINE];
    FirstRecord(record, []);
    var none: Bytes := [];
    assert CompleteLines(none) == [] && line + none == line;
    assert CompleteLines(line) == [line];
    assert [line][..0] == [];
    assert TakeAll(own, r, NO_TASKS, [line]) == Take(own, r, TakeAll(own, r, NO_TASKS, [line][..0]), line);
  }

  lemma LaunchTaken(own: string, r: Reader, line: Bytes, id: string)
    requires Read(r, line).Some? && Read(r, line).value.session == "" && Read(r, line).value.kind == UserRecord
    requires BackgroundOf(Read(r, line).value, id) && !r.marks(line).notification
    ensures Pending(Take(own, r, NO_TASKS, line)) == {id}
  {
    assert StartedBy(own, r, {}, Read(r, line).value) == {id};
  }
}
