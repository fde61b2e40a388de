/** The followers of background work as they run: one buffered reader per transcript. */
module Background {
  import opened Lines
  import opened Text
  import opened TaskBook

  const JSONL := ".jsonl"

  class BackgroundFile {
    const own: string
    const reader: Reader
    var offset: nat
    var partial: Bytes
    var monitors: set<string>
    var started: set<string>
    var ended: set<string>

    constructor (own: string, reader: Reader)
      ensures Valid() && Position() == START && this.own == own && this.reader == reader
    {
      this.own, this.reader := own, reader;
      offset, partial := 0, [];
      monitors, started, ended := {}, {}, {};
    }

    predicate Valid()
      reads this
    {
      Unbroken(partial)
    }

    ghost function Tasks(): Tasks
      reads this
    {
      TaskBook.Tasks(monitors, started, ended)
    }

    ghost function Position(): Position
      reads this
    {
      TaskBook.Position(offset, partial, Tasks())
    }

    /** What was appended, a buffered piece of a line before it. */
    method Read(added: Bytes)
      requires Valid()
      modifies this
      ensures Valid() && Position() == Advance(own, reader, old(Position()), added)
    {
      ghost var end := Advance(own, reader, Position(), added);
      var pos, eof := 0, false;
      assert added[0..] == added;
      while !eof
        invariant 0 <= pos <= |added| && Valid()
        invariant end == if eof then Position() else Advance(own, reader, Position(), added[pos..])
        decreases !eof, |added| - pos
      {
        pos, eof := ReadNext(added, pos);
      }
    }

    /** One round of the loop: a whole line is taken, the end of the file leaves a piece to keep. */
    method ReadNext(added: Bytes, pos: nat) returns (next: nat, eof: bool)
      requires Valid() && pos <= |added|
      modifies this
      ensures Valid() && pos <= next <= |added| && (!eof ==> pos < next)
      ensures old(Advance(own, reader, Position(), added[pos..])) ==
              if eof then Position() else Advance(own, reader, Position(), added[next..])
    {
      var piece;
      piece, eof := ReadPiece(own, reader, Position(), added, pos);
      next := pos + |piece|;
      if eof {
        Keep(piece);
      } else {
        TakePiece(piece);
      }
    }

    /** The end of the file: what there is of a line is kept. */
    method Keep(piece: Bytes)
      requires Valid() && Unbroken(partial + piece)
      modifies this`offset, this`partial
      ensures Valid() && Position() == old(TaskBook.Position(offset + |piece|, partial + piece, Tasks()))
    {
      offset := offset + |piece|;
      partial := partial + piece;
    }

    method TakePiece(piece: Bytes)
      requires Valid()
      modifies this
      ensures Valid()
      ensures Position() == old(TaskBook.Position(offset + |piece|, [], Take(own, reader, Tasks(), partial + piece)))
    {
      offset := offset + |piece|;
      TakeLine(piece);
    }

    /** The end of a line: whatever was kept of its beginning goes in front. */
    method TakeLine(piece: Bytes)
      requires Valid()
      modifies this`partial, this`monitors, this`started, this`ended
      ensures Valid() && partial == []
      ensures Tasks() == Take(own, reader, old(Tasks()), old(partial) + piece)
    {
      var line := piece;
      if |partial| > 0 {
        line := partial + line;
        partial := [];
      }
      assert line == old(partial) + piece;
      TakeEntry(line);
    }

    /** One whole line. */
    method TakeEntry(line: Bytes)
      requires Valid()
      modifies this`monitors, this`started, this`ended
      ensures Valid() && Tasks() == Take(own, reader, old(Tasks()), line)
    {
      var m := reader.marks(line);
      if !m.notification && !m.launch && !m.monitor {
        return;
      }
      var decoded := reader.decode(line);
      if decoded.None? {
        return;
      }
      var e := decoded.value;
      if m.notification {
        TakeNotice(e);
      }
      if e.kind == AssistantRecord && m.monitor {
        TakeMonitors(e);
      }
      if e.kind != UserRecord || e.outcome.NoOutcome? {
        return;
      }
      if e.session != "" && e.session != own {
        return;
      }
      TakeOutcome(e);
    }

    method TakeNotice(e: Entry)
      modifies this`ended
      ensures ended == old(ended) + if reader.announces(NoticeText(e)) then set id | id in reader.taskIds(NoticeText(e)) else {}
    {
      var text := "";
      if e.kind == QueueOperation && e.operation == ENQUEUE {
        text := e.content;
      } else if e.kind == UserRecord {
        text := e.message;
      } else if e.attachment == QUEUED_COMMAND {
        text := e.prompt;
      }
      if reader.announces(text) {
        ended := ended + (set id | id in reader.taskIds(text));
      }
    }

    method TakeMonitors(e: Entry)
      modifies this`monitors
      ensures monitors == old(monitors) + set b | b in e.blocks && b.ToolUse? && b.name == MONITOR :: b.id
    {
      monitors := monitors + (set b | b in e.blocks && b.ToolUse? && b.name == MONITOR :: b.id);
    }

    method TakeOutcome(e: Entry)
      requires Counts(own, e)
      modifies this`started, this`ended
      ensures started == old(started) + StartedBy(own, reader, monitors, e)
      ensures ended == old(ended) + StoppedBy(own, reader, monitors, e)
    {
      if e.outcome.Fields? {
        var result := e.outcome;
        var answersMonitor := ResultOfMonitor(e.blocks);
        if result.backgroundTaskId != "" {
          started := started + {result.backgroundTaskId};
        } else if result.isAsync && result.agentId != "" {
          started := started + {result.agentId};
        } else if result.taskId != "" && answersMonitor {
          started := started + {result.taskId};
        } else if result.stoppedTaskId != "" && STOPPED <= result.message {
          ended := ended + {result.stoppedTaskId};
        } else if result.killedShellId != "" && KILLED <= result.message {
          ended := ended + {result.killedShellId};
        }
      } else if e.outcome.Texts? {
        MovedTasks(e.outcome.texts);
      }
    }

    method MovedTasks(texts: seq<string>)
      modifies this`started
      ensures started == old(started) + set t | t in texts && reader.movedTo(t).Some? :: reader.movedTo(t).value
    {
      for i := 0 to |texts|
        invariant started == old(started) + set t | t in texts[..i] && reader.movedTo(t).Some? :: reader.movedTo(t).value
      {
        assert texts[..i + 1] == texts[..i] + [texts[i]];
        if reader.movedTo(texts[i]).Some? {
          started := started + {reader.movedTo(texts[i]).value};
        }
      }
      assert texts[..|texts|] == texts;
    }

    method ResultOfMonitor(blocks: seq<Block>) returns (answers: bool)
      ensures answers <==> AnswersMonitor(monitors, blocks)
    {
      for i := 0 to |blocks|
        invariant forall k :: 0 <= k < i ==> !(blocks[k].ToolResult? && blocks[k].toolUseId in monitors)
      {
        if blocks[i].ToolResult? && blocks[i].toolUseId in monitors {
          assert blocks[i] in blocks;
          return true;
        }
      }
      return false;
    }
  }

  lemma TakeNext(own: string, r: Reader, t: Tasks, line: Bytes, left: seq<Bytes>)
    ensures TakeAll(own, r, t, [line] + left) == TakeAll(own, r, Take(own, r, t, line), left)
  {
    TakeAllAppend(own, r, t, [line], left);
    assert [line][..0] == [];
    assert TakeAll(own, r, t, [line]) == Take(own, r, TakeAll(own, r, t, []), line);
  }

  /** The next piece a reader is handed, and where a follower at `p` stands once it has taken it: with one more
      line whole, or with more kept of an unfinished one. */
  method ReadPiece(ghost own: string, ghost r: Reader, ghost p: Position, added: Bytes, pos: nat) returns (piece: Bytes, eof: bool)
    requires pos <= |added| && Unbroken(p.partial)
    ensures pos + |piece| <= |added| && (!eof ==> piece != [])
    ensures eof ==> Unbroken(p.partial + piece)
                    && Advance(own, r, p, added[pos..]) == Position(p.offset + |piece|, p.partial + piece, p.tasks)
    ensures !eof ==>
      Advance(own, r, p, added[pos..]) ==
      Advance(own, r, Position(p.offset + |piece|, [], Take(own, r, p.tasks, p.partial + piece)), added[pos + |piece|..])
  {
    piece, eof := ReadBytes(added, pos);
    if eof {
      UnbrokenJoin(p.partial, piece);
      UnbrokenHasNoRecord(p.partial + piece);
    } else {
      FirstNewline(added, pos, piece);
      assert added[pos..] == piece + added[pos + |piece|..];
      LineTaken(own, r, p, piece, added[pos + |piece|..]);
    }
  }

  lemma LineTaken(own: string, r: Reader, p: Position, piece: Bytes, rest: Bytes)
    requires Unbroken(p.partial) && piece != [] && piece[|piece| - 1] == NEWLINE && Unbroken(piece[..|piece| - 1])
    ensures Advance(own, r, p, piece + rest) ==
            Advance(own, r, Position(p.offset + |piece|, [], Take(own, r, p.tasks, p.partial + piece)), rest)
  {
    FirstLineOf(p.partial, piece, rest);
    TakeNext(own, r, p.tasks, p.partial + piece, CompleteLines(rest));
    assert [] + rest == rest;
  }

  /** A line whose beginning was kept, and what follows it. */
  lemma FirstLineOf(partial: Bytes, piece: Bytes, rest: Bytes)
    requires Unbroken(partial) && piece != [] && piece[|piece| - 1] == NEWLINE && Unbroken(piece[..|piece| - 1])
    ensures CompleteLines(partial + (piece + rest)) == [partial + piece] + CompleteLines(rest)
    ensures Rest(partial + (piece + rest)) == Rest(rest)
  {
    var record := partial + piece[..|piece| - 1];
    UnbrokenJoin(partial, piece[..|piece| - 1]);
    assert partial + piece == record + [NEWLINE];
    assert partial + (piece + rest) == record + [NEWLINE] + rest;
    FirstRecord(record, rest);
    RestIsSuffix(record + [NEWLINE] + rest);
    RestIsSuffix(rest);
  }

  lemma FirstNewline(f: Bytes, pos: nat, piece: Bytes)
    requires pos + |piece| <= |f| && piece == f[pos..pos + |piece|] && piece != [] && piece[|piece| - 1] == NEWLINE
    requires CompleteLines(f[pos..]) == [piece] + CompleteLines(f[pos + |piece|..])
    ensures Unbroken(piece[..|piece| - 1])
  {
    assert CompleteLines(f[pos..])[0] == piece;
    LinesAreUnbroken(f[pos..]);
  }

  lemma {:induction false} LinesAreUnbroken(f: Bytes)
    ensures forall line :: line in CompleteLines(f) ==> line != [] && Unbroken(line[..|line| - 1])
  {
    if f != [] {
      var g := f[..|f| - 1];
      LinesAreUnbroken(g);
      RestIsSuffix(g);
      assert (Rest(g) + [NEWLINE])[..|Rest(g)|] == Rest(g);
    }
  }

  class Background {
    const reader: Reader
    /** The last element of a path. */
    const base: string -> string
    var files: map<string, BackgroundFile>

    constructor (reader: Reader, base: string -> string)
      ensures Valid() && files == map[] && this.reader == reader && this.base == base
    {
      this.reader, this.base := reader, base;
      files := map[];
    }

    ghost function Repr(): set<object>
      reads this
    {
      {this} + set path | path in files :: files[path] as object
    }

    /** The conversation a path is named for: its last element, without `.jsonl` at its end. */
    function OwnName(path: string): (own: string)
      ensures base(path) == own || base(path) == own + ".jsonl"
      ensures base(path) == own ==> !HasSuffix(own, ".jsonl")
    {
      var cut := CutSuffix(base(path), JSONL);
      if cut.Some? then cut.value else base(path)
    }

    ghost predicate Valid()
      reads Repr()
    {
      && (forall p, q :: p in files && q in files && p != q ==> files[p] != files[q])
      && forall p :: p in files ==> files[p].Valid() && files[p].reader == reader && files[p].own == OwnName(p)
    }

    ghost function PositionOf(path: string): Position
      reads Repr()
    {
      if path in files then files[path].Position() else START
    }

    /** The state of `path` there is, replaced when the file is shorter than what was read of it. */
    method StateFor(path: string, size: nat) returns (state: BackgroundFile)
      requires Valid()
      modifies this
      ensures Valid() && path in files && files == old(files)[path := files[path]] && state == files[path]
      ensures fresh(state) || (path in old(files) && state == old(files)[path])
      ensures state.Position() == if size < old(PositionOf(path)).offset then START else old(PositionOf(path))
    {
      if path !in files || size < files[path].offset {
        state := new BackgroundFile(OwnName(path), reader);
        files := files[path := state];
      } else {
        state := files[path];
        assert files == files[path := files[path]];
      }
    }

    /** Reads what the file at `path` has gained. */
    method ReadInto(path: string, f: Bytes)
      requires Valid() && path in files && files[path].offset <= |f|
      modifies files[path]
      ensures Valid() && PositionOf(path) == Advance(OwnName(path), reader, old(PositionOf(path)), f[old(files[path].offset)..])
      ensures forall other | other != path :: PositionOf(other) == old(PositionOf(other))
    {
      var state := files[path];
      if |f| > state.offset {
        state.Read(f[state.offset..]);
      } else {
        assert f[|f|..] == [] && state.partial + [] == state.partial;
        UnbrokenHasNoRecord(state.partial);
      }
    }

    /** The tasks the transcript at `path` started and has not heard end; `file` is None when it cannot be
        opened. */
    method Pending(path: string, file: Option<Bytes>) returns (ids: set<string>, ok: bool)
      requires Valid()
      modifies this, if path in files then {files[path]} else {}
      ensures Valid() && ok == file.Some?
      ensures file.None? ==> ids == {} && files == old(files) - {path}
      ensures file.Some? ==> path in files && files == old(files)[path := files[path]]
      ensures file.Some? ==> PositionOf(path) == Poll(OwnName(path), reader, old(PositionOf(path)), file.value)
      ensures file.Some? ==> ids == TaskBook.Pending(PositionOf(path).tasks)
      ensures forall other | other != path :: PositionOf(other) == old(PositionOf(other))
    {
      if file.None? {
        files := files - {path};
        return {}, false;
      }
      ids := Follow(path, file.value);
      ok := true;
    }

    method Follow(path: string, f: Bytes) returns (ids: set<string>)
      requires Valid()
      modifies this, if path in files then {files[path]} else {}
      ensures Valid() && path in files && files == old(files)[path := files[path]]
      ensures PositionOf(path) == Poll(OwnName(path), reader, old(PositionOf(path)), f)
      ensures ids == TaskBook.Pending(PositionOf(path).tasks)
      ensures forall other | other != path :: PositionOf(other) == old(PositionOf(other))
    {
      ghost var p := PositionOf(path);
      var state := StateFor(path, |f|);
      assert Poll(OwnName(path), reader, p, f) == Advance(OwnName(path), reader, PositionOf(path), f[state.offset..]);
      ReadInto(path, f);
      ids := state.started - state.ended;
    }
  }
}
