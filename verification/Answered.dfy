/** The record a pane keeps of answered questions: blocks of entries, each wrapped onto rows. */
module Answered {
  import opened Text
  import opened Readings
  import opened Wrap

  const HEADER := "User answered Claude's questions:"
  const HOOK: char := '⎿'
  const ARROW: char := '→'
  const BULLET := "· "

  datatype Answer = Answer(question: string, answer: string)

  function TrimLeftSpace(s: string): string {
    if s != [] && IsSpace(s[0]) then TrimLeftSpace(s[1..]) else s
  }

  function TrimRightSpace(s: string): string {
    if s != [] && IsSpace(s[|s| - 1]) then TrimRightSpace(s[..|s| - 1]) else s
  }

  function TrimSpace(s: string): string {
    TrimRightSpace(TrimLeftSpace(s))
  }

  predicate IsGap(c: char) {
    c == ' ' || c == JOIN
  }

  function TrimLeftGaps(s: string): string {
    if s != [] && IsGap(s[0]) then TrimLeftGaps(s[1..]) else s
  }

  function TrimRightGaps(s: string): string {
    if s != [] && IsGap(s[|s| - 1]) then TrimRightGaps(s[..|s| - 1]) else s
  }

  function TrimJoins(s: string): string {
    TrimRightGaps(TrimLeftGaps(s))
  }

  /** `strings.Join(strings.Fields(s), " ")`. */
  function Squeeze(s: string): string {
    if s == [] then []
    else
      var init, last := s[..|s| - 1], s[|s| - 1];
      if IsSpace(last) then Squeeze(init)
      else if init != [] && IsSpace(init[|init| - 1]) && Squeeze(init) != [] then Squeeze(init) + [' ', last]
      else Squeeze(init) + [last]
  }

  /** `strings.Cut`: what is before and after the first `sep`. */
  function Cut(s: string, sep: string): Option<(string, string)> {
    if sep <= s then Some(([], s[|sep|..]))
    else if s == [] then None
    else
      var rest := Cut(s[1..], sep);
      if rest.Some? then Some(([s[0]] + rest.value.0, rest.value.1)) else None
  }

  /** The separators an entry is cut at, the first one found counting. */
  const ARROWS: seq<string> :=
    [[' ', ARROW, ' '], [' ', ARROW, JOIN], [JOIN, ARROW, ' '], [JOIN, ARROW, JOIN], [ARROW, ' ']]

  function CutAtFirst(text: string, seps: seq<string>): (string, string) {
    if seps == [] then (text, [])
    else
      var cut := Cut(text, seps[0]);
      if cut.Some? then cut.value else CutAtFirst(text, seps[1..])
  }

  function AnswerOf(text: string): Answer {
    var (question, answer) := CutAtFirst(text, ARROWS);
    Answer(TrimJoins(question), TrimJoins(answer))
  }

  datatype Reading = Reading(blocks: seq<seq<Answer>>, block: seq<Answer>, entry: string, reading: bool)

  const NOTHING_READ := Reading([], [], [], false)

  function WithEntry(block: seq<Answer>, entry: string): seq<Answer> {
    var text := Squeeze(entry);
    if text == [] then block else block + [AnswerOf(text)]
  }

  function FlushEntry(s: Reading): Reading {
    s.(entry := [], block := WithEntry(s.block, s.entry))
  }

  function FlushBlock(s: Reading): Reading {
    var flushed := FlushEntry(s);
    Reading(if s.reading then s.blocks + [flushed.block] else s.blocks, [], [], false)
  }

  function JoinedTo(before: Option<string>, line: string, width: nat): char {
    if before.Some? then Continuation(before.value, line, width) else ' '
  }

  /** What a line is read against: the pane's width, and the words that head a block. */
  datatype Pane = Pane(width: nat, header: string)

  /** What a line holds once the hook that leads a block is off. */
  function Unhooked(text: string): string {
    TrimSpace(if text != [] && text[0] == HOOK then text[1..] else text)
  }

  function Step(s: Reading, before: Option<string>, line: string, pane: Pane): Reading {
    var text := TrimSpace(line);
    if HasSuffix(text, pane.header) then FlushBlock(s).(reading := true)
    else if !s.reading then s
    else
      var rest := Unhooked(text);
      if rest == [] then FlushBlock(s)
      else if BULLET <= rest then FlushEntry(s).(entry := rest[2..])
      else s.(entry := s.entry + [JoinedTo(before, line, pane.width)] + rest)
  }

  function LastLine(before: Option<string>, lines: seq<string>): Option<string> {
    if lines == [] then before else Some(lines[|lines| - 1])
  }

  function TakeLines(s: Reading, before: Option<string>, lines: seq<string>, pane: Pane): Reading {
    if lines == [] then s
    else
      var init := lines[..|lines| - 1];
      Step(TakeLines(s, before, init, pane), LastLine(before, init), lines[|lines| - 1], pane)
  }

  /** The widest line, trailing blanks aside. */
  function PaneWidth(lines: seq<string>): nat {
    if lines == [] then 0
    else
      var before, line := PaneWidth(lines[..|lines| - 1]), |TrimRightPad(lines[|lines| - 1])|;
      if line > before then line else before
  }

  function Blocks(lines: seq<string>, pane: Pane): seq<seq<Answer>> {
    FlushBlock(TakeLines(NOTHING_READ, None, lines, pane)).blocks
  }

  // ---- the parser as it runs -----------------------------------------------------------------------

  method WidthOf(lines: seq<string>) returns (width: nat)
    ensures width == PaneWidth(lines)
    ensures forall line :: line in lines ==> |TrimRightPad(line)| <= width
    ensures width > 0 ==> exists line :: line in lines && |TrimRightPad(line)| == width
  {
    width := 0;
    for i := 0 to |lines|
      invariant width == PaneWidth(lines[..i])
      invariant forall k :: 0 <= k < i ==> |TrimRightPad(lines[k])| <= width
      invariant width > 0 ==> exists k :: 0 <= k < i && |TrimRightPad(lines[k])| == width
    {
      assert lines[..i + 1][..i] == lines[..i];
      var w := |TrimRightPad(lines[i])|;
      if w > width {
        width := w;
      }
    }
    assert lines[..|lines|] == lines;
  }

  method ReadAnswer(text: string) returns (answer: Answer)
    ensures answer == AnswerOf(text)
  {
    var question, given := text, "";
    var i := 0;
    while i < |ARROWS|
      invariant 0 <= i <= |ARROWS|
      invariant CutAtFirst(text, ARROWS) == if i == |ARROWS| then (question, given) else CutAtFirst(text, ARROWS[i..])
      invariant i < |ARROWS| ==> question == text && given == ""
    {
      var cut := Cut(text, ARROWS[i]);
      assert ARROWS[i..][1..] == ARROWS[i + 1..];
      if cut.Some? {
        question, given := cut.value.0, cut.value.1;
        i := |ARROWS|;
      } else {
        i := i + 1;
      }
    }
    answer := Answer(TrimJoins(question), TrimJoins(given));
  }

  method ParseAnswered(lines: seq<string>) returns (blocks: seq<seq<Answer>>)
    ensures blocks == Blocks(lines, Pane(PaneWidth(lines), HEADER))
  {
    blocks := [];
    var block: seq<Answer>, entry, reading := [], "", false;
    var width := WidthOf(lines);
    var pane := Pane(width, HEADER);
    for i := 0 to |lines|
      invariant TakeLines(NOTHING_READ, None, lines[..i], pane) == Reading(blocks, block, entry, reading)
    {
      assert lines[..i + 1][..i] == lines[..i];
      var line := lines[i];
      var joined := ' ';
      if i > 0 {
        joined := Continuation(lines[i - 1], line, width);
      }
      assert joined == JoinedTo(LastLine(None, lines[..i]), line, width);
      blocks, block, entry, reading := TakeLine(blocks, block, entry, reading, line, joined, LastLine(None, lines[..i]), pane);
    }
    assert lines[..|lines|] == lines;
    blocks, block := EndBlock(blocks, block, entry, reading);
  }

  /** One line: a header, the end of a block, a new entry, or more of the last one. */
  method TakeLine(blocks0: seq<seq<Answer>>, block0: seq<Answer>, entry0: string, reading0: bool, line: string, joined: char,
                  ghost before: Option<string>, pane: Pane)
      returns (blocks: seq<seq<Answer>>, block: seq<Answer>, entry: string, reading: bool)
    requires joined == JoinedTo(before, line, pane.width)
    ensures Reading(blocks, block, entry, reading) == Step(Reading(blocks0, block0, entry0, reading0), before, line, pane)
  {
    blocks, block, entry, reading := blocks0, block0, entry0, reading0;
    var text := TrimSpace(line);
    if HasSuffix(text, pane.header) {
      blocks, block := EndBlock(blocks, block, entry, reading);
      return blocks, block, "", true;
    }
    if !reading {
      return;
    }
    text := Unhooked(text);
    if text == [] {
      blocks, block := EndBlock(blocks, block, entry, reading);
      entry, reading := "", false;
    } else if BULLET <= text {
      block := EndEntry(block, entry);
      entry := text[2..];
    } else {
      entry := entry + [joined] + text;
    }
  }

  method EndEntry(block0: seq<Answer>, entry: string) returns (block: seq<Answer>)
    ensures block == WithEntry(block0, entry)
  {
    block := block0;
    var text := Squeeze(entry);
    if text == "" {
      return;
    }
    var answer := ReadAnswer(text);
    block := block + [answer];
  }

  method EndBlock(blocks0: seq<seq<Answer>>, block0: seq<Answer>, entry: string, reading: bool)
      returns (blocks: seq<seq<Answer>>, block: seq<Answer>)
    ensures block == [] && Reading(blocks, [], [], false) == FlushBlock(Reading(blocks0, block0, entry, reading))
  {
    blocks := blocks0;
    block := EndEntry(block0, entry);
    if reading {
      blocks := blocks + [block];
    }
    block := [];
  }
}
