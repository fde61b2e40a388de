/** How a pane wraps text onto rows, and how two rows are joined again. Every character is one cell wide. */
module Wrap {
  import opened Readings

  /** `unicode.IsSpace`. */
  predicate IsSpace(c: char) {
    || c == ' ' || '\t' <= c <= '\r' || c == '\U{85}' || c == '\U{a0}' || c == '\U{1680}'
    || '\U{2000}' <= c <= '\U{200a}' || c == '\U{2028}' || c == '\U{2029}' || c == '\U{202f}' || c == '\U{205f}'
    || c == '\U{3000}'
  }

  /** What rows are trimmed of. */
  predicate IsPad(c: char) {
    c == ' ' || c == '\t' || c == '\U{a0}'
  }

  function TrimRightPad(s: string): string {
    if s != [] && IsPad(s[|s| - 1]) then TrimRightPad(s[..|s| - 1]) else s
  }

  function TrimLeftPad(s: string): string {
    if s != [] && IsPad(s[0]) then TrimLeftPad(s[1..]) else s
  }

  /** The characters up to the first space, and after the last one. */
  function FirstRun(s: string): string {
    if s == [] || IsSpace(s[0]) then [] else [s[0]] + FirstRun(s[1..])
  }

  function LastRun(s: string): string {
    if s == [] || IsSpace(s[|s| - 1]) then [] else LastRun(s[..|s| - 1]) + [s[|s| - 1]]
  }

  /** The first and the last of `strings.Fields(s)`; empty when it has none. */
  function FirstField(s: string): string {
    if s != [] && IsSpace(s[0]) then FirstField(s[1..]) else FirstRun(s)
  }

  function LastField(s: string): string {
    if s != [] && IsSpace(s[|s| - 1]) then LastField(s[..|s| - 1]) else LastRun(s)
  }

  function Indent(s: string): int {
    |s| - |TrimLeftPad(s)|
  }

  /** How `row` joins `next`, the row it wrapped onto, in a pane `width` cells wide. */
  function Continuation(row: string, next: string, width: nat): (joined: char)
    ensures joined == ' ' || joined == JOIN
  {
    var trimmed := TrimRightPad(row);
    if width == 0 || |trimmed| < width then ' '
    else
      var before, after := LastField(trimmed), FirstField(next);
      if before == [] || after == [] then ' '
      else if |before| + |after| > width - Indent(next) then JOIN
      else ' '
  }

  predicate AllPad(s: string) {
    forall i :: 0 <= i < |s| ==> IsPad(s[i])
  }

  /** Rows lose the pads at their ends, and nothing else. */
  lemma {:induction false} TrimRightPadMeaning(s: string) returns (pads: string)
    ensures s == TrimRightPad(s) + pads && AllPad(pads)
    ensures TrimRightPad(s) != [] ==> !IsPad(TrimRightPad(s)[|TrimRightPad(s)| - 1])
  {
    pads := [];
    if s != [] && IsPad(s[|s| - 1]) {
      var more := TrimRightPadMeaning(s[..|s| - 1]);
      pads := more + [s[|s| - 1]];
    }
  }

  lemma {:induction false} TrimLeftPadMeaning(s: string) returns (pads: string)
    ensures s == pads + TrimLeftPad(s) && AllPad(pads)
    ensures TrimLeftPad(s) != [] ==> !IsPad(TrimLeftPad(s)[0])
  {
    pads := [];
    if s != [] && IsPad(s[0]) {
      var more := TrimLeftPadMeaning(s[1..]);
      pads := [s[0]] + more;
    }
  }

  predicate AllSpaces(s: string) {
    forall i :: 0 <= i < |s| ==> IsSpace(s[i])
  }

  predicate NoSpace(s: string) {
    forall i :: 0 <= i < |s| ==> !IsSpace(s[i])
  }

  lemma {:induction false} LastRunMeaning(s: string) returns (before: string)
    ensures s == before + LastRun(s) && NoSpace(LastRun(s)) && (before != [] ==> IsSpace(before[|before| - 1]))
  {
    before := s;
    if s != [] && !IsSpace(s[|s| - 1]) {
      before := LastRunMeaning(s[..|s| - 1]);
    }
  }

  /** The last field: the last run of characters that are no white space. */
  lemma {:induction false} LastFieldMeaning(s: string) returns (before: string, after: string)
    ensures s == before + LastField(s) + after && NoSpace(LastField(s)) && AllSpaces(after)
    ensures if LastField(s) == [] then before == [] else before != [] ==> IsSpace(before[|before| - 1])
  {
    if s == [] {
      before, after := [], [];
    } else if IsSpace(s[|s| - 1]) {
      before, after := LastFieldMeaning(s[..|s| - 1]);
      after := after + [s[|s| - 1]];
    } else {
      before := LastRunMeaning(s);
      after := [];
    }
  }

  lemma {:induction false} FirstRunMeaning(s: string) returns (after: string)
    ensures s == FirstRun(s) + after && NoSpace(FirstRun(s)) && (after != [] ==> IsSpace(after[0]))
  {
    after := s;
    if s != [] && !IsSpace(s[0]) {
      after := FirstRunMeaning(s[1..]);
    }
  }

  /** And the first one. */
  lemma {:induction false} FirstFieldMeaning(s: string) returns (before: string, after: string)
    ensures s == before + FirstField(s) + after && NoSpace(FirstField(s)) && AllSpaces(before)
    ensures if FirstField(s) == [] then after == [] else after != [] ==> IsSpace(after[0])
  {
    if s == [] {
      before, after := [], [];
    } else if IsSpace(s[0]) {
      before, after := FirstFieldMeaning(s[1..]);
      before := [s[0]] + before;
    } else {
      after := FirstRunMeaning(s);
      before := [];
    }
  }

  /** A mark joins two rows exactly when the first fills the pane, both hold words, and the last word of the one and
      the first of the other do not fit the column together. */
  lemma ContinuationMeaning(row: string, next: string, width: nat)
    ensures var filled, last, first := |TrimRightPad(row)|, LastField(TrimRightPad(row)), FirstField(next);
            Continuation(row, next, width) == JOIN <==>
            0 < width <= filled && last != [] && first != [] && |last| + |first| > width - Indent(next)
  {
  }

  // ---- the rule a pane wraps by --------------------------------------------------------------------

  /** One row of wrapped text: what is on it, and whether it ends inside a word. Any other row but the last
      ends at a space. */
  datatype Row = Row(text: string, broken: bool)

  function Between(row: Row): string {
    if row.broken then [] else [' ']
  }

  /** The text that was wrapped. */
  function Unwrapped(rows: seq<Row>): string
    requires rows != []
  {
    var n := |rows| - 1;
    if n == 0 then rows[0].text else Unwrapped(rows[..n]) + (Between(rows[n - 1]) + rows[n].text)
  }

  /** No white space but single spaces. */
  predicate LoneSpace(s: string, i: nat)
    requires i + 1 < |s|
  {
    IsSpace(s[i]) ==> s[i] == ' ' && !IsSpace(s[i + 1])
  }

  /** Words with one space between them. */
  predicate Worded(s: string) {
    && s != [] && !IsSpace(s[0]) && !IsSpace(s[|s| - 1]) && Plain(s)
    && forall i :: 0 <= i < |s| - 1 ==> LoneSpace(s, i)
  }

  /** A row that ends inside a word is full, and the word is wider than the whole column. */
  ghost predicate BrokenByRule(rows: seq<Row>, column: nat, i: nat)
    requires i + 1 < |rows|
  {
    rows[i].broken ==>
      |rows[i].text| == column && |LastRun(Unwrapped(rows[..i + 1]))| + |FirstRun(Unwrapped(rows[i + 1..]))| > column
  }

  /** The rule: rows break at spaces, and inside a word only when it is wider than the text column. */
  ghost predicate Wrapped(rows: seq<Row>, column: nat) {
    && rows != []
    && (forall i :: 0 <= i < |rows| ==> Fits(rows, column, i))
    && forall i :: 0 <= i < |rows| - 1 ==> BrokenByRule(rows, column, i)
  }

  /** Words, and no more of them than the column holds. */
  predicate Fits(rows: seq<Row>, column: nat, i: nat)
    requires i < |rows|
  {
    Worded(rows[i].text) && |rows[i].text| <= column
  }

  /** A row as a pane draws it: something `indent` cells wide before the text, all blank but on the first. */
  predicate Drawn(line: string, lead: string, row: Row) {
    line == lead + row.text && lead != [] && IsSpace(lead[|lead| - 1])
  }

  predicate Blank(lead: string) {
    forall i :: 0 <= i < |lead| ==> lead[i] == ' '
  }

  // ---- joining rows gives the text back ------------------------------------------------------------

  lemma TextLast(init: seq<Row>, last: Row)
    requires init != []
    ensures Unwrapped(init + [last]) == Unwrapped(init) + (Between(init[|init| - 1]) + last.text)
  {
    assert (init + [last])[..|init|] == init;
  }

  lemma {:induction false} TextJoin(a: seq<Row>, b: seq<Row>)
    requires a != [] && b != []
    ensures Unwrapped(a + b) == Unwrapped(a) + (Between(a[|a| - 1]) + Unwrapped(b))
  {
    var n := |b| - 1;
    var init, last := b[..n], b[n];
    assert b == init + [last];
    if n == 0 {
      TextLast(a, last);
    } else {
      TextJoin(a, init);
      TextLast(init, last);
      TextLast(a + init, last);
      assert a + b == (a + init) + [last];
      Regroup(Unwrapped(a), Between(a[|a| - 1]), Unwrapped(init), Between(init[n - 1]) + last.text);
    }
  }

  lemma TextCut(rows: seq<Row>, k: nat)
    requires 0 < k < |rows|
    ensures Unwrapped(rows) == Unwrapped(rows[..k]) + (Between(rows[k - 1]) + Unwrapped(rows[k..]))
  {
    assert rows == rows[..k] + rows[k..] && rows[..k][k - 1] == rows[k - 1];
    TextJoin(rows[..k], rows[k..]);
  }

  lemma Regroup(a: string, b: string, c: string, d: string)
    ensures a + (b + c) + d == a + (b + (c + d))
  {
  }

  lemma Headed(s: string, more: string)
    requires s != []
    ensures [s[0]] + (s[1..] + more) == s + more && [s[0]] + s[1..] == s
  {
  }

  lemma {:induction false} FirstRunOf(s: string, more: string)
    ensures |FirstRun(s)| <= |s| && (|FirstRun(s)| == |s| ==> FirstRun(s) == s)
    ensures FirstRun(s + more) == if |FirstRun(s)| == |s| then s + FirstRun(more) else FirstRun(s)
  {
    if s == [] {
      assert s + more == more;
    } else if !IsSpace(s[0]) {
      assert (s + more)[1..] == s[1..] + more;
      FirstRunOf(s[1..], more);
      Headed(s, FirstRun(more));
    }
  }

  lemma Ended(more: string, s: string)
    requires s != []
    ensures var init, last := s[..|s| - 1], [s[|s| - 1]];
            more + init + last == more + s && init + last == s && (more + s)[..|more + s| - 1] == more + init
  {
  }

  lemma {:induction false} LastRunOf(more: string, s: string)
    ensures |LastRun(s)| <= |s| && (|LastRun(s)| == |s| ==> LastRun(s) == s)
    ensures LastRun(more + s) == if |LastRun(s)| == |s| then LastRun(more) + s else LastRun(s)
  {
    if s == [] {
      assert more + s == more;
    } else if !IsSpace(s[|s| - 1]) {
      Ended(more, s);
      Ended(LastRun(more), s);
      LastRunOf(more, s[..|s| - 1]);
    }
  }

  lemma FirstWordOf(text: string, row: Row, rest: string)
    requires text == row.text + (Between(row) + rest)
    ensures FirstRun(text) == FirstRun(row.text) || (row.broken && |FirstRun(row.text)| == |row.text|)
  {
    FirstRunOf(row.text, Between(row) + rest);
    assert !row.broken ==> FirstRun(Between(row) + rest) == [];
    assert row.text + [] == row.text;
  }

  /** The word a row starts with goes on beyond the row only when it fills the row. */
  lemma FirstWordOnRow(rows: seq<Row>, column: nat, k: nat)
    requires Wrapped(rows, column) && k < |rows|
    ensures var run := FirstRun(rows[k].text);
            run != [] && (FirstRun(Unwrapped(rows[k..])) == run || |run| == column)
  {
    var row, tail := rows[k], rows[k..];
    assert Fits(rows, column, k);
    if |tail| > 1 {
      TextCut(tail, 1);
      assert tail[..1] == [row];
      FirstWordOf(Unwrapped(tail), row, Unwrapped(tail[1..]));
      if row.broken {
        assert BrokenByRule(rows, column, k);
      }
    }
  }

  lemma LastWordOf(before: string, row: Row, text: string)
    ensures LastRun(before + (Between(row) + text)) == LastRun(text) || |LastRun(text)| == |text|
  {
    LastRunOf(before + Between(row), text);
    assert before + (Between(row) + text) == before + Between(row) + text;
  }

  /** The word a row ends with began before the row only when it fills the row. */
  lemma LastWordOnRow(rows: seq<Row>, column: nat, i: nat)
    requires Wrapped(rows, column) && i < |rows|
    ensures var run := LastRun(rows[i].text);
            run != [] && (LastRun(Unwrapped(rows[..i + 1])) == run || |run| == |rows[i].text|)
  {
    var row, first := rows[i], rows[..i + 1];
    assert Fits(rows, column, i);
    assert first[i] == row && first[..i] == rows[..i];
    if i > 0 {
      assert first[i - 1] == rows[i - 1];
      LastWordOf(Unwrapped(rows[..i]), rows[i - 1], row.text);
    }
  }

  /** Where a row ends inside a word, the pieces on it and on the next row together exceed the column. */
  lemma PiecesExceedColumn(rows: seq<Row>, column: nat, i: nat)
    requires Wrapped(rows, column) && i + 1 < |rows| && rows[i].broken
    ensures |LastRun(rows[i].text)| + |FirstRun(rows[i + 1].text)| > column
  {
    assert BrokenByRule(rows, column, i);
    FirstWordOnRow(rows, column, i + 1);
    LastWordOnRow(rows, column, i);
  }

  lemma {:induction false} BlankLead(lead: string, text: string)
    requires Blank(lead) && Worded(text)
    ensures TrimLeftPad(lead + text) == text && FirstField(lead + text) == FirstRun(text)
  {
    if lead == [] {
      assert lead + text == text;
    } else {
      assert (lead + text)[1..] == lead[1..] + text;
      BlankLead(lead[1..], text);
    }
  }

  lemma EndsInAWord(s: string)
    requires s != [] && !IsSpace(s[|s| - 1])
    ensures TrimRightPad(s) == s && LastField(s) == LastRun(s) && LastRun(s) != []
  {
  }

  lemma AfterLead(lead: string, text: string)
    requires lead != [] && IsSpace(lead[|lead| - 1]) && Worded(text)
    ensures TrimRightPad(lead + text) == lead + text
    ensures LastField(lead + text) == LastRun(text) && LastRun(text) != []
  {
    EndsInAWord(text);
    EndsInAWord(lead + text);
    LastRunOf(lead, text);
    assert LastRun(lead) == [] && [] + text == text;
  }

  /** When two drawn rows are joined by a mark: the first is full and its last word and the next row's first
      would not have fit the column together. */
  lemma WhenMarked(line: string, lead: string, row: Row, line': string, lead': string, row': Row, width: nat)
    requires Drawn(line, lead, row) && Drawn(line', lead', row') && Blank(lead') && |lead| == |lead'|
    requires Worded(row.text) && Worded(row'.text)
    ensures Continuation(line, line', width) == JOIN <==>
            0 < width <= |lead| + |row.text| && |LastRun(row.text)| + |FirstRun(row'.text)| > width - |lead|
  {
    BlankLead(lead', row'.text);
    AfterLead(lead, row.text);
  }

  /** The rows drawn as screen lines: the first after whatever leads it, the others indented as far. */
  ghost predicate DrawnAs(rows: seq<Row>, lines: seq<string>, indent: nat) {
    |rows| == |lines| && indent > 0 && forall i :: 0 <= i < |rows| ==> RowDrawn(rows, lines, indent, i)
  }

  predicate RowDrawn(rows: seq<Row>, lines: seq<string>, indent: nat, i: nat)
    requires i < |rows| == |lines|
  {
    && |lines[i]| >= indent && Drawn(lines[i], lines[i][..indent], rows[i])
    && (i > 0 ==> Blank(lines[i][..indent]))
  }

  /** The rows joined as their screen lines say. */
  function Joined(rows: seq<Row>, lines: seq<string>, width: nat): string
    requires rows != [] && |rows| == |lines|
  {
    var n := |rows| - 1;
    if n == 0 then rows[0].text
    else Joined(rows[..n], lines[..n], width) + [Continuation(lines[n - 1], lines[n], width)] + rows[n].text
  }

  /** A row broken inside a word is joined by a mark. */
  lemma BreakIsMarked(rows: seq<Row>, lines: seq<string>, column: nat, indent: nat, i: nat)
    requires Wrapped(rows, column) && DrawnAs(rows, lines, indent) && i + 1 < |rows| && rows[i].broken
    ensures Continuation(lines[i], lines[i + 1], column + indent) == JOIN
  {
    PiecesExceedColumn(rows, column, i);
    assert BrokenByRule(rows, column, i);
    assert RowDrawn(rows, lines, indent, i) && RowDrawn(rows, lines, indent, i + 1);
    assert Fits(rows, column, i) && Fits(rows, column, i + 1);
    WhenMarked(lines[i], lines[i][..indent], rows[i], lines[i + 1], lines[i + 1][..indent], rows[i + 1], column + indent);
  }

  function Breaks(rows: seq<Row>): nat {
    if |rows| <= 1 then 0 else Breaks(rows[..|rows| - 1]) + if rows[|rows| - 2].broken then 1 else 0
  }

  predicate BreakMarked(rows: seq<Row>, lines: seq<string>, width: nat, i: nat)
    requires i + 1 < |rows| == |lines|
  {
    rows[i].broken ==> Continuation(lines[i], lines[i + 1], width) == JOIN
  }

  /** What joining rows relies on: words on every row, and a mark after each row broken inside one. */
  ghost predicate Shaped(rows: seq<Row>, lines: seq<string>, width: nat) {
    && rows != [] && |rows| == |lines|
    && (forall i :: 0 <= i < |rows| ==> Worded(rows[i].text))
    && forall i :: 0 <= i < |rows| - 1 ==> BreakMarked(rows, lines, width, i)
  }

  lemma WrappedIsShaped(rows: seq<Row>, lines: seq<string>, column: nat, indent: nat)
    requires Wrapped(rows, column) && DrawnAs(rows, lines, indent)
    ensures Shaped(rows, lines, column + indent)
  {
    var width := column + indent;
    forall i | 0 <= i < |rows| ensures Worded(rows[i].text) {
      assert Fits(rows, column, i);
    }
    forall i | 0 <= i < |rows| - 1 ensures BreakMarked(rows, lines, width, i) {
      if rows[i].broken {
        BreakIsMarked(rows, lines, column, indent, i);
      }
    }
  }

  lemma {:induction false} AlikeMore(m: string, more: string, sep: string)
    requires Plain(more)
    ensures ReadAlike(m + more, sep) == ReadAlike(m, sep) + more
    ensures Joins(m + more) == Joins(m)
  {
    if more == [] {
      assert m + more == m && ReadAlike(m, sep) + more == ReadAlike(m, sep);
    } else {
      var init := more[..|more| - 1];
      AlikeMore(m, init, sep);
      assert (m + more)[..|m + more| - 1] == m + init;
    }
  }

  lemma OneJoinMore(m: string, joined: char, sep: string)
    requires joined == ' ' || joined == JOIN
    ensures Joins(m + [joined]) == Joins(m) + if joined == JOIN then 1 else 0
    ensures ReadAlike(m + [joined], sep) == ReadAlike(m, sep) + if joined == JOIN then sep else " "
  {
    assert (m + [joined])[..|m|] == m;
  }

  /** One row more, as strings: what held of the rows before holds with it. */
  lemma OneRowMore(m: string, t: string, joined: char, row: Row, more: string, breaks: nat)
    requires JoinedAs(m, t, breaks) && Plain(more)
    requires (joined == ' ' && !row.broken) || joined == JOIN
    ensures JoinedAs(m + [joined] + more, t + (Between(row) + more), breaks + if row.broken then 1 else 0)
  {
    var between := Between(row);
    if joined == JOIN {
      ReadsMark(m, t);
      assert t + [] == t;
    } else {
      ReadsMore(m, t, " ");
    }
    ReadsMore(m + [joined], t + between, more);
    assert t + (between + more) == t + between + more;
    OneJoinMore(m, joined, " ");
    OneJoinMore(m, joined, "");
    AlikeMore(m + [joined], more, " ");
    AlikeMore(m + [joined], more, "");
  }

  /** `m` is `t` joined from rows of which `breaks` end inside a word. */
  predicate JoinedAs(m: string, t: string, breaks: nat) {
    && Reads(m, t) && |t| == |m| - breaks && breaks <= Joins(m)
    && (breaks == 0 ==> t == ReadAlike(m, " "))
    && (breaks == Joins(m) ==> t == ReadAlike(m, ""))
  }

  lemma ShapedInit(rows: seq<Row>, lines: seq<string>, width: nat)
    requires |rows| > 1 && Shaped(rows, lines, width)
    ensures var n := |rows| - 1;
            Shaped(rows[..n], lines[..n], width) && Plain(rows[n].text) && BreakMarked(rows, lines, width, n - 1)
  {
    var n := |rows| - 1;
    forall i | 0 <= i < n - 1 ensures BreakMarked(rows[..n], lines[..n], width, i) {
      assert BreakMarked(rows, lines, width, i);
    }
  }

  /** The joined rows read as the text that was wrapped. */
  lemma {:induction false} JoinedReads(rows: seq<Row>, lines: seq<string>, width: nat)
    requires Shaped(rows, lines, width)
    ensures JoinedAs(Joined(rows, lines, width), Unwrapped(rows), Breaks(rows))
  {
    var n := |rows| - 1;
    if n == 0 {
      PlainReadsItself(rows[0].text);
      AlikeMore([], rows[0].text, " ");
      AlikeMore([], rows[0].text, "");
      assert [] + rows[0].text == rows[0].text;
    } else {
      var init := rows[..n];
      ShapedInit(rows, lines, width);
      JoinedReads(init, lines[..n], width);
      OneRowMore(Joined(init, lines[..n], width), Unwrapped(init), Continuation(lines[n - 1], lines[n], width), rows[n - 1], rows[n].text, Breaks(init));
    }
  }

  lemma {:induction false} AlikeLength(m: string)
    ensures |ReadAlike(m, " ")| == |m| && |ReadAlike(m, "")| == |m| - Joins(m)
  {
    if m != [] {
      AlikeLength(m[..|m| - 1]);
    }
  }

  lemma JoinedAsReadsBack(m: string, t: string, breaks: nat)
    requires JoinedAs(m, t, breaks)
    ensures t in AllReadings(m) <==> Joins(m) <= MAX_JOINS || breaks == Joins(m) || breaks == 0
  {
    ReadingsMeaning(m, t);
    AlikeLength(m);
  }

  /** Wrapping and joining undo each other: the text is among the readings of its joined rows exactly when no
      more than ten joins are marked, or all that are marked are breaks inside words, or none is. */
  lemma WrapReadsBack(rows: seq<Row>, lines: seq<string>, column: nat, indent: nat)
    requires Wrapped(rows, column) && DrawnAs(rows, lines, indent)
    ensures var joined := Joined(rows, lines, column + indent);
            && Reads(joined, Unwrapped(rows))
            && (Unwrapped(rows) in AllReadings(joined) <==>
                Joins(joined) <= MAX_JOINS || Breaks(rows) == Joins(joined) || Breaks(rows) == 0)
  {
    WrappedIsShaped(rows, lines, column, indent);
    JoinedReads(rows, lines, column + indent);
    JoinedAsReadsBack(Joined(rows, lines, column + indent), Unwrapped(rows), Breaks(rows));
  }

  // ---- where it does not read back -----------------------------------------------------------------

  /** Rows of one letter each in a column one cell wide: the first word is broken after its first letter. */
  function Letters(n: nat): (rows: seq<Row>)
    ensures |rows| == n && forall i :: 0 <= i < n ==> rows[i] == Row("a", i == 0)
  {
    seq(n, i => Row("a", i == 0))
  }

  function LetterLines(n: nat): (lines: seq<string>)
    ensures |lines| == n && forall i :: 0 <= i < n ==> lines[i] == " a"
  {
    seq(n, i => " a")
  }

  lemma {:induction false} FirstRowFirst(rows: seq<Row>)
    requires rows != []
    ensures rows[0].text <= Unwrapped(rows)
  {
    if |rows| > 1 {
      FirstRowFirst(rows[..|rows| - 1]);
    }
  }

  lemma LettersWrapped(n: nat)
    requires n > 1
    ensures Wrapped(Letters(n), 1) && DrawnAs(Letters(n), LetterLines(n), 1)
  {
    var rows, lines := Letters(n), LetterLines(n);
    forall i | 0 <= i < n ensures Fits(rows, 1, i) && RowDrawn(rows, lines, 1, i) {
      assert " a" == " " + "a" && " a"[..1] == " ";
    }
    forall i | 0 <= i < n - 1 ensures BrokenByRule(rows, 1, i) {
      if i == 0 {
        assert rows[..1] == [rows[0]] && LastRun("a") == "a";
        FirstRowFirst(rows[1..]);
        assert FirstRun(Unwrapped(rows[1..])) != [];
      }
    }
  }

  lemma LettersMarked()
    ensures Continuation(" a", " a", 2) == JOIN
  {
    var row := Row("a", false);
    assert " a" == " " + "a" && LastRun("a") == "a" && FirstRun("a") == "a";
    WhenMarked(" a", " ", row, " a", " ", row, 2);
  }

  lemma OneLetterMore(m: string)
    ensures Joins(m + [JOIN] + "a") == Joins(m) + 1
  {
    OneJoinMore(m, JOIN, "");
    AlikeMore(m + [JOIN], "a", "");
  }

  lemma LettersInit(n: nat)
    requires n > 1
    ensures Letters(n)[..n - 1] == Letters(n - 1) && LetterLines(n)[..n - 1] == LetterLines(n - 1)
    ensures Joined(Letters(n), LetterLines(n), 2) == Joined(Letters(n - 1), LetterLines(n - 1), 2) + [JOIN] + "a"
  {
    assert Letters(n)[..n - 1] == Letters(n - 1) && LetterLines(n)[..n - 1] == LetterLines(n - 1);
    LettersMarked();
  }

  /** Every join is marked, and the first alone is a break inside a word. */
  lemma {:induction false} LettersJoined(n: nat)
    requires n > 0
    ensures Joins(Joined(Letters(n), LetterLines(n), 2)) == n - 1 && Breaks(Letters(n)) == if n == 1 then 0 else 1
  {
    if n > 1 {
      LettersInit(n);
      LettersJoined(n - 1);
      OneLetterMore(Joined(Letters(n - 1), LetterLines(n - 1), 2));
    } else {
      AlikeMore([], "a", "");
      assert [] + "a" == "a";
    }
  }

  /** Eleven marked joins or more, one of them a break and the others spaces: the text is not among the
      readings of its own rows. */
  lemma MixedJoinsAreLost(n: nat)
    requires n > MAX_JOINS + 1
    ensures Wrapped(Letters(n), 1) && DrawnAs(Letters(n), LetterLines(n), 1)
    ensures Unwrapped(Letters(n)) !in AllReadings(Joined(Letters(n), LetterLines(n), 2))
  {
    LettersWrapped(n);
    LettersJoined(n);
    WrapReadsBack(Letters(n), LetterLines(n), 1, 1);
  }
}
