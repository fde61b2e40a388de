/** A block of answered questions, drawn by the pane's wrapping rule, is read back: every question and answer
    is among the readings of what was parsed. */
module AnsweredFacts {
  import opened Text
  import opened Readings
  import opened Wrap
  import opened Answered

  // ---- one entry's text ----------------------------------------------------------------------------

  /** Words with one space or one mark between them. */
  predicate Tight(m: string) {
    && m != [] && !IsGap(m[0]) && !IsGap(m[|m| - 1])
    && (forall i :: 0 <= i < |m| ==> BareSpace(m, i))
    && forall i :: 0 <= i < |m| - 1 ==> LoneGap(m, i)
  }

  predicate BareSpace(m: string, i: nat)
    requires i < |m|
  {
    IsSpace(m[i]) ==> m[i] == ' '
  }

  predicate LoneGap(m: string, i: nat)
    requires i + 1 < |m|
  {
    IsGap(m[i]) ==> !IsGap(m[i + 1])
  }

  lemma {:induction false} SqueezeTight(m: string, k: nat)
    requires Tight(m) && k <= |m|
    ensures Squeeze(m[..k]) == Words(m[..k])
  {
    if k > 0 {
      SqueezeTight(m, k - 1);
      TightUpTo(m, k - 1);
      UpTo(m, k);
      SqueezeNext(m[..k]);
      SqueezedMore(m[..k - 1], m[k - 1]);
    }
  }

  lemma UpTo(m: string, k: nat)
    requires 0 < k <= |m|
    ensures m[..k] == m[..k - 1] + [m[k - 1]] && m[..k][..k - 1] == m[..k - 1] && m[..k][k - 1] == m[k - 1]
  {
  }

  /** The text without a space at its end. */
  function Words(s: string): string {
    if s != [] && s[|s| - 1] == ' ' then s[..|s| - 1] else s
  }

  /** What a character may be after a tight beginning. */
  predicate MayFollow(s: string, c: char) {
    && (IsSpace(c) ==> c == ' ')
    && if s == [] then !IsGap(c) else IsSpace(s[|s| - 1]) ==> s[|s| - 1] == ' ' && |s| > 1 && !IsGap(c)
  }

  lemma TightUpTo(m: string, k: nat)
    requires Tight(m) && k < |m|
    ensures MayFollow(m[..k], m[k])
  {
    assert BareSpace(m, k);
    if k > 0 {
      assert BareSpace(m, k - 1) && LoneGap(m, k - 1);
      assert k == 1 ==> !IsGap(m[0]);
    }
  }

  predicate EndsInSpace(s: string) {
    s != [] && IsSpace(s[|s| - 1])
  }

  /** One character more, after `s`, which gives `words`. */
  function Squeezed(words: string, s: string, c: char): string {
    if IsSpace(c) then words
    else if EndsInSpace(s) && words != [] then words + [' ', c]
    else words + [c]
  }

  lemma SqueezeNext(t: string)
    requires t != []
    ensures var s, c := t[..|t| - 1], t[|t| - 1]; Squeeze(t) == Squeezed(Squeeze(s), s, c)
  {
  }

  lemma SqueezedMore(s: string, c: char)
    requires MayFollow(s, c)
    ensures Squeezed(Words(s), s, c) == Words(s + [c])
  {
    assert IsSpace(' ') && (c != ' ' ==> !IsSpace(c));
    assert Words(s + [c]) == if c == ' ' then s else s + [c];
    if s != [] && s[|s| - 1] == ' ' {
      assert s[..|s| - 1] + [' ', c] == s + [c];
    }
  }

  /** The only place a three-character separator around a lone arrow can be found. */
  lemma {:induction false} CutAround(s: string, sep: string, p: nat)
    requires |sep| == 3 && sep[1] == ARROW && sep[0] != ARROW && sep[2] != ARROW
    requires 0 < p < |s| - 1 && s[p] == ARROW && ARROW !in s[..p] && ARROW !in s[p + 1..]
    ensures Cut(s, sep) == if s[p - 1] == sep[0] && s[p + 1] == sep[2] then Some((s[..p - 1], s[p + 2..])) else None
  {
    var rest := s[1..];
    assert s[0] == s[..p][0] && sep[1] == ARROW;
    assert forall i :: 0 <= i < |s| && i != p ==> s[i] != ARROW by {
      forall i | 0 <= i < |s| && i != p ensures s[i] != ARROW {
        assert i < p ==> s[i] == s[..p][i];
        assert i > p ==> s[i] == s[p + 1..][i - p - 1];
      }
    }
    if p == 1 {
      assert sep <= s <==> s[0] == sep[0] && s[2] == sep[2];
      NoCut(rest, sep);
    } else {
      assert s[1] != ARROW && !(sep <= s);
      assert rest[..p - 1] == s[..p][1..] && rest[p..] == s[p + 1..];
      CutAround(rest, sep, p - 1);
      assert [s[0]] + rest[..p - 2] == s[..p - 1];
    }
  }

  lemma {:induction false} NoCut(s: string, sep: string)
    requires |sep| == 3 && sep[1] == ARROW && s != [] && ARROW !in s[1..]
    ensures Cut(s, sep) == None
  {
    assert |s| > 1 ==> s[1..][0] != ARROW;
    if |s| > 1 {
      assert ARROW !in s[1..][1..];
      NoCut(s[1..], sep);
    }
  }

  lemma {:induction false} CutAtNth(text: string, seps: seq<string>, i: nat)
    requires i < |seps| && Cut(text, seps[i]).Some? && forall k :: 0 <= k < i ==> Cut(text, seps[k]).None?
    ensures CutAtFirst(text, seps) == Cut(text, seps[i]).value
  {
    if i > 0 {
      CutAtNth(text, seps[1..], i - 1);
    }
  }

  lemma ArrowsCut(m: string, p: nat)
    requires 0 < p < |m| - 1 && m[p] == ARROW && ARROW !in m[..p] && ARROW !in m[p + 1..]
    requires IsGap(m[p - 1]) && IsGap(m[p + 1])
    ensures CutAtFirst(m, ARROWS) == (m[..p - 1], m[p + 2..])
  {
    var i := (if m[p - 1] == ' ' then 0 else 2) + if m[p + 1] == ' ' then 0 else 1;
    forall k | 0 <= k <= i ensures Cut(m, ARROWS[k]) == if k == i then Some((m[..p - 1], m[p + 2..])) else None {
      CutAround(m, ARROWS[k], p);
    }
    CutAtNth(m, ARROWS, i);
  }

  lemma TrimNothing(s: string)
    requires s != [] && !IsGap(s[0]) && !IsGap(s[|s| - 1])
    ensures TrimJoins(s) == s
  {
  }

  /** Marked text read as a text that ends with a space ends with a gap, and without it reads as the rest. */
  lemma GapAtEnd(m: string, t: string)
    requires Reads(m, t + " ") && t != [] && t[|t| - 1] != ' '
    requires |m| > 1 ==> !(IsGap(m[|m| - 1]) && IsGap(m[|m| - 2]))
    ensures |m| > 1 && IsGap(m[|m| - 1]) && Reads(m[..|m| - 1], t)
  {
    assert (t + " ")[..|t|] == t;
  }

  lemma GapAtStart(m: string, t: string)
    requires Reads(m, " " + t) && t != [] && t[0] != ' '
    requires |m| > 1 ==> !(IsGap(m[0]) && IsGap(m[1]))
    ensures |m| > 1 && IsGap(m[0]) && Reads(m[1..], t)
  {
    ReadsFront(m, " " + t);
    assert (" " + t)[1..] == t;
    if m[0] == JOIN && |m| > 1 && !Reads(m[1..], t) {
      ReadsFront(m[1..], " " + t);
    }
  }

  /** A question and its answer as the record words them. */
  function Wording(question: string, answer: string): string {
    (question + " ") + [ARROW] + (" " + answer)
  }

  predicate Sayable(s: string) {
    Worded(s) && ARROW !in s
  }

  lemma WithSpace(s: string)
    requires Sayable(s)
    ensures ARROW !in s + " " && ARROW !in " " + s
  {
  }

  /** Where a tight text holds its only arrow: between two gaps, each standing alone. */
  ghost predicate ArrowAt(m: string, p: nat) {
    && 1 < p && p + 2 < |m| && m[p] == ARROW && ARROW !in m[..p] && ARROW !in m[p + 1..]
    && IsGap(m[p - 1]) && IsGap(m[p + 1])
  }

  /** What is before the arrow and its gap reads as the question. */
  lemma BeforeArrow(m: string, p: nat, question: string)
    requires Tight(m) && 0 < p < |m| && Sayable(question) && Reads(m[..p], question + " ")
    ensures p > 1 && IsGap(m[p - 1]) && Reads(m[..p - 1], question)
  {
    assert p > 1 ==> LoneGap(m, p - 2);
    GapAtEnd(m[..p], question);
    assert m[..p][..p - 1] == m[..p - 1];
  }

  lemma AfterArrow(m: string, p: nat, answer: string)
    requires Tight(m) && p < |m| && Sayable(answer) && Reads(m[p + 1..], " " + answer)
    ensures p + 2 < |m| && IsGap(m[p + 1]) && Reads(m[p + 2..], answer)
  {
    assert m[p + 1..] != [];
    assert p + 2 < |m| ==> LoneGap(m, p + 1);
    GapAtStart(m[p + 1..], answer);
    assert m[p + 1..][1..] == m[p + 2..];
  }

  lemma FindArrow(m: string, question: string, answer: string) returns (p: nat)
    requires Tight(m) && Sayable(question) && Sayable(answer) && Reads(m, Wording(question, answer))
    ensures ArrowAt(m, p) && Reads(m[..p - 1], question) && Reads(m[p + 2..], answer)
  {
    WithSpace(question);
    WithSpace(answer);
    p := ReadsAround(m, question + " ", ARROW, " " + answer);
    assert !IsGap(ARROW);
    assert m[..p] != [];
    BeforeArrow(m, p, question);
    AfterArrow(m, p, answer);
  }

  /** A tight text is cut at its arrow, and nothing more is trimmed. */
  lemma CutTight(m: string, p: nat)
    requires Tight(m) && ArrowAt(m, p)
    ensures AnswerOf(m) == Answer(m[..p - 1], m[p + 2..]) && Tight(m[..p - 1]) && Tight(m[p + 2..])
  {
    ArrowsCut(m, p);
    PartTight(m, 0, p - 1);
    PartTight(m, p + 2, |m|);
    var q, a := m[..p - 1], m[p + 2..];
    assert LoneGap(m, p - 2) && LoneGap(m, p + 1);
    assert m[0..p - 1] == q && m[p + 2..|m|] == a;
    TrimNothing(q);
    TrimNothing(a);
  }

  lemma PartTight(m: string, i: nat, k: nat)
    requires Tight(m) && i < k <= |m| && (i > 0 ==> IsGap(m[i - 1])) && (k < |m| ==> IsGap(m[k]))
    ensures Tight(m[i..k])
  {
    var part := m[i..k];
    assert i > 0 ==> LoneGap(m, i - 1);
    assert k < |m| ==> LoneGap(m, k - 1);
    assert forall j :: 0 <= j < |part| ==> part[j] == m[i + j];
    forall j | 0 <= j < |part| ensures BareSpace(part, j) && (j < |part| - 1 ==> LoneGap(part, j)) {
      assert BareSpace(m, i + j) && (j < |part| - 1 ==> LoneGap(m, i + j));
    }
  }

  /** An entry's marked text is cut into texts the question and the answer are readings of, whichever way the
      rows broke around the arrow. */
  lemma EntryReadsBack(m: string, question: string, answer: string)
    requires Tight(m) && Sayable(question) && Sayable(answer) && Reads(m, Wording(question, answer))
    ensures Squeeze(m) == m
    ensures Reads(AnswerOf(m).question, question) && Reads(AnswerOf(m).answer, answer)
    ensures Joins(AnswerOf(m).question) <= Joins(m) && Joins(AnswerOf(m).answer) <= Joins(m)
    ensures Tight(AnswerOf(m).question) && Tight(AnswerOf(m).answer)
  {
    var p := FindArrow(m, question, answer);
    CutTight(m, p);
    SqueezeTight(m, |m|);
    assert m[..|m|] == m;
    JoinsOfPart(m, 0, p - 1);
    JoinsOfPart(m, p + 2, |m|);
    assert m[0..p - 1] == m[..p - 1] && m[p + 2..|m|] == m[p + 2..];
  }

  lemma {:induction false} JoinsOfPart(m: string, i: nat, k: nat)
    requires i <= k <= |m|
    ensures Joins(m[i..k]) <= Joins(m)
    decreases |m|
  {
    if k < |m| {
      assert m[i..k] == m[..|m| - 1][i..k];
      JoinsOfPart(m[..|m| - 1], i, k);
    } else if i < k {
      assert m[i..k][..k - i - 1] == m[..|m| - 1][i..k - 1];
      JoinsOfPart(m[..|m| - 1], i, k - 1);
    }
  }

  // ---- trimming, squeezing and cutting -------------------------------------------------------------

  predicate AllGaps(s: string) {
    forall i :: 0 <= i < |s| ==> IsGap(s[i])
  }

  lemma {:induction false} TrimLeftMeaning(s: string) returns (gaps: string)
    ensures s == gaps + TrimLeftGaps(s) && AllGaps(gaps)
    ensures TrimLeftGaps(s) != [] ==> !IsGap(TrimLeftGaps(s)[0])
  {
    gaps := [];
    if s != [] && IsGap(s[0]) {
      var more := TrimLeftMeaning(s[1..]);
      gaps := [s[0]] + more;
    }
  }

  lemma {:induction false} TrimRightMeaning(s: string) returns (gaps: string)
    ensures s == TrimRightGaps(s) + gaps && AllGaps(gaps)
    ensures TrimRightGaps(s) != [] ==> !IsGap(TrimRightGaps(s)[|TrimRightGaps(s)| - 1])
  {
    gaps := [];
    if s != [] && IsGap(s[|s| - 1]) {
      var more := TrimRightMeaning(s[..|s| - 1]);
      gaps := more + [s[|s| - 1]];
    }
  }

  /** Trimming takes all the gaps off both ends, and nothing else. */
  lemma TrimMeaning(s: string) returns (left: string, right: string)
    ensures s == left + TrimJoins(s) + right && AllGaps(left) && AllGaps(right)
    ensures TrimJoins(s) != [] ==> !IsGap(TrimJoins(s)[0]) && !IsGap(TrimJoins(s)[|TrimJoins(s)| - 1])
  {
    left := TrimLeftMeaning(s);
    right := TrimRightMeaning(TrimLeftGaps(s));
    Regrouped(left, TrimJoins(s), right);
    assert TrimJoins(s) != [] ==> TrimJoins(s)[0] == TrimLeftGaps(s)[0];
  }

  lemma Regrouped(a: string, b: string, c: string)
    ensures a + (b + c) == a + b + c
  {
  }

  lemma {:induction false} SpaceOnLeft(s: string) returns (left: string)
    ensures s == left + TrimLeftSpace(s) && AllSpaces(left)
    ensures TrimLeftSpace(s) != [] ==> !IsSpace(TrimLeftSpace(s)[0])
  {
    left := [];
    if s != [] && IsSpace(s[0]) {
      var more := SpaceOnLeft(s[1..]);
      left := [s[0]] + more;
    }
  }

  lemma {:induction false} SpaceOnRight(s: string) returns (right: string)
    ensures s == TrimRightSpace(s) + right && AllSpaces(right)
    ensures TrimRightSpace(s) != [] ==> !IsSpace(TrimRightSpace(s)[|TrimRightSpace(s)| - 1])
  {
    right := [];
    if s != [] && IsSpace(s[|s| - 1]) {
      var more := SpaceOnRight(s[..|s| - 1]);
      right := more + [s[|s| - 1]];
    }
  }

  /** So does trimming a line of its white space. */
  lemma TrimSpaceMeaning(s: string) returns (left: string, right: string)
    ensures s == left + TrimSpace(s) + right && AllSpaces(left) && AllSpaces(right)
    ensures TrimSpace(s) != [] ==> !IsSpace(TrimSpace(s)[0]) && !IsSpace(TrimSpace(s)[|TrimSpace(s)| - 1])
  {
    left := SpaceOnLeft(s);
    right := SpaceOnRight(TrimLeftSpace(s));
    Regrouped(left, TrimSpace(s), right);
    assert TrimSpace(s) != [] ==> TrimSpace(s)[0] == TrimLeftSpace(s)[0];
  }

  /** `strings.Fields`: the runs of characters that are no white space. */
  function Fields(s: string): seq<string> {
    if s == [] then []
    else
      var init, last := s[..|s| - 1], s[|s| - 1];
      var before := Fields(init);
      if IsSpace(last) then before
      else if before == [] || IsSpace(init[|init| - 1]) then before + [[last]]
      else before[|before| - 1 := before[|before| - 1] + [last]]
  }

  function JoinWith(words: seq<string>): string {
    if words == [] then []
    else if |words| == 1 then words[0]
    else JoinWith(words[..|words| - 1]) + " " + words[|words| - 1]
  }

  lemma JoinLonger(words: seq<string>, c: char)
    requires words != []
    ensures JoinWith(words[|words| - 1 := words[|words| - 1] + [c]]) == JoinWith(words) + [c]
  {
    var n := |words| - 1;
    var longer := words[n := words[n] + [c]];
    assert longer[..n] == words[..n];
    if n > 0 {
      assert JoinWith(words[..n]) + " " + (words[n] + [c]) == JoinWith(words[..n]) + " " + words[n] + [c];
    }
  }

  lemma JoinMore(words: seq<string>, word: string)
    ensures JoinWith(words + [word]) == if words == [] then word else JoinWith(words) + " " + word
  {
    assert (words + [word])[..|words|] == words;
  }

  lemma {:induction false} FieldsAreWords(s: string)
    ensures forall w :: w in Fields(s) ==> w != [] && forall i :: 0 <= i < |w| ==> !IsSpace(w[i])
  {
    if s != [] {
      FieldsAreWords(s[..|s| - 1]);
    }
  }

  lemma {:induction false} NoWords(words: seq<string>)
    requires forall w :: w in words ==> w != []
    ensures JoinWith(words) == [] <==> words == []
  {
    if |words| == 1 {
      assert words[0] in words;
    }
  }

  /** Squeezed text is its words with one space between. */
  lemma {:induction false} SqueezeMeaning(s: string)
    ensures Squeeze(s) == JoinWith(Fields(s))
  {
    if s != [] {
      var init, last := s[..|s| - 1], s[|s| - 1];
      var before := Fields(init);
      SqueezeMeaning(init);
      SqueezeNext(s);
      FieldsAreWords(init);
      NoWords(before);
      if !IsSpace(last) {
        if before == [] || EndsInSpace(init) {
          JoinMore(before, [last]);
          assert JoinWith(before) + " " + [last] == JoinWith(before) + [' ', last];
        } else {
          JoinLonger(before, last);
        }
      }
    }
  }

  /** A text is cut at the first place the separator stands. */
  lemma {:induction false} CutMeaning(s: string, sep: string)
    requires sep != []
    ensures var cut := Cut(s, sep);
            if cut.Some? then s == cut.value.0 + sep + cut.value.1 && NotBefore(s, sep, |cut.value.0|)
            else NotBefore(s, sep, |s| + 1)
  {
    if !(sep <= s) && s != [] {
      CutMeaning(s[1..], sep);
      var rest := Cut(s[1..], sep);
      if rest.Some? {
        OneBefore(s, sep, |rest.value.0|);
        OneInFront(s, rest.value.0, sep, rest.value.1);
      } else {
        OneBefore(s, sep, |s|);
      }
    } else if sep <= s {
      assert s == [] + sep + s[|sep|..];
    }
  }

  lemma OneInFront(s: string, a: string, sep: string, b: string)
    requires s != [] && s[1..] == a + sep + b
    ensures s == [s[0]] + a + sep + b
  {
    assert [s[0]] + a + sep + b == [s[0]] + (a + sep + b);
  }

  /** The separator stands at none of the first `n` places. */
  ghost predicate NotBefore(s: string, sep: string, n: nat)
    requires n <= |s| + 1
  {
    forall k :: 0 <= k < n ==> !(sep <= s[k..])
  }

  lemma OneBefore(s: string, sep: string, n: nat)
    requires s != [] && n <= |s| && !(sep <= s) && NotBefore(s[1..], sep, n)
    ensures NotBefore(s, sep, n + 1)
  {
    forall k | 0 <= k < n + 1 ensures !(sep <= s[k..]) {
      if k == 0 {
        assert s[0..] == s;
      } else {
        assert s[k..] == s[1..][k - 1..];
      }
    }
  }

  /** The first separator of the list that stands in the text decides; with none, all of it is the question. */
  lemma {:induction false} CutAtFirstMeaning(text: string, seps: seq<string>)
    ensures (forall k :: 0 <= k < |seps| ==> Cut(text, seps[k]).None?) ==> CutAtFirst(text, seps) == (text, [])
    ensures forall k :: 0 <= k < |seps| && Cut(text, seps[k]).Some? && (forall j :: 0 <= j < k ==> Cut(text, seps[j]).None?) ==>
              CutAtFirst(text, seps) == Cut(text, seps[k]).value
  {
    if seps != [] {
      CutAtFirstMeaning(text, seps[1..]);
      assert forall k :: 1 <= k < |seps| ==> seps[k] == seps[1..][k - 1];
    }
  }

  // ---- the lines of one entry ----------------------------------------------------------------------

  /** One question and its answer, wrapped onto rows, and the screen lines the rows are drawn as. */
  datatype Item = Item(question: string, answer: string, rows: seq<Row>, lines: seq<string>)

  /** A hook may lead a block's first row. */
  ghost predicate Hooked(lead: string) {
    exists i :: 0 <= i < |lead| - 1 && lead[i] == HOOK && Blank(lead[..i]) && Blank(lead[i + 1..])
  }

  /** A row that reads as nothing but more of an entry. */
  predicate Continues(text: string) {
    !(BULLET <= text) && text != [] && text[0] != HOOK
  }

  ghost predicate DrawnItem(item: Item, column: nat, indent: nat, header: string) {
    && Wrapped(item.rows, column) && DrawnAs(item.rows, item.lines, indent)
    && Unwrapped(item.rows) == BULLET + Wording(item.question, item.answer)
    && Sayable(item.question) && Sayable(item.answer)
    && BULLET < item.rows[0].text
    && forall i :: 0 <= i < |item.rows| ==> RowOfItem(item, indent, header, i)
  }

  /** The first row may hang on a hook, the others go on with the entry, and none is the header of a block. */
  ghost predicate RowOfItem(item: Item, indent: nat, header: string, i: nat)
    requires i < |item.rows| == |item.lines|
  {
    && |item.lines[i]| >= indent
    && (i == 0 ==> Blank(item.lines[i][..indent]) || Hooked(item.lines[i][..indent]))
    && (i > 0 ==> Continues(item.rows[i].text))
    && !HasSuffix(item.lines[i], header)
  }

  lemma {:induction false} TrimBlank(lead: string, text: string)
    requires Blank(lead) && text != [] && !IsSpace(text[0])
    ensures TrimLeftSpace(lead + text) == text
  {
    if lead == [] {
      assert lead + text == text;
    } else {
      assert (lead + text)[1..] == lead[1..] + text;
      TrimBlank(lead[1..], text);
    }
  }

  lemma TrimDrawn(lead: string, text: string)
    requires Blank(lead) && text != [] && !IsSpace(text[0]) && !IsSpace(text[|text| - 1])
    ensures TrimSpace(lead + text) == text
  {
    TrimBlank(lead, text);
  }

  lemma TrimHooked(lead: string, i: nat, text: string)
    requires i < |lead| - 1 && lead[i] == HOOK && Blank(lead[..i]) && Blank(lead[i + 1..])
    requires text != [] && !IsSpace(text[0]) && !IsSpace(text[|text| - 1])
    ensures Unhooked(TrimSpace(lead + text)) == text
  {
    var hooked := [HOOK] + (lead[i + 1..] + text);
    assert lead + text == lead[..i] + hooked;
    assert hooked[|hooked| - 1] == text[|text| - 1];
    TrimDrawn(lead[..i], hooked);
    assert hooked[1..] == lead[i + 1..] + text;
    TrimDrawn(lead[i + 1..], text);
  }

  /** What a drawn row holds once trimmed. */
  lemma RowRead(lead: string, text: string)
    requires Worded(text) && (Blank(lead) || Hooked(lead)) && text[0] != HOOK
    ensures Unhooked(TrimSpace(lead + text)) == text
  {
    if Blank(lead) {
      TrimDrawn(lead, text);
      assert [] + text == text;
      TrimDrawn([], text);
    } else {
      var i :| 0 <= i < |lead| - 1 && lead[i] == HOOK && Blank(lead[..i]) && Blank(lead[i + 1..]);
      TrimHooked(lead, i, text);
    }
  }

  /** Trimming does not make a header of a row that is none. */
  lemma SuffixOfTrimmed(lead: string, text: string, header: string)
    requires Worded(text) && !HasSuffix(lead + text, header)
    ensures !HasSuffix(TrimSpace(lead + text), header)
  {
    var line := lead + text;
    assert !IsSpace(line[|line| - 1]);
    TrimmedLeft(line);
    var trimmed := TrimLeftSpace(line);
    assert trimmed == line[|line| - |trimmed|..];
  }

  lemma {:induction false} TrimmedLeft(s: string)
    requires s != [] && !IsSpace(s[|s| - 1])
    ensures var t := TrimLeftSpace(s); t != [] && |t| <= |s| && t == s[|s| - |t|..]
  {
    if IsSpace(s[0]) {
      TrimmedLeft(s[1..]);
    }
  }

  /** What a line is read as, when it is no header and no end of a block. */
  predicate ReadAs(line: string, text: string, header: string) {
    text != [] && !HasSuffix(TrimSpace(line), header) && Unhooked(TrimSpace(line)) == text
  }

  /** The lines read as the rows, the first of which starts an entry the others continue. */
  ghost predicate LinesReadAs(rows: seq<Row>, lines: seq<string>, header: string) {
    && rows != [] && |rows| == |lines| && BULLET < rows[0].text
    && forall i :: 0 <= i < |rows| ==> LineReadAs(rows, lines, header, i)
  }

  predicate LineReadAs(rows: seq<Row>, lines: seq<string>, header: string, i: nat)
    requires i < |rows| == |lines|
  {
    ReadAs(lines[i], rows[i].text, header) && (i > 0 ==> !(BULLET <= rows[i].text))
  }

  lemma LinesReadInit(rows: seq<Row>, lines: seq<string>, header: string)
    requires |rows| > 1 && LinesReadAs(rows, lines, header)
    ensures LinesReadAs(rows[..|rows| - 1], lines[..|rows| - 1], header)
  {
    var n := |rows| - 1;
    forall i | 0 <= i < n ensures LineReadAs(rows[..n], lines[..n], header, i) {
      assert LineReadAs(rows, lines, header, i);
    }
  }

  lemma DrawnIsRead(item: Item, column: nat, indent: nat, header: string)
    requires DrawnItem(item, column, indent, header)
    ensures LinesReadAs(item.rows, item.lines, header)
  {
    forall i | 0 <= i < |item.rows| ensures LineReadAs(item.rows, item.lines, header, i) {
      assert RowDrawn(item.rows, item.lines, indent, i) && RowOfItem(item, indent, header, i);
      assert Fits(item.rows, column, i);
      var lead, text := item.lines[i][..indent], item.rows[i].text;
      assert if i == 0 then BULLET < text else Continues(text);
      RowRead(lead, text);
      SuffixOfTrimmed(lead, text, header);
    }
  }

  lemma RowStep(s: Reading, before: Option<string>, line: string, text: string, pane: Pane)
    requires s.reading && ReadAs(line, text, pane.header)
    ensures Step(s, before, line, pane) ==
            if BULLET <= text then FlushEntry(s).(entry := text[2..])
            else s.(entry := s.entry + [JoinedTo(before, line, pane.width)] + text)
  {
  }

  /** After an item's lines its entry holds the rows, joined. */
  lemma {:induction false} ItemLines(s: Reading, rows: seq<Row>, lines: seq<string>, before: Option<string>, pane: Pane)
    requires s.reading && LinesReadAs(rows, lines, pane.header)
    ensures |Joined(rows, lines, pane.width)| > 2
    ensures TakeLines(s, before, lines, pane) == FlushEntry(s).(entry := Joined(rows, lines, pane.width)[2..])
  {
    var n := |rows| - 1;
    var init := lines[..n];
    assert LineReadAs(rows, lines, pane.header, n);
    if n == 0 {
      RowStep(s, before, lines[0], rows[0].text, pane);
    } else {
      LinesReadInit(rows, lines, pane.header);
      ItemLines(s, rows[..n], init, before, pane);
      RowStep(TakeLines(s, before, init, pane), LastLine(before, init), lines[n], rows[n].text, pane);
      EntryLonger(Joined(rows[..n], init, pane.width), Continuation(lines[n - 1], lines[n], pane.width), rows[n].text);
    }
  }

  lemma EntryLonger(m: string, joined: char, text: string)
    requires |m| > 2
    ensures (m + [joined] + text)[2..] == m[2..] + [joined] + text
  {
  }

  /** Joined rows are tight. */
  lemma {:induction false} JoinedTight(rows: seq<Row>, lines: seq<string>, width: nat)
    requires rows != [] && |rows| == |lines| && forall i :: 0 <= i < |rows| ==> Worded(rows[i].text)
    ensures Tight(Joined(rows, lines, width)) && rows[0].text <= Joined(rows, lines, width)
  {
    var n := |rows| - 1;
    if n == 0 {
      WordedIsTight(rows[0].text);
    } else {
      var m := Joined(rows[..n], lines[..n], width);
      JoinedTight(rows[..n], lines[..n], width);
      WordedIsTight(rows[n].text);
      TightJoin(m, Continuation(lines[n - 1], lines[n], width), rows[n].text);
    }
  }

  lemma WordedIsTight(s: string)
    requires Worded(s)
    ensures Tight(s)
  {
    forall i | 0 <= i < |s| ensures BareSpace(s, i) && (i + 1 < |s| ==> LoneGap(s, i)) {
      assert i + 1 < |s| ==> LoneSpace(s, i);
    }
  }

  lemma TightJoin(m: string, joined: char, more: string)
    requires Tight(m) && Tight(more) && IsGap(joined)
    ensures Tight(m + [joined] + more)
  {
    var all := m + [joined] + more;
    assert forall i :: 0 <= i < |all| ==>
      all[i] == if i < |m| then m[i] else if i == |m| then joined else more[i - |m| - 1];
    assert !IsSpace(JOIN);
    forall i | 0 <= i < |all| ensures BareSpace(all, i) {
      assert i < |m| ==> BareSpace(m, i);
      assert i > |m| ==> BareSpace(more, i - |m| - 1);
    }
    forall i | 0 <= i < |all| - 1 ensures LoneGap(all, i) {
      assert i < |m| - 1 ==> LoneGap(m, i);
      assert i > |m| ==> LoneGap(more, i - |m| - 1);
    }
  }

  lemma TightAfterBullet(m: string)
    requires Tight(m) && BULLET < m
    ensures Tight(m[2..])
  {
    assert m[1] == BULLET[1];
    assert forall i :: 0 <= i < |m| - 2 ==> m[2..][i] == m[i + 2];
    assert LoneGap(m, 1);
    forall i | 0 <= i < |m| - 2 ensures BareSpace(m[2..], i) && (i < |m| - 3 ==> LoneGap(m[2..], i)) {
      assert BareSpace(m, i + 2) && (i < |m| - 3 ==> LoneGap(m, i + 2));
    }
  }

  /** What a parsed answer has to do with the item it was drawn from. */
  predicate ReadsItem(answer: Answer, item: Item, joins: nat) {
    && Tight(answer.question) && Tight(answer.answer)
    && Reads(answer.question, item.question) && Reads(answer.answer, item.answer)
    && Joins(answer.question) <= joins && Joins(answer.answer) <= joins
  }

  /** An entry whose text is flushed as `answer`. */
  ghost predicate FlushedAs(entry: string, answer: Answer) {
    forall block :: WithEntry(block, entry) == block + [answer]
  }

  /** Any tight text that starts an entry and can be read as its wording. */
  lemma MarkedEntryReads(m: string, item: Item) returns (answer: Answer)
    requires Tight(m) && BULLET < m && Reads(m, BULLET + Wording(item.question, item.answer))
    requires Sayable(item.question) && Sayable(item.answer)
    ensures FlushedAs(m[2..], answer) && ReadsItem(answer, item, Joins(m))
  {
    answer := AnswerOf(m[2..]);
    TightAfterBullet(m);
    AfterBullet(m, Wording(item.question, item.answer));
    JoinsOfPart(m, 2, |m|);
    assert m[2..|m|] == m[2..];
    EntryReadsBack(m[2..], item.question, item.answer);
  }

  /** The rows joined are marked text that reads as the item's wording. */
  ghost predicate MarkedAs(item: Item, width: nat) {
    && item.rows != [] && |item.rows| == |item.lines|
    && Sayable(item.question) && Sayable(item.answer)
    && forall m :: IsJoined(m, item, width) ==> WordedAs(m, item)
  }

  predicate IsJoined(m: string, item: Item, width: nat)
    requires item.rows != [] && |item.rows| == |item.lines|
  {
    m == Joined(item.rows, item.lines, width)
  }

  predicate WordedAs(m: string, item: Item) {
    Tight(m) && BULLET < m && Reads(m, BULLET + Wording(item.question, item.answer))
  }

  lemma ShapedIsMarked(item: Item, width: nat)
    requires Shaped(item.rows, item.lines, width) && BULLET < item.rows[0].text
    requires Unwrapped(item.rows) == BULLET + Wording(item.question, item.answer)
    requires Sayable(item.question) && Sayable(item.answer)
    ensures MarkedAs(item, width)
  {
    JoinedReads(item.rows, item.lines, width);
    JoinedTight(item.rows, item.lines, width);
  }

  lemma DrawnIsMarked(item: Item, column: nat, indent: nat, header: string)
    requires DrawnItem(item, column, indent, header)
    ensures MarkedAs(item, column + indent)
  {
    WrappedIsShaped(item.rows, item.lines, column, indent);
    ShapedIsMarked(item, column + indent);
  }

  ghost predicate Readable(item: Item, pane: Pane) {
    LinesReadAs(item.rows, item.lines, pane.header) && MarkedAs(item, pane.width)
  }

  lemma DrawnIsReadable(item: Item, column: nat, indent: nat, header: string)
    requires DrawnItem(item, column, indent, header)
    ensures Readable(item, Pane(column + indent, header))
  {
    DrawnIsRead(item, column, indent, header);
    DrawnIsMarked(item, column, indent, header);
    ReadAndMarked(item, column + indent, header);
  }

  lemma ReadAndMarked(item: Item, width: nat, header: string)
    requires LinesReadAs(item.rows, item.lines, header) && MarkedAs(item, width)
    ensures Readable(item, Pane(width, header))
  {
  }

  /** The same, counting the marks its rows were joined by. */
  ghost predicate ReadsItemOf(answer: Answer, item: Item, width: nat) {
    && item.rows != [] && |item.rows| == |item.lines|
    && ReadsItem(answer, item, Joins(Joined(item.rows, item.lines, width)))
  }

  lemma EntryOfItem(item: Item, width: nat) returns (entry: string, answer: Answer)
    requires MarkedAs(item, width)
    ensures |Joined(item.rows, item.lines, width)| > 2 && entry == Joined(item.rows, item.lines, width)[2..]
    ensures FlushedAs(entry, answer) && ReadsItemOf(answer, item, width)
  {
    var m := Joined(item.rows, item.lines, width);
    assert IsJoined(m, item, width);
    entry := m[2..];
    answer := MarkedEntryReads(m, item);
  }

  lemma Flushed(s: Reading, entry: string, answer: Answer)
    requires FlushedAs(entry, answer)
    ensures FlushEntry(FlushEntry(s).(entry := entry)).block == FlushEntry(s).block + [answer]
  {
  }

  /** All the lines of an item: its entry reads as its question and answer. */
  lemma ItemReadsBack(s: Reading, item: Item, before: Option<string>, pane: Pane) returns (answer: Answer)
    requires s.reading && Readable(item, pane)
    ensures ReadsItemOf(answer, item, pane.width)
    ensures var taken := TakeLines(s, before, item.lines, pane);
            && taken.reading && taken.blocks == s.blocks
            && FlushEntry(taken).block == FlushEntry(s).block + [answer]
  {
    ItemLines(s, item.rows, item.lines, before, pane);
    var entry;
    entry, answer := EntryOfItem(item, pane.width);
    Flushed(s, entry, answer);
  }

  lemma AfterBullet(m: string, t: string)
    requires BULLET < m && Reads(m, BULLET + t)
    ensures Reads(m[2..], t)
  {
    assert m[0] == BULLET[0] && m[1] == BULLET[1];
    ReadsFront(m, BULLET + t);
    assert m[1..][1..] == m[2..];
    ReadsFront(m[1..], (BULLET + t)[1..]);
    assert (BULLET + t)[1..][1..] == t;
  }

  // ---- a whole block -------------------------------------------------------------------------------

  function LinesOf(items: seq<Item>): seq<string> {
    if items == [] then [] else LinesOf(items[..|items| - 1]) + items[|items| - 1].lines
  }

  lemma {:induction false} TakeLinesAppend(s: Reading, before: Option<string>, a: seq<string>, b: seq<string>, pane: Pane)
    ensures TakeLines(s, before, a + b, pane) == TakeLines(TakeLines(s, before, a, pane), LastLine(before, a), b, pane)
  {
    if b == [] {
      assert a + b == a;
    } else {
      var init := b[..|b| - 1];
      assert (a + b)[..|a + b| - 1] == a + init;
      TakeLinesAppend(s, before, a, init, pane);
    }
  }

  /** Each answer reads as its item. */
  ghost predicate ReadsItems(block: seq<Answer>, items: seq<Item>, width: nat) {
    |block| == |items| && forall k :: 0 <= k < |items| ==> ReadsItemOf(block[k], items[k], width)
  }

  ghost predicate AllReadable(items: seq<Item>, pane: Pane) {
    forall k :: 0 <= k < |items| ==> ReadableAt(items, k, pane)
  }

  ghost predicate ReadableAt(items: seq<Item>, k: nat, pane: Pane)
    requires k < |items|
  {
    Readable(items[k], pane)
  }

  lemma {:induction false} ItemsReadBack(s: Reading, items: seq<Item>, before: Option<string>, pane: Pane)
    requires s.reading && s.entry == [] && s.block == [] && AllReadable(items, pane)
    ensures var taken := TakeLines(s, before, LinesOf(items), pane);
            taken.reading && taken.blocks == s.blocks && ReadsItems(FlushEntry(taken).block, items, pane.width)
  {
    if items != [] {
      var n := |items| - 1;
      var init, item := items[..n], items[n];
      var earlier := TakeLines(s, before, LinesOf(init), pane);
      LastReadable(items, pane);
      ItemsReadBack(s, init, before, pane);
      TakeLinesAppend(s, before, LinesOf(init), item.lines, pane);
      var answer := ItemReadsBack(earlier, item, LastLine(before, LinesOf(init)), pane);
      OneItemMore(FlushEntry(earlier).block, init, answer, item, pane.width);
      assert items == init + [item];
    }
  }

  lemma LastReadable(items: seq<Item>, pane: Pane)
    requires items != [] && AllReadable(items, pane)
    ensures AllReadable(items[..|items| - 1], pane) && Readable(items[|items| - 1], pane)
  {
    var init := items[..|items| - 1];
    forall k | 0 <= k < |init| ensures ReadableAt(init, k, pane) {
      assert ReadableAt(items, k, pane);
    }
    assert ReadableAt(items, |items| - 1, pane);
  }

  lemma OneItemMore(block: seq<Answer>, items: seq<Item>, answer: Answer, item: Item, width: nat)
    requires ReadsItems(block, items, width) && ReadsItemOf(answer, item, width)
    ensures ReadsItems(block + [answer], items + [item], width)
  {
  }

  lemma {:induction false} BlocksGrow(s: Reading, before: Option<string>, lines: seq<string>, pane: Pane)
    ensures s.blocks <= TakeLines(s, before, lines, pane).blocks
  {
    if lines != [] {
      BlocksGrow(s, before, lines[..|lines| - 1], pane);
    }
  }

  predicate IsHeader(line: string, header: string) {
    HasSuffix(TrimSpace(line), header)
  }

  /** A line that ends a block: a blank one, or the header of the next. */
  predicate EndsBlock(line: string, header: string) {
    IsHeader(line, header) || Unhooked(TrimSpace(line)) == []
  }

  lemma FirstEnds(s: Reading, before: Option<string>, line: string, pane: Pane)
    requires s.reading && EndsBlock(line, pane.header)
    ensures Step(s, before, line, pane).blocks == s.blocks + [FlushEntry(s).block]
  {
  }

  lemma FirstTaken(s: Reading, before: Option<string>, lines: seq<string>, pane: Pane)
    requires lines != []
    ensures TakeLines(s, before, lines, pane) == TakeLines(Step(s, before, lines[0], pane), Some(lines[0]), lines[1..], pane)
  {
    var first := [lines[0]];
    assert lines == first + lines[1..] && first[..0] == [];
    TakeLinesAppend(s, before, first, lines[1..], pane);
  }

  /** What comes after a block's last line does not change the block. */
  lemma BlockEnds(s: Reading, before: Option<string>, below: seq<string>, pane: Pane)
    requires s.reading && (below != [] ==> EndsBlock(below[0], pane.header))
    ensures s.blocks + [FlushEntry(s).block] <= FlushBlock(TakeLines(s, before, below, pane)).blocks
  {
    if below != [] {
      var ended := Step(s, before, below[0], pane);
      FirstEnds(s, before, below[0], pane);
      FirstTaken(s, before, below, pane);
      BlocksGrow(ended, Some(below[0]), below[1..], pane);
    }
  }

  /** How many lines head a block. */
  function HeadersIn(lines: seq<string>, header: string): nat {
    if lines == [] then 0
    else HeadersIn(lines[..|lines| - 1], header) + if HasSuffix(TrimSpace(lines[|lines| - 1]), header) then 1 else 0
  }

  /** The blocks a state comes to, the one being read among them. */
  function Opened(s: Reading): nat {
    |s.blocks| + if s.reading then 1 else 0
  }

  lemma StepOpens(s: Reading, before: Option<string>, line: string, pane: Pane)
    ensures Opened(Step(s, before, line, pane)) == Opened(s) + if HasSuffix(TrimSpace(line), pane.header) then 1 else 0
  {
  }

  lemma {:induction false} LinesOpen(s: Reading, before: Option<string>, lines: seq<string>, pane: Pane)
    ensures Opened(TakeLines(s, before, lines, pane)) == Opened(s) + HeadersIn(lines, pane.header)
  {
    if lines != [] {
      var n := |lines| - 1;
      LinesOpen(s, before, lines[..n], pane);
      StepOpens(TakeLines(s, before, lines[..n], pane), LastLine(before, lines[..n]), lines[n], pane);
    }
  }

  /** A pane holds exactly one block for each line that heads one, and none when no line does. */
  lemma BlocksCounted(lines: seq<string>, pane: Pane)
    ensures |Blocks(lines, pane)| == HeadersIn(lines, pane.header)
  {
    LinesOpen(NOTHING_READ, None, lines, pane);
  }

  /** One block among whatever is above and below it. */
  lemma BlockAmong(above: seq<string>, line: string, items: seq<Item>, below: seq<string>, pane: Pane) returns (b: nat)
    requires IsHeader(line, pane.header) && AllReadable(items, pane)
    requires below != [] ==> EndsBlock(below[0], pane.header)
    ensures b == HeadersIn(above, pane.header)
    ensures var lines := above + [line] + LinesOf(items) + below;
            var blocks := Blocks(lines, pane);
            b < |blocks| && ReadsItems(blocks[b], items, pane.width)
  {
    var upper, lines := above + [line], LinesOf(items);
    var started := TakeLines(NOTHING_READ, None, upper, pane);
    var taken := TakeLines(started, LastLine(None, upper), lines, pane);
    HeaderStarts(above, line, pane);
    ItemsReadBack(started, items, LastLine(None, upper), pane);
    TakeLinesAppend(NOTHING_READ, None, upper, lines, pane);
    TakeLinesAppend(NOTHING_READ, None, upper + lines, below, pane);
    BlockEnds(taken, LastLine(None, upper + lines), below, pane);
    b := |taken.blocks|;
  }

  lemma HeaderStarts(above: seq<string>, line: string, pane: Pane)
    requires IsHeader(line, pane.header)
    ensures var s := TakeLines(NOTHING_READ, None, above + [line], pane);
            s.reading && s.entry == [] && s.block == [] && |s.blocks| == HeadersIn(above, pane.header)
  {
    LinesOpen(NOTHING_READ, None, above + [line], pane);
    assert (above + [line])[..|above|] == above;
  }

  ghost predicate DrawnItems(items: seq<Item>, column: nat, indent: nat, header: string) {
    forall k :: 0 <= k < |items| ==> DrawnAt(items, k, column, indent, header)
  }

  ghost predicate DrawnAt(items: seq<Item>, k: nat, column: nat, indent: nat, header: string)
    requires k < |items|
  {
    DrawnItem(items[k], column, indent, header)
  }

  lemma DrawnAreReadable(items: seq<Item>, column: nat, indent: nat, header: string)
    requires DrawnItems(items, column, indent, header)
    ensures AllReadable(items, Pane(column + indent, header))
  {
    var pane := Pane(column + indent, header);
    forall k | 0 <= k < |items| ensures ReadableAt(items, k, pane) {
      assert DrawnAt(items, k, column, indent, header);
      DrawnIsReadable(items[k], column, indent, header);
    }
  }

  /** Whatever the pane shows before and after it, a drawn block is parsed in its place among the blocks, after one
      for each header above it, with the answers in the dialog's order, and each question and answer a reading of what was parsed for it. */
  lemma DrawnBlockReadsBack(pane: Pane, above: seq<string>, line: string, items: seq<Item>, below: seq<string>, indent: nat)
      returns (b: nat)
    requires indent <= pane.width && IsHeader(line, pane.header) && DrawnItems(items, pane.width - indent, indent, pane.header)
    requires below != [] ==> EndsBlock(below[0], pane.header)
    ensures b == HeadersIn(above, pane.header)
    ensures var blocks := Blocks(above + [line] + LinesOf(items) + below, pane);
            b < |blocks| && ReadsItems(blocks[b], items, pane.width)
  {
    DrawnAreReadable(items, pane.width - indent, indent, pane.header);
    b := BlockAmong(above, line, items, below, pane);
  }

  // ---- comparing what was read ---------------------------------------------------------------------

  /** `strings.ToLower`, character by character. */
  function Lowered(lower: char -> char, s: string): string {
    if s == [] then [] else Lowered(lower, s[..|s| - 1]) + [lower(s[|s| - 1])]
  }

  /** What texts are compared in: small letters, words with one space between. */
  function Normalise(lower: char -> char, s: string): string {
    Lowered(lower, Squeeze(s))
  }

  /** Neither a space nor a mark has a small form of its own, and no letter's is a mark. */
  ghost predicate Lowers(lower: char -> char) {
    lower(' ') == ' ' && forall c :: lower(c) == JOIN <==> c == JOIN
  }

  lemma {:induction false} LoweredReads(lower: char -> char, m: string, t: string)
    requires Lowers(lower) && Reads(m, t)
    ensures Reads(Lowered(lower, m), Lowered(lower, t)) && Joins(Lowered(lower, m)) == Joins(m)
  {
    if m != [] {
      var init, last := m[..|m| - 1], m[|m| - 1];
      if last == JOIN && Reads(init, t) {
        LoweredReads(lower, init, t);
      } else {
        LoweredReads(lower, init, t[..|t| - 1]);
      }
    }
  }

  lemma TightLowered(lower: char -> char, m: string)
    requires Tight(m)
    ensures Normalise(lower, m) == Lowered(lower, m)
  {
    SqueezeTight(m, |m|);
    assert m[..|m|] == m;
  }

  lemma {:induction false} PlainHasNoJoins(s: string)
    requires Plain(s)
    ensures Joins(s) == 0
  {
    if s != [] {
      PlainHasNoJoins(s[..|s| - 1]);
    }
  }

  /** Two texts share a reading once both are normalised. */
  ghost predicate SameText(lower: char -> char, a: string, b: string) {
    exists x, y :: x in AllReadings(Normalise(lower, a)) && y in AllReadings(Normalise(lower, b)) && x == y
  }

  lemma LoweredAmong(lower: char -> char, m: string, t: string)
    requires Lowers(lower) && Tight(m) && Reads(m, t) && Joins(m) <= MAX_JOINS
    ensures Lowered(lower, t) in AllReadings(Normalise(lower, m))
  {
    TightLowered(lower, m);
    LoweredReads(lower, m, t);
    ReadingsMeaning(Lowered(lower, m), Lowered(lower, t));
  }

  lemma WordedAmong(lower: char -> char, t: string)
    requires Lowers(lower) && Worded(t)
    ensures Lowered(lower, t) in AllReadings(Normalise(lower, t))
  {
    WordedIsTight(t);
    PlainReadsItself(t);
    PlainHasNoJoins(t);
    LoweredAmong(lower, t, t);
  }

  lemma ReadingIsSameText(lower: char -> char, m: string, t: string)
    requires Lowers(lower) && Tight(m) && Worded(t) && Reads(m, t) && Joins(m) <= MAX_JOINS
    ensures SameText(lower, m, t)
  {
    LoweredAmong(lower, m, t);
    WordedAmong(lower, t);
  }

  /** With no more than ten marked joins, comparing readings finds the question and the answer again. */
  lemma TenJoinsAreEnough(lower: char -> char, answer: Answer, item: Item, width: nat)
    requires Lowers(lower) && Sayable(item.question) && Sayable(item.answer)
    requires ReadsItemOf(answer, item, width) && Joins(Joined(item.rows, item.lines, width)) <= MAX_JOINS
    ensures item.question in AllReadings(answer.question) && item.answer in AllReadings(answer.answer)
    ensures SameText(lower, answer.question, item.question) && SameText(lower, answer.answer, item.answer)
  {
    ReadingsMeaning(answer.question, item.question);
    ReadingsMeaning(answer.answer, item.answer);
    ReadingIsSameText(lower, answer.question, item.question);
    ReadingIsSameText(lower, answer.answer, item.answer);
  }
}
