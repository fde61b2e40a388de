/** The scanner that cuts the "info" object out of a truncated JSON export, against a grammar of JSON text
    (RFC 8259, sections 2 to 7). */
module Braces {
  import opened Lines
  import opened Text

  const QUOTE: Byte := 34
  const BACKSLASH: Byte := 92
  const OPEN: Byte := 123
  const CLOSE: Byte := 125
  const COMMA: Byte := 44
  const COLON: Byte := 58
  const LEFT_BRACKET: Byte := 91
  const RIGHT_BRACKET: Byte := 93

  /** `"info"`, quotes included. */
  const KEY: Bytes := [34, 105, 110, 102, 111, 34]

  // ---- JSON text -----------------------------------------------------------------------------------

  /** One character of a string: itself, or a backslash and what it escapes (four hex digits after a u). */
  datatype Unit = Plain(c: Byte) | Escape(c: Byte, digits: Bytes)

  /** A value as written, with the whitespace the grammar allows around structural characters. */
  datatype Value =
    | Atom(text: Bytes)
    | Str(units: seq<Unit>)
    | Arr(items: Items)
    | Obj(members: Members)

  datatype Items =
    | NoItems(gap: Bytes)
    | Item(before: Bytes, value: Value, after: Bytes)
    | ItemThen(before: Bytes, value: Value, after: Bytes, more: Items)

  datatype Members =
    | NoMembers(gap: Bytes)
    | Member(before: Bytes, name: seq<Unit>, afterName: Bytes, beforeValue: Bytes, value: Value, after: Bytes)
    | MemberThen(before: Bytes, name: seq<Unit>, afterName: Bytes, beforeValue: Bytes, value: Value, after: Bytes,
                 more: Members)

  predicate Blank(gap: Bytes) {
    forall k :: 0 <= k < |gap| ==> gap[k] == 32 || gap[k] == 9 || gap[k] == 10 || gap[k] == 13
  }

  predicate HexDigit(c: Byte) {
    48 <= c <= 57 || 65 <= c <= 70 || 97 <= c <= 102
  }

  predicate ValidUnit(u: Unit) {
    match u
    case Plain(c) => c >= 32 && c != QUOTE && c != BACKSLASH
    case Escape(c, digits) =>
      if c == 117 then |digits| == 4 && forall k :: 0 <= k < 4 ==> HexDigit(digits[k])
      else digits == [] && (c == QUOTE || c == BACKSLASH || c == 47 || c == 98 || c == 102 || c == 110 || c == 114 || c == 116)
  }

  predicate ValidUnits(units: seq<Unit>) {
    forall k :: 0 <= k < |units| ==> ValidUnit(units[k])
  }

  /** Numbers and the three names, taken loosely: any run of bytes that are neither quotes nor braces. */
  predicate ValidAtom(text: Bytes) {
    text != [] && forall k :: 0 <= k < |text| ==> text[k] != QUOTE && text[k] != OPEN && text[k] != CLOSE
  }

  predicate ValidValue(v: Value) {
    match v
    case Atom(text) => ValidAtom(text)
    case Str(units) => ValidUnits(units)
    case Arr(items) => ValidItems(items)
    case Obj(members) => ValidMembers(members)
  }

  predicate ValidItems(items: Items) {
    match items
    case NoItems(gap) => Blank(gap)
    case Item(before, value, after) => Blank(before) && ValidValue(value) && Blank(after)
    case ItemThen(before, value, after, more) =>
      Blank(before) && ValidValue(value) && Blank(after) && !more.NoItems? && ValidItems(more)
  }

  predicate ValidMembers(members: Members) {
    match members
    case NoMembers(gap) => Blank(gap)
    case Member(before, name, afterName, beforeValue, value, after) =>
      Blank(before) && ValidUnits(name) && Blank(afterName) && Blank(beforeValue) && ValidValue(value) && Blank(after)
    case MemberThen(before, name, afterName, beforeValue, value, after, more) =>
      Blank(before) && ValidUnits(name) && Blank(afterName) && Blank(beforeValue) && ValidValue(value) && Blank(after) &&
      !more.NoMembers? && ValidMembers(more)
  }

  function UnitText(u: Unit): Bytes {
    match u
    case Plain(c) => [c]
    case Escape(c, digits) => [BACKSLASH, c] + digits
  }

  function UnitsText(units: seq<Unit>): Bytes {
    if units == [] then [] else UnitsText(units[..|units| - 1]) + UnitText(units[|units| - 1])
  }

  function StringText(units: seq<Unit>): Bytes {
    [QUOTE] + UnitsText(units) + [QUOTE]
  }

  function ValueText(v: Value): Bytes {
    match v
    case Atom(text) => text
    case Str(units) => StringText(units)
    case Arr(items) => [LEFT_BRACKET] + ItemsText(items) + [RIGHT_BRACKET]
    case Obj(members) => [OPEN] + MembersText(members) + [CLOSE]
  }

  function ItemsText(items: Items): Bytes {
    match items
    case NoItems(gap) => gap
    case Item(before, value, after) => before + ValueText(value) + after
    case ItemThen(before, value, after, more) => before + ValueText(value) + after + [COMMA] + ItemsText(more)
  }

  function MembersText(members: Members): Bytes {
    match members
    case NoMembers(gap) => gap
    case Member(before, name, afterName, beforeValue, value, after) =>
      before + StringText(name) + afterName + [COLON] + beforeValue + ValueText(value) + after
    case MemberThen(before, name, afterName, beforeValue, value, after, more) =>
      before + StringText(name) + afterName + [COLON] + beforeValue + ValueText(value) + after + [COMMA] +
      MembersText(more)
  }

  // ---- the scanner's state -------------------------------------------------------------------------

  datatype Scan = Scan(depth: int, inString: bool, escaped: bool)

  const START := Scan(0, false, false)

  function Step(s: Scan, c: Byte): Scan {
    if s.inString then
      if s.escaped then s.(escaped := false)
      else if c == BACKSLASH then s.(escaped := true)
      else if c == QUOTE then s.(inString := false)
      else s
    else if c == QUOTE then s.(inString := true)
    else if c == OPEN then s.(depth := s.depth + 1)
    else if c == CLOSE then s.(depth := s.depth - 1)
    else s
  }

  /** Reading `c` in state `s` closes the outermost brace. */
  predicate Shuts(s: Scan, c: Byte) {
    !s.inString && c == CLOSE && s.depth == 1
  }

  function Run(s: Scan, text: Bytes): Scan {
    if text == [] then s else Step(Run(s, text[..|text| - 1]), text[|text| - 1])
  }

  /** No byte of `text` closes the outermost brace. */
  predicate Open(s: Scan, text: Bytes) {
    if text == [] then true
    else Open(s, text[..|text| - 1]) && !Shuts(Run(s, text[..|text| - 1]), text[|text| - 1])
  }

  lemma {:induction false} RunAppend(s: Scan, a: Bytes, b: Bytes)
    ensures Run(s, a + b) == Run(Run(s, a), b)
    ensures Open(s, a + b) <==> Open(s, a) && Open(Run(s, a), b)
  {
    if b == [] {
      assert a + b == a;
    } else {
      assert (a + b)[..|a + b| - 1] == a + b[..|b| - 1];
      RunAppend(s, a, b[..|b| - 1]);
    }
  }

  /** `text` leaves the scanner where it was, never closing the outermost brace on the way. */
  predicate Quiet(s: Scan, text: Bytes) {
    Open(s, text) && Run(s, text) == s
  }

  lemma QuietAppend(s: Scan, a: Bytes, b: Bytes)
    requires Quiet(s, a) && Quiet(s, b)
    ensures Quiet(s, a + b)
  {
    RunAppend(s, a, b);
  }

  /** Outside a string, at any depth. */
  predicate Outside(s: Scan) {
    s.depth >= 1 && !s.inString && !s.escaped
  }

  lemma {:induction false} PlainQuiet(s: Scan, text: Bytes)
    requires Outside(s)
    requires forall k :: 0 <= k < |text| ==> text[k] != QUOTE && text[k] != OPEN && text[k] != CLOSE
    ensures Quiet(s, text)
  {
    if text != [] {
      PlainQuiet(s, text[..|text| - 1]);
    }
  }

  lemma {:induction false} InsideQuiet(s: Scan, text: Bytes)
    requires s.inString && !s.escaped
    requires forall k :: 0 <= k < |text| ==> text[k] != QUOTE && text[k] != BACKSLASH
    ensures Quiet(s, text)
  {
    if text != [] {
      InsideQuiet(s, text[..|text| - 1]);
    }
  }

  lemma UnitQuiet(s: Scan, u: Unit)
    requires s.inString && !s.escaped && ValidUnit(u)
    ensures Quiet(s, UnitText(u))
  {
    match u
    case Plain(c) => InsideQuiet(s, [c]);
    case Escape(c, digits) =>
      OneByte(s, BACKSLASH);
      OneByte(s.(escaped := true), c);
      RunAppend(s, [BACKSLASH], [c]);
      assert [BACKSLASH, c] == [BACKSLASH] + [c];
      InsideQuiet(s, digits);
      QuietAppend(s, [BACKSLASH, c], digits);
  }

  lemma {:induction false} UnitsQuiet(s: Scan, units: seq<Unit>)
    requires s.inString && !s.escaped && ValidUnits(units)
    ensures Quiet(s, UnitsText(units))
  {
    if units != [] {
      var init, last := units[..|units| - 1], units[|units| - 1];
      UnitsQuiet(s, init);
      UnitQuiet(s, last);
      QuietAppend(s, UnitsText(init), UnitText(last));
    }
  }

  lemma OneByte(s: Scan, c: Byte)
    ensures Run(s, [c]) == Step(s, c)
    ensures Open(s, [c]) <==> !Shuts(s, c)
  {
    assert [c][..0] == [];
  }

  lemma StringQuiet(s: Scan, units: seq<Unit>)
    requires Outside(s) && ValidUnits(units)
    ensures Quiet(s, StringText(units))
  {
    var inside := s.(inString := true);
    OneByte(s, QUOTE);
    UnitsQuiet(inside, units);
    RunAppend(s, [QUOTE], UnitsText(units));
    OneByte(inside, QUOTE);
    RunAppend(s, [QUOTE] + UnitsText(units), [QUOTE]);
  }

  lemma BlankQuiet(s: Scan, gap: Bytes)
    requires Outside(s) && Blank(gap)
    ensures Quiet(s, gap)
  {
    PlainQuiet(s, gap);
  }

  lemma {:induction false} ValueQuiet(s: Scan, v: Value)
    requires Outside(s) && ValidValue(v)
    ensures Quiet(s, ValueText(v))
    decreases v, 0
  {
    match v
    case Atom(text) => PlainQuiet(s, text);
    case Str(units) => StringQuiet(s, units);
    case Arr(items) =>
      ItemsQuiet(s, items);
      BracketsQuiet(s, ItemsText(items));
    case Obj(members) =>
      MembersQuiet(s.(depth := s.depth + 1), members);
      BracesQuiet(s, MembersText(members));
  }

  lemma BracketsQuiet(s: Scan, text: Bytes)
    requires Outside(s) && Quiet(s, text)
    ensures Quiet(s, [LEFT_BRACKET] + text + [RIGHT_BRACKET])
  {
    PlainQuiet(s, [LEFT_BRACKET]);
    PlainQuiet(s, [RIGHT_BRACKET]);
    QuietAppend(s, [LEFT_BRACKET], text);
    QuietAppend(s, [LEFT_BRACKET] + text, [RIGHT_BRACKET]);
  }

  lemma BracesQuiet(s: Scan, text: Bytes)
    requires Outside(s) && Quiet(s.(depth := s.depth + 1), text)
    ensures Quiet(s, [OPEN] + text + [CLOSE])
  {
    var deeper := s.(depth := s.depth + 1);
    OneByte(s, OPEN);
    RunAppend(s, [OPEN], text);
    OneByte(deeper, CLOSE);
    RunAppend(s, [OPEN] + text, [CLOSE]);
  }

  lemma {:induction false} ItemsQuiet(s: Scan, items: Items)
    requires Outside(s) && ValidItems(items)
    ensures Quiet(s, ItemsText(items))
    decreases items
  {
    match items
    case NoItems(gap) => BlankQuiet(s, gap);
    case Item(before, value, after) => AroundQuiet(s, before, value, after);
    case ItemThen(before, value, after, more) =>
      AroundQuiet(s, before, value, after);
      ItemsQuiet(s, more);
      var first := before + ValueText(value) + after;
      PlainQuiet(s, [COMMA]);
      QuietAppend(s, first, [COMMA]);
      QuietAppend(s, first + [COMMA], ItemsText(more));
  }

  lemma {:induction false} AroundQuiet(s: Scan, before: Bytes, value: Value, after: Bytes)
    requires Outside(s) && Blank(before) && ValidValue(value) && Blank(after)
    ensures Quiet(s, before + ValueText(value) + after)
    decreases value, 1
  {
    BlankQuiet(s, before);
    ValueQuiet(s, value);
    BlankQuiet(s, after);
    QuietAppend(s, before, ValueText(value));
    QuietAppend(s, before + ValueText(value), after);
  }

  lemma {:induction false} MemberQuiet(s: Scan, before: Bytes, name: seq<Unit>, afterName: Bytes, beforeValue: Bytes,
                                       value: Value, after: Bytes)
    requires Outside(s) && Blank(before) && ValidUnits(name) && Blank(afterName) && Blank(beforeValue)
    requires ValidValue(value) && Blank(after)
    ensures Quiet(s, before + StringText(name) + afterName + [COLON] + beforeValue + ValueText(value) + after)
    decreases value, 1
  {
    BlankQuiet(s, before);
    StringQuiet(s, name);
    BlankQuiet(s, afterName);
    PlainQuiet(s, [COLON]);
    BlankQuiet(s, beforeValue);
    ValueQuiet(s, value);
    BlankQuiet(s, after);
    var t1 := before + StringText(name);
    var t2 := t1 + afterName;
    var t3 := t2 + [COLON];
    var t4 := t3 + beforeValue;
    QuietAppend(s, before, StringText(name));
    QuietAppend(s, t1, afterName);
    QuietAppend(s, t2, [COLON]);
    QuietAppend(s, t3, beforeValue);
    QuietAppend(s, t4, ValueText(value));
    QuietAppend(s, t4 + ValueText(value), after);
  }

  lemma {:induction false} MembersQuiet(s: Scan, members: Members)
    requires Outside(s) && ValidMembers(members)
    ensures Quiet(s, MembersText(members))
    decreases members
  {
    match members
    case NoMembers(gap) => BlankQuiet(s, gap);
    case Member(before, name, afterName, beforeValue, value, after) =>
      MemberQuiet(s, before, name, afterName, beforeValue, value, after);
    case MemberThen(before, name, afterName, beforeValue, value, after, more) =>
      MemberQuiet(s, before, name, afterName, beforeValue, value, after);
      MembersQuiet(s, more);
      var first := before + StringText(name) + afterName + [COLON] + beforeValue + ValueText(value) + after;
      PlainQuiet(s, [COMMA]);
      QuietAppend(s, first, [COMMA]);
      QuietAppend(s, first + [COMMA], MembersText(more));
  }

  /** From the start, an object's text closes the outermost brace at its last byte and not before. */
  lemma ObjectShutsAtItsEnd(members: Members)
    requires ValidMembers(members)
    ensures var text := ValueText(Obj(members));
            && Open(START, text[..|text| - 1])
            && Shuts(Run(START, text[..|text| - 1]), text[|text| - 1])
  {
    var text := ValueText(Obj(members));
    var inner := [OPEN] + MembersText(members);
    assert text == inner + [CLOSE] && text[..|text| - 1] == inner;
    OneByte(START, OPEN);
    MembersQuiet(Scan(1, false, false), members);
    RunAppend(START, [OPEN], MembersText(members));
  }

  // ---- the extractor -------------------------------------------------------------------------------

  /** `bytes.Index`: the first place `needle` occurs. */
  function Index(hay: Bytes, needle: Bytes): (at: Option<nat>)
    ensures at.Some? ==> at.value + |needle| <= |hay|
  {
    if needle <= hay then Some(0)
    else if hay == [] then None
    else
      match Index(hay[1..], needle)
      case None => None
      case Some(k) => Some(k + 1)
  }

  lemma {:induction false} IndexMeaning(hay: Bytes, needle: Bytes)
    ensures var at := Index(hay, needle);
            && (at.Some? ==> at.value <= |hay| && needle <= hay[at.value..])
            && forall j :: 0 <= j <= |hay| && (at.None? || j < at.value) ==> !(needle <= hay[j..])
  {
    if !(needle <= hay) && hay != [] {
      IndexMeaning(hay[1..], needle);
      assert forall j :: 1 <= j <= |hay| ==> hay[j..] == hay[1..][j - 1..];
      assert hay[0..] == hay;
    } else {
      assert hay[0..] == hay;
    }
  }

  /** Finding the key is a matter of the bytes up to its end. */
  lemma {:induction false} IndexExtends(hay: Bytes, needle: Bytes, more: Bytes)
    requires Index(hay, needle).Some?
    ensures Index(hay + more, needle) == Index(hay, needle)
  {
    if !(needle <= hay) {
      assert (hay + more)[1..] == hay[1..] + more;
      assert (hay + more)[..|needle|] == hay[..|needle|];
      IndexExtends(hay[1..], needle, more);
    }
  }

  /** What the extractor returns: from the first open brace at or after the key, the bytes up to the one that
      closes it. */
  function ExtractAfter(out: Bytes, key: Bytes): Option<Bytes> {
    match Index(out, key)
    case None => None
    case Some(at) => ScanFrom(out[at..])
  }

  /** The shortest prefix of `text` whose last byte closes its outermost brace. */
  function FirstObject(text: Bytes): Option<Bytes> {
    FirstObjectFrom(text, 0)
  }

  function FirstObjectFrom(text: Bytes, i: nat): Option<Bytes>
    requires i <= |text|
    decreases |text| - i
  {
    if i == |text| then None
    else if Shuts(Run(START, text[..i]), text[i]) then Some(text[..i + 1])
    else FirstObjectFrom(text, i + 1)
  }

  lemma {:induction false} StillOpen(text: Bytes, i: nat)
    requires i <= |text| && Open(START, text[..i])
    ensures FirstObject(text) == FirstObjectFrom(text, i)
  {
    if i > 0 {
      assert text[..i][..i - 1] == text[..i - 1];
      StillOpen(text, i - 1);
    }
  }

  /** The brace matcher. */
  method ScanObject(text: Bytes) returns (obj: Option<Bytes>)
    ensures obj == FirstObject(text)
  {
    var depth, inString, escaped := 0, false, false;
    for i := 0 to |text|
      invariant Scan(depth, inString, escaped) == Run(START, text[..i])
      invariant FirstObject(text) == FirstObjectFrom(text, i)
    {
      var c := text[i];
      assert text[..i + 1][..i] == text[..i];
      if inString {
        if escaped {
          escaped := false;
        } else if c == BACKSLASH {
          escaped := true;
        } else if c == QUOTE {
          inString := false;
        }
      } else if c == QUOTE {
        inString := true;
      } else if c == OPEN {
        depth := depth + 1;
      } else if c == CLOSE {
        depth := depth - 1;
        if depth == 0 {
          return Some(text[..i + 1]);
        }
      }
    }
    return None;
  }

  method ExtractInfoObject(out: Bytes) returns (obj: Option<Bytes>)
    ensures obj == ExtractAfter(out, KEY)
  {
    var key := Index(out, KEY);
    if key.None? {
      return None;
    }
    var open := Index(out[key.value..], [OPEN]);
    if open.None? {
      return None;
    }
    obj := ScanObject(out[key.value..][open.value..]);
  }

  // ---- what it finds -------------------------------------------------------------------------------

  ghost predicate NoBrace(gap: Bytes) {
    forall k :: 0 <= k < |gap| ==> gap[k] != OPEN
  }

  /** The first brace after a gap without braces. */
  lemma {:induction false} GapThenOpen(gap: Bytes, text: Bytes)
    requires NoBrace(gap) && (text == [] || text[0] == OPEN)
    ensures Index(gap + text, [OPEN]) == if text == [] then None else Some(|gap|)
  {
    if gap == [] {
      assert gap + text == text;
    } else {
      assert (gap + text)[0] == gap[0] && (gap + text)[1..] == gap[1..] + text;
      GapThenOpen(gap[1..], text);
    }
  }

  lemma KeyFound(pre: Bytes, key: Bytes, gap: Bytes, text: Bytes)
    requires Index(pre + key, key) == Some(|pre|)
    ensures Index(pre + key + gap + text, key) == Some(|pre|)
    ensures (pre + key + gap + text)[|pre|..] == key + gap + text
  {
    IndexExtends(pre + key, key, gap + text);
    assert pre + key + gap + text == (pre + key) + (gap + text);
  }

  /** From the key on: a gap without braces, then the scan. */
  function ScanFrom(tail: Bytes): Option<Bytes> {
    match Index(tail, [OPEN])
    case None => None
    case Some(open) => FirstObject(tail[open..])
  }

  lemma GapThenScan(gap: Bytes, text: Bytes)
    requires NoBrace(gap) && (text == [] || text[0] == OPEN)
    ensures ScanFrom(gap + text) == if text == [] then None else FirstObject(text)
  {
    GapThenOpen(gap, text);
    assert (gap + text)[|gap|..] == text;
  }

  /** After the first key and a gap without braces, the scan starts exactly at the text that follows. */
  lemma ExtractAtKey(pre: Bytes, key: Bytes, gap: Bytes, text: Bytes)
    requires Index(pre + key, key) == Some(|pre|) && NoBrace(key) && NoBrace(gap)
    requires text == [] || text[0] == OPEN
    ensures ExtractAfter(pre + key + gap + text, key) == if text == [] then None else FirstObject(text)
  {
    KeyFound(pre, key, gap, text);
    assert NoBrace(key + gap);
    GapThenScan(key + gap, text);
  }

  lemma ObjectFirst(members: Members, rest: Bytes)
    requires ValidMembers(members)
    ensures FirstObject(ValueText(Obj(members)) + rest) == Some(ValueText(Obj(members)))
  {
    var whole := ValueText(Obj(members));
    var text := whole + rest;
    var n := |whole| - 1;
    ObjectShutsAtItsEnd(members);
    assert text[..n] == whole[..n] && text[..n + 1] == whole;
    StillOpen(text, n);
  }

  lemma OpenPrefix(s: Scan, text: Bytes, k: nat)
    requires k <= |text| && Open(s, text)
    ensures Open(s, text[..k])
  {
    assert text == text[..k] + text[k..];
    RunAppend(s, text[..k], text[k..]);
  }

  lemma NoObjectInAPrefix(members: Members, k: nat)
    requires ValidMembers(members) && k < |ValueText(Obj(members))|
    ensures FirstObject(ValueText(Obj(members))[..k]) == None
  {
    var whole := ValueText(Obj(members));
    var text := whole[..k];
    ObjectShutsAtItsEnd(members);
    OpenPrefix(START, whole[..|whole| - 1], k);
    assert whole[..|whole| - 1][..k] == text == text[..k];
    StillOpen(text, k);
  }

  /** The scanner is exact. For any JSON object, nested and with escaped strings, after the first occurrence
      of the key and a gap without braces, the extractor returns that object whatever follows it. */
  lemma ExtractsTheObject(pre: Bytes, key: Bytes, gap: Bytes, members: Members, rest: Bytes)
    requires Index(pre + key, key) == Some(|pre|) && NoBrace(key) && NoBrace(gap) && ValidMembers(members)
    ensures ExtractAfter(pre + key + gap + (ValueText(Obj(members)) + rest), key) == Some(ValueText(Obj(members)))
  {
    ExtractAtKey(pre, key, gap, ValueText(Obj(members)) + rest);
    ObjectFirst(members, rest);
  }

  /** And for a document cut anywhere inside the object, or before it, it returns nothing. */
  lemma CutObjectGivesNothing(pre: Bytes, key: Bytes, gap: Bytes, members: Members, k: nat)
    requires Index(pre + key, key) == Some(|pre|) && NoBrace(key) && NoBrace(gap)
    requires ValidMembers(members) && k < |ValueText(Obj(members))|
    ensures ExtractAfter(pre + key + gap + ValueText(Obj(members))[..k], key) == None
  {
    ExtractAtKey(pre, key, gap, ValueText(Obj(members))[..k]);
    NoObjectInAPrefix(members, k);
  }

  /** The first place from `from` on where `what` stands. */
  ghost predicate FirstAt(out: Bytes, what: Bytes, from: nat, at: int) {
    from <= at <= |out| && what <= out[at..] && forall j :: from <= j < at ==> !(what <= out[j..])
  }

  ghost predicate Nowhere(out: Bytes, what: Bytes, from: nat) {
    forall j :: from <= j <= |out| ==> !(what <= out[j..])
  }

  lemma IndexFrom(out: Bytes, what: Bytes, from: nat)
    requires from <= |out|
    ensures Index(out[from..], what).None? ==> Nowhere(out, what, from)
    ensures Index(out[from..], what).Some? ==> FirstAt(out, what, from, from + Index(out[from..], what).value)
  {
    IndexMeaning(out[from..], what);
    assert forall j :: from <= j <= |out| ==> out[from..][j - from..] == out[j..];
  }

  /** Where the extractor looks: without the key, or without a brace after its first place, it returns nothing; else
      it reads from the first brace there. */
  lemma ExtractMeaning(out: Bytes, key: Bytes)
    ensures Nowhere(out, key, 0) ==> ExtractAfter(out, key) == None
    ensures forall at :: FirstAt(out, key, 0, at) && Nowhere(out, [OPEN], at) ==> ExtractAfter(out, key) == None
    ensures forall at, open :: FirstAt(out, key, 0, at) && FirstAt(out, [OPEN], at, open) ==>
              ExtractAfter(out, key) == FirstObject(out[open..])
  {
    assert out[0..] == out;
    IndexFrom(out, key, 0);
    var index := Index(out, key);
    if index.None? {
      assert forall at :: !FirstAt(out, key, 0, at);
    } else {
      assert forall at :: FirstAt(out, key, 0, at) ==> at == index.value;
      BraceFrom(out, index.value);
    }
  }

  lemma BraceFrom(out: Bytes, at: nat)
    requires at <= |out|
    ensures Nowhere(out, [OPEN], at) ==> ScanFrom(out[at..]) == None
    ensures forall open :: FirstAt(out, [OPEN], at, open) ==> ScanFrom(out[at..]) == FirstObject(out[open..])
  {
    IndexFrom(out, [OPEN], at);
    var index := Index(out[at..], [OPEN]);
    if index.Some? {
      SameTail(out, at, index.value);
      assert [OPEN] <= out[at + index.value..];
    }
    forall open | FirstAt(out, [OPEN], at, open) ensures index.Some? && open == at + index.value {
      FoundOnce(out, [OPEN], at, open);
    }
  }

  lemma SameTail(out: Bytes, at: nat, k: nat)
    requires at + k <= |out|
    ensures out[at..][k..] == out[at + k..]
  {
  }

  lemma FoundOnce(out: Bytes, what: Bytes, from: nat, at: int)
    requires from <= |out| && FirstAt(out, what, from, at)
    ensures Index(out[from..], what) == Some(at - from)
  {
    IndexFrom(out, what, from);
  }

  /** The byte at `n` is the first that closes what the text opens. */
  ghost predicate ClosesAt(text: Bytes, n: int) {
    0 <= n < |text| && Shuts(Run(START, text[..n]), text[n]) && forall m :: 0 <= m < n ==> !Shuts(Run(START, text[..m]), text[m])
  }

  /** What is read from there: the text up to the byte that first closes it, and nothing when none does. */
  lemma FirstObjectMeaning(text: Bytes)
    ensures forall n :: ClosesAt(text, n) ==> FirstObject(text) == Some(text[..n + 1])
    ensures (forall n :: !ClosesAt(text, n)) ==> FirstObject(text) == None
  {
    FirstClose(text, 0);
  }

  lemma {:induction false} FirstClose(text: Bytes, i: nat)
    requires i <= |text| && forall m :: 0 <= m < i ==> !Shuts(Run(START, text[..m]), text[m])
    ensures forall n :: ClosesAt(text, n) ==> FirstObjectFrom(text, i) == Some(text[..n + 1])
    ensures (forall n :: !ClosesAt(text, n)) ==> FirstObjectFrom(text, i) == None
    decreases |text| - i
  {
    if i < |text| {
      if Shuts(Run(START, text[..i]), text[i]) {
        assert ClosesAt(text, i);
      } else {
        FirstClose(text, i + 1);
      }
    }
  }

  /** Nothing else is ever returned: what comes back opens with a brace, and its last byte is the first to
      close it. */
  lemma {:induction false} FoundIsBalanced(text: Bytes, i: nat)
    requires i <= |text| && Open(START, text[..i])
    ensures var found := FirstObjectFrom(text, i);
            found.Some? ==>
              && found.value <= text && |found.value| > i
              && Open(START, found.value[..|found.value| - 1])
              && Shuts(Run(START, found.value[..|found.value| - 1]), found.value[|found.value| - 1])
    decreases |text| - i
  {
    if i < |text| {
      assert text[..i + 1][..i] == text[..i];
      if !Shuts(Run(START, text[..i]), text[i]) {
        FoundIsBalanced(text, i + 1);
      }
    }
  }
}
