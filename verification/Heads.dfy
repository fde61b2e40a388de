/** The opening prompts of a transcript: read from a window at its start, and cached while the file grows. */
module Heads {
  import opened Lines
  import opened Text
  import Delta

  const HEAD_BYTES: nat := 0x1_0000
  const FIRST_PROMPT_COUNT: nat := 3

  /** One decoded record; Other for a line that does not decode or is no user record. `command` is the slash
      command its tags hold, `prompt` the text somebody typed; either may be empty. */
  datatype Entry = Other | User(meta: bool, command: string, prompt: string)

  datatype Reader = Reader(trim: Bytes -> Bytes, decode: Bytes -> Entry)

  function EntryOf(r: Reader, line: Bytes): Entry {
    var trimmed := r.trim(line);
    if trimmed == [] || trimmed[0] != Delta.OPEN_BRACE then Other else r.decode(trimmed)
  }

  /** A line is read from its first character that is no blank on, and only when that opens an object. */
  lemma EntryMeaning(r: Reader, line: Bytes)
    ensures r.trim(line) == [] || r.trim(line)[0] != Delta.OPEN_BRACE ==> EntryOf(r, line) == Other
    ensures r.trim(line) != [] && r.trim(line)[0] == Delta.OPEN_BRACE ==> EntryOf(r, line) == r.decode(r.trim(line))
  {
  }

  /** Prompts so far, and a slash command waiting for the record after it. */
  datatype Opening = Opening(prompts: seq<string>, command: string)

  const UNREAD := Opening([], "")

  function Take(o: Opening, e: Entry): Opening {
    if |o.prompts| >= FIRST_PROMPT_COUNT then o
    else
      match e
      case Other => o
      case User(meta, command, prompt) =>
        if meta then (if o.command != "" then Opening(o.prompts + [o.command], "") else o)
        else if command != "" then Opening(o.prompts, command)
        else Opening(if prompt == "" then o.prompts else o.prompts + [prompt], "")
  }

  function TakeAll(r: Reader, lines: seq<Bytes>): (o: Opening) {
    if lines == [] then UNREAD else Take(TakeAll(r, lines[..|lines| - 1]), EntryOf(r, lines[|lines| - 1]))
  }

  function Window(f: Bytes): Bytes {
    if |f| > HEAD_BYTES then f[..HEAD_BYTES] else f
  }

  /** The last line is dropped when the window may have cut it short. */
  function HeadLines(raw: Bytes): seq<Bytes> {
    if |raw| >= HEAD_BYTES then Records(raw) else Split(raw)
  }

  function ParseHead(r: Reader, raw: Bytes): seq<string> {
    TakeAll(r, HeadLines(raw)).prompts
  }

  datatype Head = Head(size: nat, prompts: seq<string>, complete: bool)

  function HeadOf(r: Reader, f: Bytes): Head {
    var prompts := ParseHead(r, Window(f));
    Head(|f|, prompts, |prompts| >= FIRST_PROMPT_COUNT || |Window(f)| >= HEAD_BYTES)
  }

  /** What a read of `f` leaves in the cache, and returns the prompts of. */
  function Look(r: Reader, cached: Option<Head>, f: Bytes): Head {
    if cached.Some? && (cached.value.complete || cached.value.size == |f|) then cached.value else HeadOf(r, f)
  }

  /** A head that is complete, or was read at the size the file has, is served as it is; any other is read again. */
  lemma LookMeaning(r: Reader, head: Head, f: Bytes)
    ensures head.complete || head.size == |f| ==> Look(r, Some(head), f) == head
    ensures !head.complete && head.size != |f| ==> Look(r, Some(head), f) == HeadOf(r, f)
    ensures Look(r, None, f) == HeadOf(r, f)
  {
  }

  // ---- the readers as they run ---------------------------------------------------------------------

  method ParseHeadLines(r: Reader, raw: Bytes) returns (prompts: seq<string>)
    ensures prompts == ParseHead(r, raw)
  {
    var lines := Split(raw);
    if |raw| >= HEAD_BYTES {
      lines := lines[..|lines| - 1];
    }
    assert lines == HeadLines(raw);
    prompts := [];
    var command := "";
    var i := 0;
    while i < |lines|
      invariant 0 <= i <= |lines| && |prompts| < FIRST_PROMPT_COUNT
      invariant TakeAll(r, lines[..i]) == Opening(prompts, command)
    {
      assert lines[..i + 1][..i] == lines[..i];
      var line := r.trim(lines[i]);
      i := i + 1;
      if line == [] || line[0] != Delta.OPEN_BRACE {
        continue;
      }
      var rec := r.decode(line);
      if rec.Other? {
        continue;
      }
      if rec.meta {
        if command != "" {
          prompts, command := prompts + [command], "";
          if |prompts| >= FIRST_PROMPT_COUNT {
            break;
          }
        }
        continue;
      }
      command := rec.command;
      if command != "" || rec.prompt == "" {
        continue;
      }
      prompts := prompts + [rec.prompt];
      if |prompts| >= FIRST_PROMPT_COUNT {
        break;
      }
    }
    Stays(r, lines, i);
  }

  class Index {
    const reader: Reader
    var heads: map<string, Head>

    constructor (reader: Reader)
      ensures heads == map[] && this.reader == reader
    {
      this.reader := reader;
      heads := map[];
    }

    function Cached(path: string): Option<Head>
      reads this
      ensures path in heads ==> Cached(path) == Some(heads[path])
      ensures path !in heads ==> Cached(path) == None
    {
      if path in heads then Some(heads[path]) else None
    }

    method ReadHead(path: string, f: Bytes) returns (prompts: seq<string>)
      modifies this
      ensures heads == old(heads)[path := Look(reader, old(Cached(path)), f)]
      ensures prompts == heads[path].prompts
    {
      if path in heads && (heads[path].complete || heads[path].size == |f|) {
        assert heads == heads[path := heads[path]];
        return heads[path].prompts;
      }
      var raw := Window(f);
      prompts := ParseHeadLines(reader, raw);
      heads := heads[path := Head(|f|, prompts, |prompts| >= FIRST_PROMPT_COUNT || |raw| >= HEAD_BYTES)];
    }
  }

  /** Once there are enough prompts, no later line changes them. */
  lemma {:induction false} Stays(r: Reader, lines: seq<Bytes>, i: nat)
    requires i <= |lines|
    ensures TakeAll(r, lines[..i]).prompts <= TakeAll(r, lines).prompts
    ensures |TakeAll(r, lines[..i]).prompts| >= FIRST_PROMPT_COUNT || i == |lines| ==> TakeAll(r, lines) == TakeAll(r, lines[..i])
  {
    if i == |lines| {
      assert lines[..i] == lines;
    } else {
      var init := lines[..|lines| - 1];
      assert init[..i] == lines[..i];
      Stays(r, init, i);
    }
  }

  // ---- what a head is ------------------------------------------------------------------------------

  /** The command the user record before here holds, unless that is a meta record or none came before. */
  function Waiting(r: Reader, lines: seq<Bytes>): string {
    if lines == [] then ""
    else
      match EntryOf(r, lines[|lines| - 1])
      case Other => Waiting(r, lines[..|lines| - 1])
      case User(meta, command, _) => if meta then "" else command
  }

  /** What the last line adds: text somebody typed, or the command a meta record says was expanded. */
  function Opened(r: Reader, lines: seq<Bytes>): seq<string>
    requires lines != []
  {
    match EntryOf(r, lines[|lines| - 1])
    case Other => []
    case User(meta, command, prompt) =>
      var text := if meta then Waiting(r, lines[..|lines| - 1]) else if command != "" then "" else prompt;
      if text == "" then [] else [text]
  }

  /** Every prompt in the lines, without a bound. */
  function AllPrompts(r: Reader, lines: seq<Bytes>): seq<string> {
    if lines == [] then [] else AllPrompts(r, lines[..|lines| - 1]) + Opened(r, lines)
  }

  function AtMost(s: seq<string>, n: nat): seq<string> {
    if |s| <= n then s else s[..n]
  }

  /** The head is the first three of all the prompts. */
  lemma {:induction false} HeadIsFirstPrompts(r: Reader, lines: seq<Bytes>)
    ensures TakeAll(r, lines).prompts == AtMost(AllPrompts(r, lines), FIRST_PROMPT_COUNT)
    ensures |AllPrompts(r, lines)| < FIRST_PROMPT_COUNT ==> TakeAll(r, lines).command == Waiting(r, lines)
  {
    if lines != [] {
      HeadIsFirstPrompts(r, lines[..|lines| - 1]);
    }
  }

  // ---- the cache agrees with a fresh read ----------------------------------------------------------

  /** A proper prefix of a line says nothing, or what the whole line says, as it does when only blanks are
      missing; and when the line is the one a full window drops, it says nothing. */
  ghost predicate WholeOrNothing(r: Reader, raw: Bytes) {
    forall k, piece :: 0 <= k < |Split(raw)| && Beginning(piece, Split(raw)[k]) ==>
      EntryOf(r, piece).Other? || (k < |HeadLines(raw)| && r.trim(piece) == r.trim(Split(raw)[k]))
  }

  predicate Beginning(piece: Bytes, line: Bytes) {
    piece < line
  }

  /** The lines of a grown file: those there were, the unterminated one finished or not, and new ones. */
  lemma GrownSplit(f: Bytes, g: Bytes) returns (line: Bytes)
    requires f <= g
    ensures |Records(f)| < |Split(g)| && Split(g)[..|Records(f)|] == Records(f) && Split(g)[|Records(f)|] == line
    ensures Rest(f) <= line
    ensures |Records(f)| < |Records(g)| || (Records(f) == Records(g) && line == Rest(g))
    ensures Rest(f) == line && |f| < |g| ==> |Records(f)| < |Records(g)|
  {
    var added := g[|f|..];
    assert g == f + added;
    AppendRecords(f, added);
    AppendRest(f, added);
    RestIsSuffix(f);
    PrefixedRecords(Rest(f), added);
    line := Split(g)[|Records(f)|];
    if Records(added) == [] {
      RecordsOrRest(added);
    }
  }

  lemma NextLine(r: Reader, lines: seq<Bytes>, k: nat)
    requires k < |lines|
    ensures TakeAll(r, lines[..k + 1]) == Take(TakeAll(r, lines[..k]), EntryOf(r, lines[k]))
  {
    assert lines[..k + 1][..k] == lines[..k];
  }

  /** Lines that begin alike, and go on alike or with nothing said, open alike. */
  lemma OpensAlike(r: Reader, short: seq<Bytes>, long: seq<Bytes>, n: nat)
    requires |short| == n + 1 && n <= |long| && short[..n] == long[..n]
    requires EntryOf(r, short[n]).Other? || (n < |long| && EntryOf(r, short[n]) == EntryOf(r, long[n]))
    ensures var a, b := TakeAll(r, short).prompts, TakeAll(r, long).prompts;
            a <= b && (|a| >= FIRST_PROMPT_COUNT ==> a == b)
  {
    var i := if EntryOf(r, short[n]).Other? then n else n + 1;
    SameOpening(r, short, long, n, i);
    Stays(r, long, i);
  }

  lemma SameOpening(r: Reader, short: seq<Bytes>, long: seq<Bytes>, n: nat, i: nat)
    requires |short| == n + 1 && i <= |long| && n <= i <= n + 1 && short[..n] == long[..n]
    requires if i == n then EntryOf(r, short[n]).Other? else EntryOf(r, short[n]) == EntryOf(r, long[n])
    ensures TakeAll(r, short) == TakeAll(r, long[..i])
  {
    NextLine(r, short, n);
    assert short[..n + 1] == short;
    if i > n {
      NextLine(r, long, n);
    }
  }

  /** What the law says of the unterminated line of a file that grew. */
  lemma PieceSays(r: Reader, raw: Bytes, k: nat, piece: Bytes)
    requires WholeOrNothing(r, raw) && k < |Split(raw)| && piece <= Split(raw)[k]
    requires piece == Split(raw)[k] ==> k < |HeadLines(raw)|
    ensures EntryOf(r, piece).Other? || (k < |HeadLines(raw)| && EntryOf(r, piece) == EntryOf(r, HeadLines(raw)[k]))
  {
    assert k < |HeadLines(raw)| ==> HeadLines(raw)[k] == Split(raw)[k];
    assert piece != Split(raw)[k] ==> Beginning(piece, Split(raw)[k]);
  }

  /** A grown file opens with the prompts it opened with before; with the same ones, if there were enough. */
  lemma HeadGrows(r: Reader, f: Bytes, g: Bytes)
    requires f <= g && |f| < HEAD_BYTES && |g| <= HEAD_BYTES && WholeOrNothing(r, g)
    ensures var a, b := ParseHead(r, f), ParseHead(r, g);
            a <= b && (|a| >= FIRST_PROMPT_COUNT ==> a == b)
  {
    if f == g { return; }
    var n := |Records(f)|;
    var line := GrownSplit(f, g);
    assert Split(f)[..n] == Records(f) && Split(f)[n] == Rest(f);
    assert HeadLines(g)[..n] == Records(f);
    PieceSays(r, g, n, Rest(f));
    OpensAlike(r, Split(f), HeadLines(g), n);
  }

  /** A head marked complete is final; any other only gains prompts. */
  lemma HeadIsFinal(r: Reader, f: Bytes, g: Bytes)
    requires f <= g && WholeOrNothing(r, Window(g))
    ensures HeadOf(r, f).prompts <= HeadOf(r, g).prompts
    ensures HeadOf(r, f).complete ==> HeadOf(r, f).prompts == HeadOf(r, g).prompts && HeadOf(r, g).complete
  {
    if |f| >= HEAD_BYTES {
      assert Window(f) == Window(g);
    } else {
      HeadGrows(r, f, Window(g));
    }
  }

  /** Where the law ends, exactly: when the window comes to end inside the record that was last before, the head
      goes back to what the records before it open with, so it was final exactly when that record added
      nothing. */
  lemma LostAtTheWindow(r: Reader, f: Bytes, g: Bytes)
    requires f <= g && |f| < HEAD_BYTES <= |g| && Records(Window(g)) == Records(f)
    ensures HeadOf(r, g).prompts == TakeAll(r, Records(f)).prompts <= HeadOf(r, f).prompts
    ensures HeadOf(r, f).prompts <= HeadOf(r, g).prompts <==>
            TakeAll(r, Split(f)).prompts == TakeAll(r, Records(f)).prompts
  {
    RecordsOpen(r, Records(f), Rest(f));
    Antisymmetric(TakeAll(r, Records(f)).prompts, TakeAll(r, Split(f)).prompts);
  }

  lemma RecordsOpen(r: Reader, lines: seq<Bytes>, line: Bytes)
    ensures TakeAll(r, lines).prompts <= TakeAll(r, lines + [line]).prompts
  {
    assert (lines + [line])[..|lines|] == lines;
    Stays(r, lines + [line], |lines|);
  }

  lemma Antisymmetric(a: seq<string>, b: seq<string>)
    requires a <= b
    ensures b <= a <==> b == a
  {
  }

  /** Such a record: it says its words before its newline, and goes on past the window. */
  lemma PromptLost(text: string) returns (r: Reader, f: Bytes, g: Bytes)
    requires text != ""
    ensures f <= g && HeadOf(r, f).prompts == [text] && HeadOf(r, g).prompts == []
  {
    r := Reader(s => s, s => User(false, "", text));
    f := [Delta.OPEN_BRACE];
    g := seq(HEAD_BYTES, i => Delta.OPEN_BRACE);
    UnbrokenHasNoRecord(f);
    UnbrokenHasNoRecord(g);
    assert Window(g) == g;
    NextLine(r, Split(f), 0);
    assert Split(f)[..1] == Split(f);
    LostAtTheWindow(r, f, g);
  }

  function LookAll(r: Reader, versions: seq<Bytes>): Option<Head> {
    if versions == [] then None
    else Some(Look(r, LookAll(r, versions[..|versions| - 1]), versions[|versions| - 1]))
  }

  ghost predicate AppendOnly(r: Reader, versions: seq<Bytes>) {
    && (forall i :: 0 < i < |versions| ==> versions[i - 1] <= versions[i])
    && (forall i :: 0 <= i < |versions| ==> WholeOrNothing(r, Window(versions[i])))
  }

  lemma VersionGrown(r: Reader, versions: seq<Bytes>, i: nat, j: nat)
    requires AppendOnly(r, versions) && i <= j < |versions|
    ensures versions[i] <= versions[j]
    decreases j
  {
    if i < j {
      VersionGrown(r, versions, i, j - 1);
    }
  }

  lemma AppendOnlyBefore(r: Reader, versions: seq<Bytes>)
    requires |versions| > 0 && AppendOnly(r, versions)
    ensures AppendOnly(r, versions[..|versions| - 1])
  {
    var init := versions[..|versions| - 1];
    forall i | 0 < i < |init| ensures init[i - 1] <= init[i] {
      assert versions[i - 1] <= versions[i];
    }
  }

  /** One look at a grown file, with a head of an earlier version in the cache. */
  lemma LookGrown(r: Reader, f: Bytes, g: Bytes)
    requires f <= g && WholeOrNothing(r, Window(g))
    ensures var head := Look(r, Some(HeadOf(r, f)), g);
            head in {HeadOf(r, f), HeadOf(r, g)} && head.prompts == ParseHead(r, Window(g))
  {
    HeadIsFinal(r, f, g);
    if |f| == |g| {
      assert f == g;
    }
  }

  /** What the cache holds was read from some version of the file, and reads as its last version does. */
  lemma {:induction false} CacheIsCurrent(r: Reader, versions: seq<Bytes>) returns (i: nat)
    requires versions != [] && AppendOnly(r, versions)
    ensures i < |versions| && LookAll(r, versions) == Some(HeadOf(r, versions[i]))
    ensures LookAll(r, versions).value.prompts == ParseHead(r, Window(versions[|versions| - 1]))
  {
    var n := |versions| - 1;
    i := n;
    if n > 0 {
      AppendOnlyBefore(r, versions);
      var k := CacheIsCurrent(r, versions[..n]);
      VersionGrown(r, versions, k, n);
      LookGrown(r, versions[k], versions[n]);
      if Look(r, Some(HeadOf(r, versions[k])), versions[n]) == HeadOf(r, versions[k]) {
        i := k;
      }
    }
  }

  /** Over every history of an append-only file the cache returns what reading the file afresh returns, and
      each answer begins with the one before. */
  lemma CacheAgrees(r: Reader, versions: seq<Bytes>)
    requires versions != [] && AppendOnly(r, versions)
    ensures LookAll(r, versions).Some?
    ensures LookAll(r, versions).value.prompts == ParseHead(r, Window(versions[|versions| - 1]))
    ensures |versions| > 1 ==> ParseHead(r, Window(versions[|versions| - 2])) <= LookAll(r, versions).value.prompts
  {
    var i := CacheIsCurrent(r, versions);
    if |versions| > 1 {
      HeadIsFinal(r, versions[|versions| - 2], versions[|versions| - 1]);
    }
  }
}
