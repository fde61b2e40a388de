/** What the Codex question ledger computes, on values: one record changes the book of calls by `Step`,
    a rollout is a `Run` of steps. The imperative ledger in Codexq is proved to compute exactly this; the
    properties a reader relies on are proved here, about every sequence of records. */
module QuestionBook {
  import opened Lines
  import opened Text

  type Time = int

  datatype State = Outstanding | Expired | Answered | Superseded

  datatype Choice = Choice(text: string, description: string)

  datatype AskedQuestion = AskedQuestion(id: string, header: string, question: string, options: seq<Choice>)

  datatype Answer = Answer(labels: seq<string>, note: string)

  /** A Go map value: nil, which reads as empty and may not be written, or a real table. */
  datatype Table<+V> = Nil | Table(entries: map<string, V>)

  function Entries<V>(t: Table<V>): map<string, V> {
    if t.Nil? then map[] else t.entries
  }

  /** One ask. The two maps are type parameters so that the same record serves the values here and the
      heap cells of the imperative ledger. */
  datatype Call<+A, +T> = Call(
    callId: string, isAsync: bool, askedAt: Time, questions: seq<AskedQuestion>, state: State,
    answers: A, answerTimes: T, resolvedAt: Time, reply: string, replyAt: Time)

  type BookCall = Call<Table<Answer>, Table<Time>>

  datatype Book = Book(calls: seq<BookCall>, index: map<string, nat>)

  const EMPTY_BOOK := Book([], map[])

  // ---- one decoded record --------------------------------------------------------------------------

  /** A part of a user message; `relayed` says it is a hook prompt or a board relay. */
  datatype Part = Part(isInputText: bool, relayed: bool, text: string)

  /** What the JSON inside a call's output says: undecodable, or its `answers` field. */
  datatype OutputBody = Unreadable | Fields(answers: Table<string>)

  /** The tuple that names a question: (call id, position), or anything that is not such a tuple. */
  datatype Item = BadItem | Item(id: string, question: int)

  datatype QuestionReply = QuestionReply(answer: string, question: string, item: Item)

  datatype Record =
    | Other
    | Message(role: string, parts: seq<Part>, at: Time)
    | FunctionCall(name: string, callId: string, questions: seq<AskedQuestion>, at: Time)
    | FunctionCallOutput(callId: string, body: OutputBody, parsed: Table<Answer>, at: Time)

  /** The outside functions: JSON decoding of one line (with the byte markers that gate it), decoding of a
      tagged reply's body ([] when it fails), trimming, and whether a question asks for an approval. */
  datatype Codec = Codec(
    decode: Bytes -> Record,
    replies: string -> seq<QuestionReply>,
    trim: string -> string,
    approval: AskedQuestion -> bool)

  const ASK_TOOL := "request_user_input"
  const ASK_TOOL_ASYNC := "request_user_input_async"
  const REPLY_OPEN := "<send_user_message_question_reply>"
  const REPLY_CLOSE := "</send_user_message_question_reply>"
  const MAX_LINE: nat := 0x10_0000

  // ---- the parts of a step -------------------------------------------------------------------------

  /** Only a non-empty answers map is an answer; an empty one is the timer giving up. */
  function OutputState(body: OutputBody): State {
    if body.Unreadable? || body.answers.Nil? then Outstanding
    else if body.answers.entries == map[] then Expired
    else Answered
  }

  function JoinInput(parts: seq<Part>): seq<string> {
    if parts == [] then []
    else JoinInput(parts[..|parts| - 1]) +
         (if parts[|parts| - 1].isInputText then [parts[|parts| - 1].text] else [])
  }

  function JoinLines(texts: seq<string>): string {
    if texts == [] then ""
    else if |texts| == 1 then texts[0]
    else JoinLines(texts[..|texts| - 1]) + "\n" + texts[|texts| - 1]
  }

  /** The operator's words, or None when a part shows the message is not the operator's. */
  function OperatorMessage(parts: seq<Part>): Option<string> {
    if exists k :: 0 <= k < |parts| && parts[k].isInputText && parts[k].relayed then None
    else Some(JoinLines(JoinInput(parts)))
  }

  function AsyncId(callId: string, k: nat): string {
    callId + ":" + Itoa(k)
  }

  function WithAsyncIds(callId: string, questions: seq<AskedQuestion>): (r: seq<AskedQuestion>)
    ensures |r| == |questions|
  {
    seq(|questions|, k requires 0 <= k < |questions| => questions[k].(id := AsyncId(callId, k)))
  }

  function NewCall(r: Record): BookCall
    requires r.FunctionCall?
  {
    var isAsync := r.name == ASK_TOOL_ASYNC;
    Call(r.callId, isAsync, r.at, if isAsync then WithAsyncIds(r.callId, r.questions) else r.questions,
         Outstanding, Nil, Nil, 0, "", 0)
  }

  predicate Offers(codec: Codec, q: AskedQuestion, text: string) {
    exists k :: 0 <= k < |q.options| && codec.trim(text) == codec.trim(q.options[k].text)
  }

  /** The first approval among the questions is not answered by `text`. */
  predicate ApprovalNeedsChoice(codec: Codec, questions: seq<AskedQuestion>, text: string) {
    if questions == [] then false
    else if codec.approval(questions[0]) then !Offers(codec, questions[0], text)
    else ApprovalNeedsChoice(codec, questions[1..], text)
  }

  predicate PendingAsync<A, T>(c: Call<A, T>) {
    c.isAsync && c.state == Outstanding
  }

  function CountPending<A, T>(calls: seq<Call<A, T>>): nat {
    if calls == [] then 0
    else CountPending(calls[..|calls| - 1]) + if PendingAsync(calls[|calls| - 1]) then 1 else 0
  }

  predicate Retires<A, T>(codec: Codec, c: Call<A, T>, pending: nat, text: string) {
    && (c.state == Outstanding || c.state == Expired)
    && !(c.isAsync && (pending != 1 || ApprovalNeedsChoice(codec, c.questions, text)))
  }

  predicate TakesReply<A, T>(c: Call<A, T>, pending: nat, text: string, at: Time) {
    c.isAsync && c.state == Outstanding && pending == 1 && |c.questions| == 1 && c.reply == "" && text != "" &&
    at > c.askedAt
  }

  /** What an operator message with no reply tag does to one call. */
  function Retire<A, T>(codec: Codec, c: Call<A, T>, pending: nat, text: string, at: Time): Call<A, T> {
    if !Retires(codec, c, pending, text) then c
    else if TakesReply(c, pending, text, at) then c.(reply := text, replyAt := at, state := Superseded)
    else c.(state := Superseded)
  }

  function PlainMessage(codec: Codec, b: Book, text: string, at: Time): Book {
    var pending := CountPending(b.calls);
    b.(calls := seq(|b.calls|, i requires 0 <= i < |b.calls| => Retire(codec, b.calls[i], pending, text, at)))
  }

  // ---- tagged replies ------------------------------------------------------------------------------

  /** The JSON between the tags, when the trimmed message is exactly a tagged body. */
  function ReplyBody(codec: Codec, text: string): Option<string> {
    match CutPrefix(codec.trim(text), REPLY_OPEN)
    case None => None
    case Some(body) => CutSuffix(body, REPLY_CLOSE)
  }

  predicate IndexInRange(calls: nat, index: map<string, nat>) {
    forall id :: id in index ==> index[id] < calls
  }

  /** One reply names a question that may still take an answer at `at`. */
  predicate ReplyStands(codec: Codec, b: Book, r: QuestionReply, at: Time)
    requires IndexInRange(|b.calls|, b.index)
  {
    && r.item.Item? && codec.trim(r.answer) != "" && r.item.id in b.index
    && var c := b.calls[b.index[r.item.id]];
    && c.isAsync && c.state == Outstanding && at > c.askedAt
    && 0 <= r.item.question < |c.questions|
    && r.question != "" && r.question <= c.questions[r.item.question].question
    && c.questions[r.item.question].id !in Entries(c.answers)
  }

  /** The call and the question a reply names, by position. */
  function Key(b: Book, r: QuestionReply): (int, int) {
    if r.item.Item? && r.item.id in b.index then (b.index[r.item.id] as int, r.item.question) else (-1, -1)
  }

  /** Every reply of a batch, or of the beginning of one, stands, and no two name the same question. */
  predicate Standing(codec: Codec, b: Book, replies: seq<QuestionReply>, at: Time)
    requires IndexInRange(|b.calls|, b.index)
  {
    && (forall k :: 0 <= k < |replies| ==> ReplyStands(codec, b, replies[k], at))
    && forall j, k :: 0 <= j < k < |replies| ==> Key(b, replies[j]) != Key(b, replies[k])
  }

  /** A batch is taken whole. */
  predicate Admitted(codec: Codec, b: Book, replies: seq<QuestionReply>, at: Time)
    requires IndexInRange(|b.calls|, b.index)
  {
    replies != [] && Standing(codec, b, replies, at)
  }

  /** One answer written into its call. */
  function Credit(c: BookCall, r: QuestionReply, at: Time): BookCall
    requires r.item.Item? && 0 <= r.item.question < |c.questions|
  {
    var id := c.questions[r.item.question].id;
    var answers := Entries(c.answers)[id := Answer([r.answer], "")];
    var times := Entries(c.answerTimes)[id := at];
    var c' := c.(answers := Table(answers), answerTimes := Table(times));
    if |answers| == |c.questions| then c'.(state := Answered, resolvedAt := at) else c'
  }

  /** The reply points at a question of the book. An admitted batch holds no other. */
  predicate Names(b: Book, r: QuestionReply) {
    && IndexInRange(|b.calls|, b.index)
    && r.item.Item? && r.item.id in b.index && 0 <= r.item.question < |b.calls[b.index[r.item.id]].questions|
  }

  function CreditIn(b: Book, r: QuestionReply, at: Time): Book {
    if !Names(b, r) then b
    else
      var i := b.index[r.item.id];
      b.(calls := b.calls[i := Credit(b.calls[i], r, at)])
  }

  /** A whole batch, in order. */
  function CreditAll(b: Book, replies: seq<QuestionReply>, at: Time): (b': Book)
    ensures b'.index == b.index && |b'.calls| == |b.calls|
    ensures forall i :: 0 <= i < |b.calls| ==> b'.calls[i].questions == b.calls[i].questions
  {
    if replies == [] then b
    else CreditIn(CreditAll(b, replies[..|replies| - 1], at), replies[|replies| - 1], at)
  }

  function TaggedMessage(codec: Codec, b: Book, text: string, at: Time): Book
    requires IndexInRange(|b.calls|, b.index)
  {
    match ReplyBody(codec, text)
    case None => b
    case Some(body) =>
      var replies := codec.replies(body);
      if Admitted(codec, b, replies, at) then CreditAll(b, replies, at) else b
  }

  // ---- a step and a run ----------------------------------------------------------------------------

  predicate Asks(r: Record) {
    r.FunctionCall? && (r.name == ASK_TOOL || r.name == ASK_TOOL_ASYNC)
  }

  function Ask(b: Book, call: BookCall): Book
    requires IndexInRange(|b.calls|, b.index)
  {
    if call.callId in b.index then b.(calls := b.calls[b.index[call.callId] := call])
    else Book(b.calls + [call], b.index[call.callId := |b.calls|])
  }

  function Resolve<A, T>(c: Call<A, T>, state: State, parsed: A, at: Time): Call<A, T> {
    var c' := c.(state := state, resolvedAt := at);
    if state == Answered then c'.(answers := parsed) else c'
  }

  function Output(b: Book, r: Record): Book
    requires r.FunctionCallOutput? && IndexInRange(|b.calls|, b.index)
  {
    if r.callId !in b.index || OutputState(r.body) == Outstanding then b
    else
      var i := b.index[r.callId];
      b.(calls := b.calls[i := Resolve(b.calls[i], OutputState(r.body), r.parsed, r.at)])
  }

  predicate Tagged(text: string) {
    Contains(text, REPLY_OPEN) || Contains(text, REPLY_CLOSE)
  }

  function Step(codec: Codec, b: Book, r: Record): (b': Book)
    requires IndexInRange(|b.calls|, b.index)
    ensures IndexInRange(|b'.calls|, b'.index)
  {
    match r
    case Other => b
    case Message(role, parts, at) =>
      if role != "user" then b
      else (
        match OperatorMessage(parts)
        case None => b
        case Some(text) =>
          if Tagged(text) then TaggedMessage(codec, b, text, at) else PlainMessage(codec, b, text, at))
    case FunctionCall(_, _, _, _) => if Asks(r) then Ask(b, NewCall(r)) else b
    case FunctionCallOutput(_, _, _, _) => Output(b, r)
  }

  function StepLine(codec: Codec, b: Book, line: Bytes): (b': Book)
    requires IndexInRange(|b.calls|, b.index)
    ensures IndexInRange(|b'.calls|, b'.index)
  {
    if |line| <= MAX_LINE then Step(codec, b, codec.decode(line)) else b
  }

  function Run(codec: Codec, b: Book, lines: seq<Bytes>): (b': Book)
    requires IndexInRange(|b.calls|, b.index)
    ensures IndexInRange(|b'.calls|, b'.index)
  {
    if lines == [] then b else StepLine(codec, Run(codec, b, lines[..|lines| - 1]), lines[|lines| - 1])
  }

  /** One pass over a whole rollout, its unterminated record left out. */
  function ReadCalls(codec: Codec, f: Bytes): (b: Book)
    ensures IndexInRange(|b.calls|, b.index)
  {
    Run(codec, EMPTY_BOOK, CompleteLines(f))
  }

  lemma {:induction false} RunAppend(codec: Codec, b: Book, first: seq<Bytes>, more: seq<Bytes>)
    requires IndexInRange(|b.calls|, b.index)
    ensures Run(codec, b, first + more) == Run(codec, Run(codec, b, first), more)
  {
    if more == [] {
      assert first + more == first;
    } else {
      RunAppend(codec, b, first, more[..|more| - 1]);
      assert (first + more)[..|first + more| - 1] == first + more[..|more| - 1];
    }
  }
}
