# Session board: proofs about its readers, matcher, scanners and configuration

The repository runs a board of coding-agent sessions in tmux. Much of what it shows is inferred: from transcripts
that are still being written, from what a pane happens to display, from a process table, from a configuration
laid over defaults. This project models the code that does the inferring and proves what the rest of the board
relies on.

* **Growing files** (`Lines`, `Rollout`, `Delta`, `Tails`, `Asks`, `TaskBook`, `Background`, `Heads`). Several
  readers follow append-only JSONL files, each its own way: leaving an unfinished record unread, buffering it,
  handing out a byte cursor, looking at a bounded tail, or caching the opening. Each is proved to agree with one
  pass over the whole file, over every history of polls, cut anywhere.
* **The Codex question ledger** (`QuestionBook`, `QuestionBookFacts`, `StepFacts`, `Slices`, `Codexq`). A state machine
  over asks, outputs and operator messages, each step told by the fields of the record and of the calls. The imperative ledger, its calls written in place in a shared array and its answer
  maps aliased, is proved to compute a function on values; the invariants and the credited-once law are proved of
  that function over every rollout. The lists `CallsAt` copies out keep what they showed through every later poll;
  the array a tracker returns is proved to be written over by its next one.
* **Pane-to-conversation linking** (`LinkSpec`, `LinkFacts`, `LinkOutcome`, `Linking`). A greedy matching over ranked
  evidence: injective, stable, independent of the order of its inputs, and never passing over a pair ahead in evidence,
  recency, key and id unless it is taken.
* **Scanners and small compilers** (`Braces`, `Glob`, `GlobText`, `GlobFacts`, `GlobNames`, `Readings`, `Wrap`,
  `Answered`, `AnsweredFacts`, `Rows`). The brace matcher against a JSON grammar, the glob compiler against a
  meaning of globs, the joiner of wrapped rows against the wrapping rule, the row cutter against a grammar of
  control sequences.
* **Graph search and configuration** (`Shells`, `Underlay`, `Rules`). Shells counted over any parent table,
  cycles included; defaults laid under a file; rules of older releases upgraded.

Code that updates state in place is modelled by classes and loops proved against a function (`Codexq.Ledger`,
`Codexq.Tracker`, `Codexq.CallCache`, `Background.Background`, `Heads.Index`, the array upgrades of `Rules`);
pure code by functions and lemmas. Decoding one line of JSON, trimming, matching a regular expression of the
configuration, and reading a text for marks are parameters: every theorem holds whatever they answer, under the
few laws its `requires` names.

## Assumptions that recur

* A file is the byte sequence a poll finds; a poll is one atomic step, so the size that was asked for and the bytes
  that were read belong together. Locks are not modelled.
* `Tails`, `Delta`: an empty line decodes to nothing and trims to nothing.
* `Heads`: a proper prefix of a line says nothing, or trims to what the whole line trims to; a prefix of the one line
  a full window drops says nothing. A record with blanks before its newline is within this law unless the window ends
  inside those blanks: then the head goes back to what the records before it open with
  (`Heads.LostAtTheWindow`, exactly; `Heads.PromptLost`, a record it happens to).
* `LinkSpec`: `sort.Slice` gives some permutation sorted by the comparison; the determinism theorem asks for
  distinct pane keys and distinct (tool, id) conversations, the others for nothing.
* `Wrap`, `Answered`: every character is one cell wide.
* `Glob`: a pattern is its bytes, each read as the character of that number, as the compiler's loop reads it; a path
  is its characters, as a regular expression reads it. The theorems hold of every such pattern and path;
  `GlobNames.Utf8` takes a written pattern to its bytes, and within ASCII changes nothing.

## Where the code and its documentation differ

The model follows the code.

* `internal/convo/pendingtool.go:9-11` says the cursor always ends at a whole record. It does not when the window
  is all of one unfinished record: then it is the window's start (`Tails.TailCursor`, an if-and-only-if;
  `Tails.CursorInsideRecord`, such files). The same holds of the cursor of `internal/convo/delta.go:79-82`
  (`Delta.CursorBoundary`, `Delta.CursorInsideRecord`).
* `internal/agentsession/background.go:33-36` says a launch counts only on a line stamped with the transcript's own
  conversation. A line with no stamp counts too, and no other does (`TaskBook.LaunchesExactly`,
  `TaskBook.StampDecides` for each kind of launch); `TaskBook.UnstampedLaunchCounts` gives a line that every
  conversation counts.
* `internal/dialog/answered.go:189-191` bounds the readings by ten joins. Past ten the original text is among the
  readings exactly when all marked joins are of one kind (`Wrap.WrapReadsBack`); `Wrap.MixedJoinsAreLost` gives rows
  it is lost from.
* A launch under the id of a task that has already ended is never shown as pending
  (`TaskBook.EndedForGood`).
* Laying defaults is not associative (`Underlay.NotAssociative`). It is exactly when, wherever the middle layer holds a
  setting between two tables, the top table covers the bottom one (`Underlay.LaidAssociates`).
* A path without wildcards is said to name itself (`grant/live.go:276-278`). As a pattern it accepts itself exactly
  when all of it is within ASCII, since any other character is quoted byte by byte (`GlobNames.AcceptsItself`).
* Two stars in a path pattern stop at a newline (`GlobNames.EverythingBeneath`, `GlobNames.NewlineHides`), since `.`
  does.

## Model

| member | source | states |
|---|---|---|
| Lines.ReadBytes | internal/codexq/calls.go:94-98 | `bufio.Reader.ReadBytes`: the next newline-terminated record, or all that is left, with what it takes off the complete lines and their end |
| Lines.SplitMeaning | internal/convo/delta.go:150 | `bytes.Split` on newlines: no part holds one and the parts joined give the file |
| Lines.GrownBy | internal/codexq/codexq.go:188-206 | growing a file adds exactly the complete lines found from the old complete end on, wherever it was cut |
| Lines.RecordsFrom | internal/convo/delta.go:147-153 | reading from any byte of a file, all records but the first are records of the file, at its end |
| QuestionBookFacts.AsyncIdsDistinct | internal/codexq/calls.go:160-163 | the question ids an async ask is given are distinct |
| QuestionBookFacts.CountTest | internal/codexq/replies.go:78-80 | as long as answers are to the call's own questions, equal counts mean every question is answered |
| QuestionBookFacts.CreditAllMeaning | internal/codexq/replies.go:66-81 | what a batch leaves in one call: its answers and times joined to those held, the call answered exactly when the answered ids are all its ids, other calls untouched |
| QuestionBookFacts.EveryReplyGiven | internal/codexq/replies.go:66-77 | every reply of an admitted batch has its answer in the book afterwards |
| QuestionBookFacts.TaggedAllOrNone | internal/codexq/replies.go:13-82 | a tagged reply is taken whole or not at all; taken, each answer lands in an empty slot with a time after the ask, and nothing else changes |
| QuestionBookFacts.PlainCreditsAtMostOne | internal/codexq/calls.go:135-153 | a plain operator message becomes the reply of at most one call, which held none and was asked before it, leaves no synchronous call outstanding or expired, and touches no answer |
| QuestionBookFacts.StepKeepsOk | internal/codexq/calls.go:108-186 | every record keeps the invariant: index and positions a bijection with fixed ids, an outstanding async call's answers and times with the same keys, a strict subset of its question ids, each time after the ask |
| QuestionBookFacts.EveryRolloutOk | internal/codexq/calls.go:88-106 | the invariant holds of every rollout, whatever its records |
| QuestionBookFacts.CreditedOnce | internal/codexq/calls.go:123-185 | until a call id is asked again, its call keeps its position, questions, reply and answer times over any further records and never becomes outstanding again; every answer it holds stands as it is, until an output of that call answers it, and then its answers are those of its last such output |
| QuestionBookFacts.OutputChanges | internal/codexq/calls.go:171-185 | an output touches no other call, and of its own only the state, the time of settling and, when its answers table holds something, the answers |
| QuestionBook.RunAppend | internal/codexq/calls.go:94-98 | reading lines in two runs is reading them in one |
| StepFacts.OutputOutcome | internal/codexq/calls.go:171-185 | over a whole step, from the fields of the body: answers given settle the call as answered with them, an empty table as expired with its answers kept, an unreadable body or none leaves it |
| StepFacts.AskOutcome | internal/codexq/calls.go:154-170 | an ask is outstanding and unanswered, in place of the call of its id or at the end, its questions numbered when it is asynchronous; nothing else changes |
| StepFacts.MessageOutcome | internal/codexq/calls.go:123-135 | which messages count, and that one with either tag in it is never taken for a plain one |
| StepFacts.InputTexts | internal/codexq/calls.go:321-335 | the texts joined are those of all input parts, in order |
| StepFacts.JoinedOne | internal/codexq/calls.go:334 | with one newline between |
| StepFacts.PlainOutcome | internal/codexq/calls.go:135-153 | what a plain message makes of each call: an asynchronous one gives way only if it is decided and exactly one such call waits |
| StepFacts.TwoWaitingSurvive | internal/codexq/calls.go:135-146 | two waiting asynchronous calls both survive a plain message |
| StepFacts.UndecidedMeaning | internal/codexq/replies.go:84-102 | an answer is missing exactly when the first approval question offers no option the text is |
| StepFacts.ReplyBodyMeaning | internal/codexq/replies.go:14-22 | the body is what stands between the tags when the trimmed text is all of that |
| StepFacts.TaggedExactly | internal/codexq/replies.go:13-82 | a batch is taken exactly when it is not empty, each reply is to a question that waits and no two are to the same; taken, each answer lands, and otherwise nothing changes |
| StepFacts.NotAReply | internal/codexq/replies.go:14-28 | any other text with a tag in it changes nothing |
| Codexq.Ledger.RecordCall | internal/codexq/calls.go:108-186 | one record through the pointers and the shared index changes the ledger as the step on values does |
| Codexq.Ledger.Retired | internal/codexq/calls.go:135-153 | the loop over calls, each written where it stands in the array, is the plain-message step |
| Codexq.Ledger.Resolved | internal/codexq/replies.go:29-65 | phase one returns the updates of a batch exactly when the whole batch is admissible, and changes nothing |
| Codexq.Ledger.Store | internal/codexq/replies.go:66-81 | phase two credits the whole batch; no write reaches a nil map, and every map written is a new one |
| Codexq.Ledger.QuestionReplied | internal/codexq/replies.go:13-82 | both phases together are the tagged-message step |
| Codexq.Ledger.Asked | internal/codexq/calls.go:154-170 | an ask takes a new position, or resets the call of that id in place |
| Codexq.Ledger.Resolve | internal/codexq/calls.go:171-185 | an output settles the call it names, unless it says nothing about an answer |
| Codexq.AfterPlain | internal/codexq/calls.go:141-152 | one call's new state, reply and reply time under a plain message |
| Codexq.ApprovalUnanswered | internal/codexq/replies.go:84-102 | the first approval question decides: an answer is missing unless the text is one of its options |
| Codexq.HasInput | internal/codexq/calls.go:321-335 | the operator's words joined, or nothing when any part is a hook prompt or a relay |
| Codexq.AfterOutput | internal/codexq/calls.go:177-184 | the state, time and answers an output gives a call |
| Codexq.TaggedBody | internal/codexq/replies.go:14-22 | the text between the tags, when the trimmed message is exactly that |
| Codexq.Ledger.Consume | internal/codexq/codexq.go:188-207 | takes whole records only, leaves an unfinished one, and stands where a poll on values stands |
| Codexq.Tracker.Update | internal/codexq/codexq.go:139-186 | a poll moves the tracker as a poll on values moves it and returns the tracker's own array, one question for each call in ask order under the header and words of its first question; the array returned before is written over as far as it is long, and left alone when the poll starts afresh |
| Codexq.CallCache.CallsAt | internal/codexq/calls.go:348-383 | a cached read returns, in a new array, the calls a poll on values gives for that path; what it comes to write is new |
| Codexq.ReadWhileHeld | internal/codexq/calls.go:365-383 | every list the cache handed out before, of any path, shows after any later poll what it showed, and is still none the cache writes |
| Codexq.ReadAll | internal/codexq/calls.go:348-383 | over any run of polls of a file that grows or is replaced by a shorter one, every list handed out goes on showing what one pass over the file of its time gives |
| Codexq.UpdateWhileHeld | internal/codexq/codexq.go:164-186 | an array a tracker returned earlier shows the questions of the next poll, unless that poll starts afresh |
| Codexq.PollTwice | internal/codexq/codexq.go:139-186 | of two polls of a growing file, the first one's array ends up showing the questions of the second |
| Codexq.SharedResultChanges | internal/codexq/codexq.go:167-175 | two versions of a file for which those questions differ: a question shown outstanding becomes superseded |
| Slices.Slice.Append | internal/codexq/codexq.go:173 | `append`: into the array while it has room, else into a new one, the old one left as it is |
| Slices.Slice.Copy | internal/codexq/calls.go:366 | `append([]Call(nil), calls...)`: a new array with what is in use |
| Codexq.ActivitySince | internal/codexq/codexq.go:269-323 | the loop returns the activity and cursor of the lines after the offset |
| Rollout.AnyCutsSame | internal/codexq/codexq.go:144-207 | polls at any byte cuts of a growing file, or one replaced by a shorter one, end where one pass over the last version ends |
| Rollout.PollGrown | internal/codexq/calls.go:365-382 | one poll of a grown file from a fresh state gives the fresh state of the grown file |
| Rollout.PollShrunk | internal/codexq/calls.go:360-364 | a file shorter than what was taken of it is read afresh |
| Rollout.ReplacedByAsLong | internal/codexq/codexq.go:142-156 | a replacement no shorter than what was taken is the one thing a poll cannot see: the old part stays |
| Rollout.SignsMeaning | internal/codexq/codexq.go:269-323 | whether the operator spoke in some line, and every call answered, in order; a line over the cap says nothing |
| Rollout.SinceChainReadsOnce | internal/codexq/codexq.go:257-300 | a chain of reads over a growing rollout reports what one read reports: each answered call once, in order |
| Delta.ReadSince | internal/convo/delta.go:83-131 | the window arithmetic returns the records that begin in the window, its end, and whether it was rewound |
| Delta.ReadWindow | internal/convo/delta.go:99-130 | probing one byte before the window tells a whole first line from half of one |
| Delta.ParseDelta | internal/convo/delta.go:147-182 | the loop over a window's lines gathers prompts, turns and results in order |
| Delta.NeverHalfARecord | internal/convo/delta.go:99-126 | whatever the start, a window holds exactly the complete records that begin there or later |
| Delta.StartMeaning | internal/convo/delta.go:83-98 | a read covers as much as the cap allows from where it was asked to start, and is rewound exactly when it starts elsewhere |
| Delta.SaidMeaning | internal/convo/delta.go:147-182 | which prompts, turns and results a window reports: those of its lines, record by record |
| Delta.OneLineSays | internal/convo/delta.go:147-182 | what one line adds to which of the three |
| Delta.SaidInOrder | internal/convo/delta.go:147-182 | each of the three in the order of the lines |
| Delta.CursorBoundary | internal/convo/delta.go:79-117 | the cursor is a line boundary exactly when the window began on one or holds a newline |
| Delta.CursorInsideRecord | internal/convo/delta.go:79-117 | read from its start, a file longer than the cap that is one unfinished record gives a cursor inside it |
| Delta.ChainReadsOnce | internal/convo/delta.go:77-131 | from a line boundary, each gap within the cap, a chain of reads returns every complete record once, in order, every cursor a boundary, nothing rewound |
| Tails.PendingCalls | internal/convo/pendingtool.go:77-133 | the loop over the tail's lines computes the pending calls of its records |
| Tails.TakeEntry | internal/convo/pendingtool.go:102-127 | one record: a typed prompt clears, a result deletes, a tool use adds, in that order |
| Tails.PendingTool | internal/convo/pendingtool.go:9-27 | the id returned is the one pending call of that name, exactly when there is one |
| Tails.TailAgrees | internal/convo/pendingtool.go:77-79 | a bounded read answers exactly when it is the whole file or reaches a typed prompt, and then as the whole file does |
| Tails.TailCursor | internal/convo/pendingtool.go:9-11 | where the cursor is, and exactly when it ends a whole record |
| Tails.CursorInsideRecord | internal/convo/pendingtool.go:9-11 | a file longer than the window that is one unfinished record gives a cursor inside it |
| Tails.PendingMeansUnresolved | internal/convo/pendingtool.go:95-128 | a call is pending over a file exactly when some record made it and no later one answered it, asked again under its id, or was a typed prompt |
| Asks.PendingAskCall | internal/convo/ask.go:142-179 | the loop over the tail's lines computes its last standing ask |
| Asks.FindAsk | internal/convo/ask.go:325-346 | the last ask in one record's content |
| Asks.TailAgrees | internal/convo/ask.go:46-49 | a bounded read returns what the whole file returns if the window holds an ask, else nothing |
| Asks.PendingMeansUnanswered | internal/convo/ask.go:51-53 | what is pending over a file is its last ask, while no result for it follows |
| Asks.PendingIsLastAsk | internal/convo/ask.go:142-179 | a whole file waits on a call exactly when it has an id and questions, some record writes it, and no later one asks or holds a result for it |
| Asks.TailIsLastAsk | internal/convo/ask.go:46-49 | a window answers with that call exactly when it holds an ask |
| Asks.AskCallMeaning | internal/convo/ask.go:325-346 | the ask of a record is its last block that asks under an id |
| Asks.AnsweredAsks | internal/convo/ask.go:249-274 | the loop over the file's lines, the unterminated one included, collects its answered asks |
| Asks.CollectAsk | internal/convo/ask.go:276-313 | one line against the waiting calls and the list |
| Asks.SinceOnlyFilters | internal/convo/ask.go:306-308 | asking for a later time leaves out what was answered by then and changes nothing else |
| Asks.AnsweredOnce | internal/convo/ask.go:249-252 | every answered ask is a call the file holds, with its own questions, reported no more often than it was asked |
| Asks.AllLinesMeaning | internal/convo/ask.go:263-272 | what is read is the whole file, cut after each newline, the unterminated end included |
| Asks.AnsweredExactly | internal/convo/ask.go:249-313 | an ask is reported exactly when some line after the given time gives answers to a call that waits then, asked before and neither asked again nor answered in between |
| Asks.AnsweredInOrder | internal/convo/ask.go:249-252 | in the order of the lines that answer |
| TaskBook.AnyCutsSame | internal/agentsession/background.go:56-110 | however appends are cut into polls, mid-line or not, through failures to open and replacements by shorter files, a follower ends where one read of the last version ends |
| TaskBook.HalfALineWaits | internal/agentsession/background.go:97-100 | a half-written line counts for nothing |
| TaskBook.PendingMeans | internal/agentsession/background.go:83-87 | a task is pending exactly when some line launched it and none ended it, a monitor's task id counting only after the monitor's own call |
| TaskBook.OnlyGrows | internal/agentsession/background.go:41-46 | monitors, started and ended only grow |
| TaskBook.EndedForGood | internal/agentsession/background.go:56-90 | a task seen to end is never pending again in that file |
| TaskBook.ForeignResultsDoNotCount | internal/agentsession/background.go:214-216 | a result stamped with another conversation starts and stops nothing; notifications still end |
| TaskBook.LaunchesExactly | internal/agentsession/background.go:211-244 | a line launches a task exactly when it is a user record of one of the four kinds and bears this conversation's stamp or none |
| TaskBook.StampDecides | internal/agentsession/background.go:214-243 | of a background task, an agent, a monitor's task and a moved MCP call alike, the stamp alone decides |
| TaskBook.UnstampedLaunchCounts | internal/agentsession/background.go:33-36 | one unstamped line that every conversation shows as a pending task |
| TaskBook.EndsExactly | internal/agentsession/background.go:177-230 | a line ends a task exactly when it is a notification that names it, or this conversation's record, launching nothing, that it was stopped or killed |
| TaskBook.MonitorsExactly | internal/agentsession/background.go:195-203 | a Monitor call is an assistant's use of that tool on a line that carries its mark |
| Background.BackgroundFile.Read | internal/agentsession/background.go:92-110 | the loop with its partial-line buffer advances offset, buffer and sets as the follower on values does |
| Background.BackgroundFile.TakeEntry | internal/agentsession/background.go:169-244 | one line changes the three sets as the line on values does |
| Background.BackgroundFile.ResultOfMonitor | internal/agentsession/background.go:246-253 | some result block answers a known Monitor call |
| Background.Background.Pending | internal/agentsession/background.go:56-90 | returns the pending ids of that path's follower after the poll, forgets a path that cannot be opened, and leaves every other path alone |
| Background.Background.OwnName | internal/agentsession/background.go:72 | the last element of the path without `.jsonl` |
| Heads.ParseHeadLines | internal/convo/claude.go:332-379 | the loop with its waiting command computes the opening prompts |
| Heads.Index.ReadHead | internal/convo/claude.go:305-321 | serves a finished or unchanged head from the cache and reads any other |
| Heads.LookMeaning | internal/convo/claude.go:305-321 | a complete head, or one read at the file's size, is served as it is; any other is read again |
| Heads.HeadIsFirstPrompts | internal/convo/claude.go:332-347 | the head is the first three of all prompts: typed texts, and slash commands a meta record follows |
| Heads.HeadIsFinal | internal/convo/claude.go:305-307 | under the law of prefixes, a complete head equals the head of any later version; any other is a prefix of it |
| Heads.CacheAgrees | internal/convo/claude.go:305-321 | over every history of an append-only file the cache returns what a fresh read returns, each answer beginning with the one before |
| Heads.LostAtTheWindow | internal/convo/claude.go:332-336 | with no law assumed: when the window comes to end inside the record that was last, the head stays final exactly when that record added no prompt |
| Heads.PromptLost | internal/convo/claude.go:332-336 | a reader and two versions of a file for which it does not |
| Linking.Link | internal/convo/link.go:105-174 | the imperative pass is a linking of the board: all admissible pairs, sorted, taken greedily |
| Linking.SoloCounts | internal/convo/link.go:283-295 | the two counts by tool and directory |
| Linking.CollectEvidence | internal/convo/link.go:176-195 | the signals a pane and a conversation share, in order |
| Linking.RankOf | internal/convo/link.go:208-227 | the loop over signals adds up their scores |
| Linking.Admit | internal/convo/link.go:117-131 | a pair is offered on an identity, on place and words, or on place and being alone |
| Linking.AllPairings | internal/convo/link.go:114-134 | every admissible pair is listed once, and no other |
| Linking.SortPairs | internal/convo/link.go:139-150 | some permutation sorted by the comparison |
| Linking.TakeInOrder | internal/convo/link.go:152-166 | the used-sets take exactly the greedy pairs |
| Linking.PanesLeft | internal/convo/link.go:167-172 | the keys of panes without a match, in order |
| LinkOutcome.OfferExactly | internal/convo/link.go:114-134 | a pair is on offer exactly on an identity, on place and words, or on place when both are alone there, and its signals are exactly what the two share |
| LinkOutcome.EvidenceDecides | internal/convo/link.go:208-227 | the scores order evidence by the weightiest signal one side has alone: launched-with id, process, tmux, words, directory, being alone |
| LinkOutcome.StringLessMeaning | internal/convo/link.go:146-149 | keys and ids compare as in a dictionary |
| LinkOutcome.BeforeIsAhead | internal/convo/link.go:139-150 | pairs are sorted by more evidence, then later update, then smaller key, then smaller id |
| LinkOutcome.LeftOutForAhead | internal/convo/link.go:135-166 | a pair on offer and not taken makes way for a taken one it is not ahead of |
| LinkOutcome.AheadUnlessTaken | internal/convo/link.go:135-166 | a pane is not given a conversation while one ahead of it is free |
| LinkOutcome.AheadUnlessServed | internal/convo/link.go:135-166 | nor a conversation to a pane while one ahead of that is free |
| LinkOutcome.LaterUnlessTaken | internal/convo/link.go:143-145 | of two conversations with the same evidence the one updated later is taken, unless another pane has it |
| LinkOutcome.MoreUnlessTaken | internal/convo/link.go:139-142 | a conversation with all of another's evidence and more is not passed over for it |
| LinkOutcome.LonePaneTakesLater | internal/convo/link.go:139-166 | a lone pane with two conversations of the same evidence is matched to the one updated later |
| LinkOutcome.MatchesAreTaken | internal/convo/link.go:155-166 | the matches are the pairs taken, under the pane's key, with conversation and signals |
| LinkOutcome.UnmatchedInOrder | internal/convo/link.go:167-172 | unresolved panes come in pane order |
| LinkFacts.MatchingIsStable | internal/convo/convo.go:12-18 | with nothing assumed: no conversation or pane twice, every admissible pair left out clashes with a chosen one not sorted after it, and each pane is matched or unresolved |
| LinkFacts.StrictTotalOrder | internal/convo/link.go:135-150 | with distinct keys and conversations, of two admissible pairs exactly one sorts ahead |
| LinkFacts.StableUnique | internal/convo/link.go:135-138 | boards with the same offers have one stable matching |
| LinkFacts.LinkIgnoresOrder | internal/convo/link.go:135-138 | rearranging panes and conversations leaves the matches and the set of unresolved panes as they were |
| LinkFacts.IdentitiesOutrank | internal/convo/link.go:197-227 | an agent-id pair outranks every pair without one, a process pair every pair that is no identity |
| LinkFacts.SoloContestedByIdentity | internal/convo/link.go:124-131 | a solo pair is contested on its pane or conversation only by an agent-id or process pair |
| LinkFacts.GreedyBlocked | internal/convo/link.go:155-158 | a pair skipped was blocked by a taken one placed before it |
| LinkFacts.GreedyInjective | internal/convo/link.go:153-160 | two taken pairs that share a pane or a conversation are one |
| Braces.ExtractInfoObject | internal/agentsession/capture.go:343-380 | the loop over depth, string and escape state returns the first object after the first key |
| Braces.ScanObject | internal/agentsession/capture.go:353-379 | from an opening brace, the text up to the byte that closes it |
| Braces.IndexMeaning | internal/agentsession/capture.go:344 | the key found is the first |
| Braces.ObjectShutsAtItsEnd | internal/agentsession/capture.go:353-378 | over any JSON object of RFC 8259 sections 4 and 7, the scanner's depth first returns to zero on its last byte |
| Braces.ExtractsTheObject | internal/agentsession/capture.go:340-342 | after the first key and a gap without braces, exactly the object is returned, whatever follows |
| Braces.CutObjectGivesNothing | internal/agentsession/capture.go:340-342 | a document cut anywhere inside the object gives nothing |
| Braces.FoundIsBalanced | internal/agentsession/capture.go:372-376 | whatever is returned, its last byte is the first to close its first brace |
| Braces.ExtractMeaning | internal/agentsession/capture.go:343-351 | without the key, or without a brace after its first place, nothing; else the object read from the first brace there |
| Braces.FirstObjectMeaning | internal/agentsession/capture.go:352-379 | the text up to the byte that first closes it, and nothing when none does |
| Glob.GlobRegexp | grant/live.go:276-311 | the expression's text, and refusal exactly of patterns that climb |
| Glob.GlobBody | grant/live.go:288-303 | the index loop writes one piece for each piece of the pattern |
| GlobNames.ClimbsMeaning | grant/live.go:280-282 | a pattern is refused exactly when a component after a slash is two dots |
| GlobText.TextReadsBack | grant/live.go:300-310 | the text written parses back as the expression meant: no character of the pattern is taken for syntax |
| GlobFacts.GlobPreserved | grant/live.go:276-311 | for every pattern not refused, byte by byte, and every path, the expression accepts exactly what the glob, read on its own, accepts |
| GlobNames.WildcardFree | grant/live.go:276-278 | a pattern without wildcards accepts exactly the path its bytes spell and what lies beneath at a component boundary, on one line |
| GlobNames.WithWildcard | grant/live.go:283-308 | a pattern with a wildcard keeps its closing slash, which stands for everything beneath |
| GlobNames.EverythingBeneath | grant/live.go:293-295 | two stars after a directory accept exactly what is beneath it and holds no newline |
| GlobNames.NewlineHides | grant/live.go:293-295 | a file whose name holds a newline is not accepted by its directory's two stars |
| GlobNames.AcceptsItself | grant/live.go:276-303 | a path without wildcards, given as a pattern, accepts itself exactly when it is within ASCII |
| GlobNames.PathCovers | grant/live.go:276-278 | the glob on characters equals matching path names against pattern components |
| GlobNames.AcceptsByNames | grant/live.go:276-278 | two stars for any run of directories, one star and a question mark within one name, as the comment promises |
| Readings.ReadingsOf | internal/dialog/answered.go:189-207 | the loop lists the readings: both ways for each of up to ten marks, else the two uniform ones |
| Readings.ReadingsMeaning | internal/dialog/answered.go:189-191 | a text is listed exactly when the marks can be read so, past ten only when all are read alike |
| Readings.AnyReading | internal/dialog/answered.go:176-187 | some reading of one and some of the other, both normalised, are the same |
| Wrap.WhenMarked | internal/dialog/answered.go:23-30 | two rows are joined by a mark exactly when the first fills the pane and its last word and the next row's first would not fit the column |
| Wrap.TrimRightPadMeaning | internal/dialog/answered.go:40-47 | a row loses the pads at its end and nothing else |
| Wrap.LastFieldMeaning | internal/dialog/answered.go:51 | the last of `strings.Fields` |
| Wrap.FirstFieldMeaning | internal/dialog/answered.go:51 | the first of `strings.Fields` |
| Wrap.PiecesExceedColumn | internal/dialog/answered.go:23-30 | where the rule breaks a word, even one over many rows, the two pieces seen exceed the column |
| Wrap.WrapReadsBack | internal/dialog/answered.go:23-60 | for text wrapped by the rule, the original is among the readings of its joined rows exactly when at most ten joins are marked or all marked ones are of one kind |
| Wrap.MixedJoinsAreLost | internal/dialog/answered.go:189-196 | rows with eleven marked joins or more, one a break and the rest spaces: their text is not among their readings |
| Answered.ParseAnswered | internal/dialog/answered.go:62-122 | the loop over a pane's lines returns its blocks |
| Answered.TakeLine | internal/dialog/answered.go:95-119 | one line: header, end of a block, new entry, or more of one |
| Answered.ReadAnswer | internal/dialog/answered.go:77-84 | an entry is cut at the first separator of the list that occurs |
| Answered.WidthOf | internal/dialog/answered.go:35-43 | the widest row, trailing blanks aside |
| AnsweredFacts.EntryReadsBack | internal/dialog/answered.go:71-85 | however rows broke around the arrow, an entry is cut into texts its question and its answer are readings of |
| AnsweredFacts.DrawnBlockReadsBack | internal/dialog/answered.go:62-122 | a block drawn by the rule, whatever is above and below, is parsed as the block numbered by the headers above it, each question and answer a reading of what was parsed for it, in order |
| AnsweredFacts.BlocksCounted | internal/dialog/answered.go:62-122 | one block for each header line, and none on a pane without one |
| AnsweredFacts.SqueezeMeaning | internal/dialog/answered.go:72 | an entry is its words with one space between |
| Wrap.ContinuationMeaning | internal/dialog/answered.go:45-60 | a mark joins two rows exactly when the first fills the pane, both hold words, and the two words at the break do not fit the column |
| AnsweredFacts.CutMeaning | internal/dialog/answered.go:77-83 | a separator cuts at the first place it stands |
| AnsweredFacts.CutAtFirstMeaning | internal/dialog/answered.go:77-83 | the first separator of the list that stands in the entry decides; with none the entry is all question |
| AnsweredFacts.TrimSpaceMeaning | internal/dialog/answered.go:95-119 | trimming a line takes all white space off both ends and nothing else |
| AnsweredFacts.TrimMeaning | internal/dialog/answered.go:169 | trimming takes all spaces and marks off both ends and nothing else |
| AnsweredFacts.TenJoinsAreEnough | internal/dialog/answered.go:124-128 | with up to ten marked joins, question and answer are among the readings, and share one with the original once both are squeezed and lower-cased |
| Rows.MeasureCsi | extension/textfmt/width.go:118-133 | the index loops measure what the scan on values measures |
| Rows.CsiExact | extension/textfmt/width.go:109-117 | a length is found exactly when the bytes up to it are a control sequence of section 5.4 of ECMA-48 |
| Rows.IsAsciiRow | extension/textfmt/width.go:187-207 | accepts exactly the rows that have tokens |
| Rows.TokensExact | extension/textfmt/width.go:187-190 | those are the sequences of printable characters and control sequences, each row read one way |
| Rows.Width | extension/textfmt/width.go:13-68 | on such a row the width is the number of printable characters |
| Rows.TruncateWidth | extension/textfmt/width.go:135-185 | on such a row and tail the loop computes the cut row |
| Rows.CutRow | extension/textfmt/width.go:159-184 | the loop that cuts writes what folding the tokens writes |
| Rows.TruncatedRow | extension/textfmt/width.go:140-147 | an over-wide row comes out exactly as wide as asked, showing its leading cells and the tail, every control sequence kept in order; a tail that does not fit gives nothing |
| Rows.FittingRow | extension/textfmt/width.go:140-147 | a row no wider than asked is left as it is |
| Shells.ClaudeShellsUnder | internal/agentsession/shells.go:22-68 | on any table, cycles and duplicates included, terminates and counts exactly the marked processes other than pid reachable from it through unmarked ones |
| Shells.ChildrenOf | internal/agentsession/shells.go:30-48 | the children in row order, and the marked processes |
| Shells.KidsMeaning | internal/agentsession/shells.go:30-48 | a process is a child of the parent its row names |
| Shells.MarkedMeaning | internal/agentsession/shells.go:30-48 | the marked processes are those some row marks |
| Shells.RowsMeaning | internal/agentsession/shells.go:30-48 | the rows are the lines that read as one, in order |
| Shells.SearchedAll | internal/agentsession/shells.go:49-67 | when the queue is empty the nodes seen are exactly those reachable |
| Underlay.Underlay | internal/config/defaults.go:138-155 | the loops build the laid table, recursing where both layers hold a table |
| Underlay.EveryPath | internal/config/defaults.go:138-139 | at every path the file's setting stands if it decides anything there, else the default |
| Underlay.LaidTwice | internal/config/defaults.go:138-155 | laying the same defaults twice is laying them once |
| Underlay.LaidAssociates | internal/config/defaults.go:138-155 | laying three layers comes to the same either way exactly when, wherever the middle one holds a setting between two tables, the top one covers the bottom one |
| Underlay.CoversMeansUnchanged | internal/config/defaults.go:138-155 | defaults change nothing exactly under a layer that has a word for every key of theirs, down to where either holds a setting |
| Underlay.AgreeingLayersAssociate | internal/config/defaults.go:138-155 | so it is where the middle layer agrees with both others on what is a table |
| Underlay.NotAssociative | internal/config/defaults.go:145-152 | three layers for which the two orders differ |
| Rules.UpgradeBareEnterToConfirm | internal/config/config.go:1043-1059 | in place, each superseded rule becomes the first default that reads the legend, all others stay |
| Rules.UpgradeOneLineAskRules | internal/config/config.go:1061-1079 | in place, each superseded one-line rule becomes the first default that reads its line wrapped |
| Rules.UpgradeStatusRules | internal/config/config.go:993-1012 | in place, each superseded codex status rule becomes the first default of its state |
| Rules.AddRuleFor | internal/config/config.go:1118-1146 | the loops insert the first default that reads the sample, unless a rule reads it already |
| Rules.AddDialogRules | internal/config/config.go:1108-1116 | one insertion for each sample |
| Rules.MergeRules | internal/config/config.go:983-1013 | the upgrades and insertions each tool gets, in order |
| Rules.UpgradeMeaning | internal/config/config.go:993-1079 | a superseded rule becomes the first default that takes its place, and any other rule stays, for each of the three upgrades |
| Rules.RuleForMeaning | internal/config/config.go:1118-1146 | a sample nothing reads gets the first default waiting rule that reads it, behind the waiting rules that lead; else nothing changes |
| Rules.RulesStand | internal/config/config.go:983-1013 | which upgrades each tool's rules get, and where additions go |
| Rules.DialogRulesAreInserted | internal/config/config.go:1108-1110 | all given rules kept in order, additions in one place behind the leading waiting rules, each a default waiting rule for a sample none read |
| Rules.DialogRulesCover | internal/config/config.go:1108-1116 | every sample a default waiting rule reads is read afterwards |
| Rules.RulesMergedTwice | internal/config/config.go:983-1013 | when the defaults carry no superseded rule, merging rules twice is merging them once |
| Rules.ToolMergedTwice | internal/config/config.go:891-1015 | the same of the whole tool block |
| Rules.FieldsRead | internal/config/config.go:891-982 | a field that is not set reads as its zero value |
| Rules.FieldsMerged | internal/config/config.go:891-982 | field by field: what the author set stands but for a superseded text, what is not set is the default's, a flag is up when either is |
| Rules.AuthorsWordStands | internal/config/config.go:854-887 | what an author wrote and no release shipped stands, rules at their places; what is new is a default waiting rule |

## Left out

- JSON decoding, regular expressions of the configuration, time stamps with their floats, text containment and the
  tmux-hint text of panes: parameters or plain values of the model, not modelled themselves.
- Opening, seeking and reading files, with their errors: a file is None when it cannot be opened; an error in the
  middle of a read is not modelled.
- Mutexes, and the file growing between a stat and the read behind it.
- Background.Background.Pending: returns the ids as a set, because their alphabetical order is a sort of the
  standard library.
- Slices.Slice.Append: a full array is replaced by one of twice the length and one more; how much the runtime really
  leaves free is not modelled, and no theorem depends on it.
- Linking.SortPairs: an insertion sort stands for `sort.Slice`, because only that its result is a sorted permutation
  is used.
- Linking.CollectEvidence: whether a pane shows an excerpt is a parameter, because cutting excerpts at word edges
  is text containment.
- Glob.GlobRegexp: the text is parsed by a grammar written here for what the compiler can emit, not by all of Go's
  regular expression syntax.
- AnsweredFacts.TenJoinsAreEnough: small letters are a parameter that keeps spaces and marks and makes no other
  character a mark, because case tables are not part of this model.
- Wrap.WrapReadsBack: rows are drawn without trailing blanks and all their characters are one cell wide, because
  cell widths beyond ASCII live in tables of a library that is not part of this model.
- AnsweredFacts.DrawnBlockReadsBack: an entry's question and answer hold no arrow, its first row holds more than the
  bullet, and no continuation row looks like a bullet, a hook or a header, because the parser takes such rows for
  what they look like.
- Rows.Width: on rows that are not ASCII the parser table and the segmenter are parameters, so nothing is said of
  their result; the same of what Rows.TruncateWidth hands back to `ansi.Truncate`.
- Rules.ToolMergedTwice: fields are grouped by kind under their names, because merging treats all of a kind alike.
- Shells.ClaudeShellsUnder: splitting a printed line into fields is a parameter, and the scanner's limit on the length
  of a line is not modelled.
- SameQuestion, `solid` and `window` (internal/dialog/answered.go:130-167): comparisons of compacted text with only
  easy properties.
- The cache of pending asks keyed by a file's inode, size and time (internal/convo/ask.go:81-126): file identity.
- Symlinks and the search tools in grant/live.go:190-274.
- `scoring`, the terminal interface, the command line, accounts and the extension contracts.
