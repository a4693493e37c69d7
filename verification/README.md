# Switchyard gateway: a verified model

A Dafny model of the gateway that sits between chat clients and replicated model
endpoints. It covers the four places where the program keeps state or rewrites data
under conditions it does not control:

- the **incremental rewriter of event streams** (`EventStream`, `SseStream`, `SseRewriter`,
  `SseLimit`, `SseLines`, `SseReplay`, `SsePlain`, `JsonText`, `SampleCodec`): upstream bytes
  arrive in chunks of any size, events are cut out of a growing buffer, rewritten, and the
  stream ends in one terminal frame. The wire format is the event stream of sections 9.2.5
  and 9.2.6 of the HTML Living Standard;
- the **replica scheduler and its failover** (`Scheduler`, `Failover`): round-robin positions
  and cooldown deadlines shared by all requests in flight, and the two attempts of one request;
- **what may be changed in a conversation** (`History`, `Matching`, `Routing`, `Validation`): the
  boundary between old history and the live exchange, the merge of compressed rows, and the
  recovery of the client's own messages from a routed conversation;
- **ownership** (`Lifecycle`, `Rendering`, `SlotPool`): one terminal event and one close for
  every upstream response, one release for every compression slot.

`Json` and `Wrappers` hold the shared data types. `dafny verify dfyconfig.toml` checks everything.

## How it is modelled

- *Loops and objects* are methods and classes. Each is proved equal to a function of its inputs
  or of its old state; the properties are then lemmas about that function over all inputs or
  all runs. What such a function computes is also said in other terms, by key, by index or by
  case: these are the lemmas whose names end in `Exactly`.
- *Interleaving.* Whatever runs between two awaits is one step. A run of the replica table is
  any sequence of steps, by any number of requests. One request's `open` is given a script
  that says what the transport answers and which steps other requests take while it waits
  for a send or a close.
- *Time* is a real number. The clock is any monotone function from the number of readings so
  far to a time. The readings the program takes only to report latencies are dropped, which
  leaves a monotone sequence again. A parsed `Retry-After` is an optional number of seconds
  (section 10.2.3 of RFC 9110).
- *Bytes, text and JSON* are separate. UTF-8 and JSON are a codec of four functions and the
  class of values that loading can return. The laws the proofs use are spelled out in
  `SseRewriter.Lawful` (decoding inverts encoding, loading inverts dumping on those values,
  dumped text is one line), and `SampleCodec.SampleIsLawful` exhibits a codec that meets them.
  JSON equality is Python's: key order does not matter, and `True`, `1` and `1.0` are one
  number (`JsonValues.Canonical`).
- *Libraries* are arbitrary. The stage router is any function of the normalised conversation,
  provided it does not change the rows it is given in place. The compressor's answer is any
  value or a failure. The semaphore serves its waiters in any order, and the executor is a
  queue with one worker.
- *The body of a completion* is a value of `Rendering`, whose text is a sequence of code points.
  The response library is not part of this model; its JSON writer is taken to be compact,
  without non-finite numbers, without escapes for text beyond ASCII, and strict about UTF-8.
- Configuration validity is the precondition `Scheduler.ValidConfig`: endpoints are non-empty
  and uniquely named, and the cooldown is positive
  (`src/switchyard_gateway/adapters/config.py:51`, `:58-60`, `:110`).

## Where the code does not do what its comments suggest

Each of these has a theorem that says exactly when the code does what is expected, and a
witness that it does not always.

- The size limit is checked before an event is handled and again on the unfinished buffer.
  An event near the limit is therefore accepted or rejected depending on where a chunk ends.
  `SseStream.ChunkingTheorem` says for exactly which wires the cut does not matter;
  `SseLimit.LineAtTheLimit` is a wire for which it does.
- A response is discarded to try another replica, but other requests can cool every such
  replica while the response is being closed. `Failover.DiscardIsSafe` says when the second
  send happens, for any clock: exactly if some untried replica is past what its last failure
  asked for when its turn to be read comes. `Failover.DiscardCanBeLost` is a run in which it
  does not happen.
- A cooldown overwrites the old deadline, so an overlapping request can shorten a longer
  `Retry-After`. `Failover.CoolingsGrow` says when, for any clock: exactly if the last other
  failure during the send asked for a later moment. `Failover.OverlapCanShorten` is such a run.
- The outcome `completed` is set before the JSON response is rendered, and the JSON reader
  accepts values that the JSON writer refuses, so the event can say completed although the
  client got an error. `Lifecycle.CompletedMeansDelivered` says for which bodies;
  `Lifecycle.CompletedButErrored` is the body `{"choices":[NaN]}`.
- Line splitting recognises more separators than the wire format does, so the output of the
  rewriter is not always a fixed point. `SseReplay.ReplayTheorem` says when it is, as bytes
  and as frames; `SsePlain.PlainReplays` says that LF and CRLF are safe, and
  `SsePlain.TrailingBlankIsLost` that U+2028 is not.
- A role that is a list or an object is not refused with a 400 but ends in a type error.
  `Validation.CrashesExactly` says for which requests; `Validation.ListedRoleCrashes` is one.

## Model

| member | source | states |
|---|---|---|
| EventStream.MatchExactly | src/switchyard_gateway/adapters/ingress.py:20 | a delimiter is exactly LF LF, CR LF LF, LF CR LF or CR LF CR LF |
| EventStream.SearchIsLeftmost | src/switchyard_gateway/adapters/ingress.py:20 | the delimiter search returns the leftmost match of two line ends, and finds one whenever there is one |
| EventStream.SearchStable | src/switchyard_gateway/adapters/ingress.py:119-121 | the first delimiter of a buffer stays the first in every extension; a delimiter that appears only after more bytes ends inside them |
| EventStream.SearchInPrefix | src/switchyard_gateway/adapters/ingress.py:119-121 | a prefix that contains the whole first delimiter has the same first match, and a shorter prefix has no match |
| SseStream.Consume | src/switchyard_gateway/adapters/ingress.py:120-142 | the inner loop sends the frames, leaves the residue and records the usage and outcome of draining the whole buffer at once |
| SseStream.SseBody | src/switchyard_gateway/adapters/ingress.py:113-153 | the nested loops send the frames and record the outcome and usage of the chunk-by-chunk stream, which ChunkingTheorem relates to splitting the whole wire and mapping the rewrite |
| SseStream.DrainPrefix | src/switchyard_gateway/adapters/ingress.py:119-142 | draining any front part of a wire takes whole events off it and leaves the one-shot result of the rest, cut-safety included |
| SseStream.CutsDoNotMatter | src/switchyard_gateway/adapters/ingress.py:118-144 | from any delimiter-free residue within the limit, the chunked stream equals the one-shot result of residue plus remaining bytes |
| SseStream.EventByEvent | src/switchyard_gateway/adapters/ingress.py:118-153 | the one-shot result by index: each event of the wire is forwarded as its own frame until one is the end marker, over the limit or refused, or the wire is used up; which of these it was decides the last frame and the outcome, and the usage is that of the forwarded events |
| SseStream.LargeEventIsRefused | src/switchyard_gateway/adapters/ingress.py:122-123 | a first event over the limit interrupts the stream before anything is forwarded, however it arrives |
| SseStream.UnsafeCut | src/switchyard_gateway/adapters/ingress.py:122-144 | a wire that is not cut-safe has a cut into two chunks that changes the frames or the outcome |
| SseStream.ChunkingTheorem | src/switchyard_gateway/adapters/ingress.py:113-153 | for every wire and ending: all cuts give the one-shot result if and only if every processed event is over the limit or fits with all but one byte of its delimiter |
| SseStream.CompletedAgrees | src/switchyard_gateway/adapters/ingress.py:118-144 | a cut can only interrupt: a chunked stream that completes is the one-shot result of its whole wire |
| SseStream.CompletedEndsDone | src/switchyard_gateway/adapters/ingress.py:126-153 | however it is cut, a stream is completed if and only if its last frame is the done frame |
| SseLimit.LineAtTheLimit | src/switchyard_gateway/adapters/ingress.py:122-144 | a line of exactly the permitted size is forwarded when it arrives whole and interrupts the stream when a chunk ends inside its delimiter |
| SseStream.StreamEndsOnce | src/switchyard_gateway/adapters/ingress.py:145-153 | for every cut and ending the output is forwarded frames followed by exactly one terminal frame that matches the outcome, and it is cancelled only if the read was |
| SseStream.StreamReports | src/switchyard_gateway/adapters/ingress.py:137-142 | there is one usage report for each frame, and the last one that is not empty is the usage of the stream |
| SseStream.StreamReportsOwn | src/switchyard_gateway/adapters/ingress.py:137-142 | however the stream is cut, each frame's report is that of the event it was made of, and the frame that ends the stream reports nothing |
| SseStream.NotedLast | src/switchyard_gateway/adapters/ingress.py:137-139 | the usage on record is that of the last frame that reported any |
| SseRewriter.NoEventLooksTerminal | src/switchyard_gateway/adapters/ingress.py:124-142 | no forwarded frame equals the done frame or the interruption frame, and these two differ |
| SseRewriter.RewrittenStreamEndsOnce | src/switchyard_gateway/adapters/ingress.py:113-153 | both together for the gateway's own rewrite, whatever arrives and however it is cut |
| SampleCodec.SampleIsLawful | src/switchyard_gateway/adapters/ingress.py:124-142 | the laws assumed of UTF-8 and JSON can be met: by UTF-8 itself and by compact ASCII JSON for values without floats |
| JsonText.WriteInjective | src/switchyard_gateway/adapters/ingress.py:141 | no two values without floats are written as the same compact JSON text |
| SseRewriter.RewrittenExactly | src/switchyard_gateway/adapters/ingress.py:132-136 | exactly the objects without an error are rewritten; the model, if there is one, becomes the alias, every other key has the value it had, and the keys stay in place |
| SseRewriter.RewrittenValue | src/switchyard_gateway/adapters/ingress.py:132-136 | a rewritten value is one that can be loaded, names the alias where it named a model and is otherwise the same, and rewriting it again changes nothing |
| SseRewriter.HandledExactly | src/switchyard_gateway/adapters/ingress.py:124-142 | which events finish, abort and are forwarded, and what the forwarded ones become: the same lines when there is no payload, and otherwise the other lines and the renamed payload, with the usage of the payload |
| SseRewriter.RewriterExactly | src/switchyard_gateway/adapters/ingress.py:124-152 | events that are no text abort, the others are handled as above, and the two terminal frames are fixed |
| SseRewriter.UsageExactly | src/switchyard_gateway/adapters/ingress.py:28-38 | usage is reported by objects only: each of the three counters exactly where it is a non-negative integer |
| SseRewriter.SplitAtBreak | src/switchyard_gateway/adapters/ingress.py:124 | a line ends at the first of the ten separators, CR LF counting as one |
| SseRewriter.LinePart | src/switchyard_gateway/adapters/ingress.py:125-140 | a line that starts with data: counts as its payload, any other stays |
| SseRewriter.StripExactly | src/switchyard_gateway/adapters/ingress.py:125 | leading spaces are stripped from a payload, and nothing else |
| SseRewriter.ForwardedIsNot | src/switchyard_gateway/adapters/ingress.py:124-142 | the frame of a forwarded event differs from the frame of any one-line payload that would not have been forwarded |
| SseReplay.ReplayEvent | src/switchyard_gateway/adapters/ingress.py:124-142 | an event with tidy lines is forwarded as a frame that the rewriter forwards again unchanged, with the same usage |
| SseReplay.Resplit | src/switchyard_gateway/adapters/ingress.py:119-142 | read again, a frame falls apart at its blank lines into parts that are forwarded as they stand, with the same usage, and leaves at most one LF for the next frame; it stays in one piece if and only if its first delimiter is its end |
| SseReplay.Replay | src/switchyard_gateway/adapters/ingress.py:120-142 | the output of any completed stream, a LF possibly in front of it, completes again with the same usage; its bytes are those before the done frame, less the last LF of an odd run |
| SseReplay.ReplayTheorem | src/switchyard_gateway/adapters/ingress.py:113-153 | for both streams cut in any way: the bytes are the same if and only if the number of LF bytes before the done frame is even, one LF shorter if it is odd; the frames are the same if and only if every frame is one event |
| SsePlain.BodyIsDense | src/switchyard_gateway/adapters/ingress.py:120-124 | the text before the first delimiter has no line end followed by another or by its own end |
| SsePlain.PlainIsTidy | src/switchyard_gateway/adapters/ingress.py:120-124 | on wires whose only line separators are LF and CRLF, no event has a blank line after its first |
| SsePlain.TidyIsWhole | src/switchyard_gateway/adapters/ingress.py:124-142 | every frame of a completed stream of such events is one event |
| SsePlain.PlainReplays | src/switchyard_gateway/adapters/ingress.py:113-153 | hence on wires whose only line separators are LF and CRLF rewriting is idempotent: frames, outcome and usage, for both streams cut in any way |
| SsePlain.TrailingBlankIsLost | src/switchyard_gateway/adapters/ingress.py:124-142 | a line followed by two U+2028 is forwarded with a LF that the second pass loses |
| Scheduler.FirstAvailable | src/switchyard_gateway/application.py:98-109 | the loop's choice and number of clock readings are those of the scan from the stored position |
| Scheduler.Gateway.constructor | src/switchyard_gateway/application.py:71-87 | positions and cooldowns start empty |
| Scheduler.Gateway.SelectReplica | src/switchyard_gateway/application.py:98-109 | the new table and the choice are those of the selection, and the table stays valid |
| Scheduler.Gateway.CoolDown | src/switchyard_gateway/application.py:111-123 | the deadline is overwritten with now plus the longer of cooldown and Retry-After, and nothing else changes but the clock |
| Scheduler.Gateway.IsReady | src/switchyard_gateway/application.py:89-96 | true exactly when some configured replica is past its deadline at the one reading taken |
| Scheduler.SelectFinds | src/switchyard_gateway/application.py:98-109 | the choice is not excluded and not cooling when read, no replica eligible at the start is nearer to the stored position, and it fails only if none was eligible |
| Scheduler.ScanExactly | src/switchyard_gateway/application.py:100-108 | for any clock a scan succeeds if and only if some candidate is past its deadline at the reading made when its turn comes |
| Scheduler.NoStarvation | src/switchyard_gateway/application.py:98-109 | in any interleaving, an endpoint that stays eligible is chosen after at most as many other choices as its cyclic distance |
| Scheduler.EveryRound | src/switchyard_gateway/application.py:98-109 | hence it is among any n successful selections for its n-endpoint model |
| Scheduler.RoundRobin | src/switchyard_gateway/application.py:98-109 | with every endpoint eligible, selections follow the ring one by one from the stored position, whatever else runs |
| Scheduler.Fairness | src/switchyard_gateway/application.py:98-109 | of m selections each of the n endpoints gets at least floor(m/n) and at most ceil(m/n) |
| Scheduler.VisitCount | src/switchyard_gateway/application.py:101-107 | the exact number of visits of an index in m steps round the ring, from its distance to the start |
| Scheduler.ReadyMeansSelectable | src/switchyard_gateway/application.py:89-109 | with the clock standing still, ready is true if and only if a selection with nothing excluded succeeds for some model, in every table |
| Scheduler.ReadyLasts | src/switchyard_gateway/application.py:89-109 | once ready, any run without a recorded failure leaves some model selectable |
| Scheduler.DeadlineKept | src/switchyard_gateway/application.py:98-123 | over any run only a failure of that endpoint changes its deadline |
| Scheduler.LastFailureCounts | src/switchyard_gateway/application.py:111-123 | over any run and for any clock an endpoint's deadline is the old one, or the moment of its last recorded failure plus what that failure asked for |
| Scheduler.CoolExactly | src/switchyard_gateway/application.py:111-123 | a failure sets its endpoint's deadline to now plus the configured cooldown, or plus a Retry-After that is longer, and changes no other deadline and no position |
| Scheduler.LastFailureExactly | src/switchyard_gateway/application.py:111-123 | the last failure of a run, by index: nobody fails on that endpoint after it, it counts from its own reading of the clock, and asks for the longer of cooldown and its Retry-After |
| Failover.Open | src/switchyard_gateway/application.py:195-249 | table, trace and result are those of the attempts, with any steps of other requests at every await |
| Failover.Try | src/switchyard_gateway/application.py:196-248 | one pass of the loop: select, send, react |
| Failover.Receive | src/switchyard_gateway/application.py:208-248 | cool on a refused connection or a retryable status, fail or keep or discard |
| Failover.DiscardOrKeep | src/switchyard_gateway/application.py:237-248 | a retryable response of the first attempt is closed exactly when the availability check finds another replica |
| Failover.AnyAlternate | src/switchyard_gateway/application.py:239-243 | the availability check reads the clock once per replica that is not excluded, up to the first hit |
| Failover.TurnExactly | src/switchyard_gateway/application.py:196-248 | every attempt, by its reply: a fault ends it, a refused connection cools the replica and ends only the last attempt, a status other than 429, 502, 503 and 504 opens the request, and one of these cools the replica and opens it too, unless the first attempt has an alternate, closes the response and goes on |
| Failover.AlternateExactly | src/switchyard_gateway/application.py:239-243 | the availability check succeeds if and only if some untried replica is past its deadline at the reading made for it |
| Failover.FirstTurnGoesOn | src/switchyard_gateway/application.py:218-246 | a request goes on to another replica if and only if the first connection was refused, or the first replica was overloaded, an alternate was available and the close did not fail |
| Failover.ResultExactly | src/switchyard_gateway/application.py:193-249 | the result of the whole request, from its script: the first attempt's fault or status unless it goes on, then the second's, or no replica |
| Failover.BoundedSends | src/switchyard_gateway/application.py:193-249 | at most two sends, to distinct endpoints of one model, none excluded or cooling when selected; the raise after the loop is unreachable |
| Failover.ResponsesBalanced | src/switchyard_gateway/application.py:208-249 | every response handed over is closed exactly once before the request moves on, except the one it is opened with, which is not closed here |
| Failover.CoolingsGrow | src/switchyard_gateway/application.py:111-123 | every deadline written is now plus the configured cooldown, or plus a Retry-After that is longer; for any clock it is earlier than the one it replaces if and only if the last other failure on that endpoint during the send asked for a later moment, and later if and only if that failure asked for an earlier one or there was none |
| Failover.DiscardLeadsOn | src/switchyard_gateway/application.py:237-246 | after a discard the next selection succeeds if one replica that could be had at the check is left untouched during the close, for any clock |
| Failover.DiscardExactly | src/switchyard_gateway/application.py:237-246 | for any clock it succeeds if and only if some untried replica is past its old deadline, or past what its last failure during the close asked for, when its turn to be read comes; while the clock stands still, if and only if one is left untouched |
| Failover.DiscardIsSafe | src/switchyard_gateway/application.py:193-249 | a request that discarded a response makes its second send if and only if that is so, for any clock, and otherwise ends with no replica; one untouched alternate is enough, and while the clock stands still necessary |
| Failover.SendsAgainExactly | src/switchyard_gateway/application.py:193-249 | after a first attempt that goes on, there is a second send if and only if the next selection succeeds; if not, the request fails with no available replica |
| Failover.DiscardCanBeLost | src/switchyard_gateway/application.py:238-246 | a run in which the alternate cools during the close and the request ends with no replica |
| Failover.OverlapCanShorten | src/switchyard_gateway/application.py:123 | a run in which a deadline is replaced by an earlier one |
| Failover.SerialDeadlinesRise | src/switchyard_gateway/application.py:98-123 | over any run of requests that do not overlap, the successive deadlines of each endpoint strictly increase |
| Lifecycle.Finish | src/switchyard_gateway/application.py:260-282 | the first call closes and emits once, a failed close never leaves completed, only cancellation escapes, and later calls add nothing |
| Lifecycle.OpenExchange | src/switchyard_gateway/application.py:125-139 | a failure at any point before the exchange exists emits its one event, and success emits none |
| Lifecycle.ServeStream | src/switchyard_gateway/adapters/ingress.py:168-179 | the stream's owner finishes the exchange with what the stream recorded, or with cancelled or interrupted; what escapes is a cancelled close, or else what serving raised |
| Lifecycle.Handle | src/switchyard_gateway/adapters/ingress.py:256-300 | what the protected part of the handler leaves behind: an exchange that is handed off or answered, or the failure that came instead of one |
| Lifecycle.Chat | src/switchyard_gateway/adapters/ingress.py:249-335 | effects and reply are those of the conversation, over every failure or cancellation at any await |
| Lifecycle.Conclude | src/switchyard_gateway/adapters/ingress.py:301-335 | what follows the protected part: a refusal without an exchange, the stream's owner, or the handlers and the final clause |
| Lifecycle.Refuse | src/switchyard_gateway/adapters/ingress.py:301-331 | without an exchange the handlers answer, and emit the event unless opening has done so |
| Lifecycle.Settle | src/switchyard_gateway/adapters/ingress.py:301-335 | the handlers and the final clause finish an exchange that was not handed off |
| Lifecycle.OneTerminalEvent | src/switchyard_gateway/adapters/ingress.py:249-335 | exactly one terminal event unless cancelled before opening, when there is none; none with a failed close says completed |
| Lifecycle.EffectsExactly | src/switchyard_gateway/application.py:195-282 | what a conversation does, in order: the attempts' own effects, then the close of the response if one was opened, then the terminal event |
| Lifecycle.RepliesExactly | src/switchyard_gateway/adapters/ingress.py:249-335 | for every conversation, when the client gets a stream, the completion under the name it asked for, no answer, or an error, and with which status |
| Lifecycle.RecordsExactly | src/switchyard_gateway/adapters/ingress.py:249-335 | for every conversation, the outcome, status, usage and close failure on the terminal event; it says completed if and only if the stream was read to its done frame, or the body was a completion, and the close did not fail |
| Lifecycle.CompletedMeansDelivered | src/switchyard_gateway/adapters/ingress.py:290-335 | without streaming, a completed event carries the usage the body reports, and the client got that completion if and only if it holds no number that is not finite and no half of a surrogate pair, and an error 500 if it does; a delivered one closed cleanly is recorded completed |
| Lifecycle.CompletedButErrored | src/switchyard_gateway/adapters/ingress.py:289-300 | the upstream body with a NaN among its choices is recorded completed and answered with 500 |
| Lifecycle.StreamedMeansDone | src/switchyard_gateway/adapters/ingress.py:126-179 | with streaming through the gateway's own rewriter, the event says completed if and only if the stream was read to its end, its last frame is the done frame and the close did not fail; it carries the usage of the frames that were taken, all of the stream's if it was read to its end |
| Rendering.RendersExactly | src/switchyard_gateway/adapters/ingress.py:295-300 | compact JSON without non-finite numbers, encoded strictly, can be produced exactly for the values that hold neither such numbers nor halves of surrogate pairs, at any depth, keys included |
| Rendering.RenamedExactly | src/switchyard_gateway/adapters/ingress.py:295 | what the upstream called the model does not matter for that, because it is overwritten |
| Rendering.RenamedKeys | src/switchyard_gateway/adapters/ingress.py:295 | the completion that is delivered has the alias for its model and every other key as the upstream sent it |
| Rendering.UsageExactly | src/switchyard_gateway/adapters/ingress.py:28-38 | the usage of a completion: each of the three counters exactly where it is a non-negative integer |
| Lifecycle.OwnerCloses | src/switchyard_gateway/application.py:260-282 | after opening, the one response that was opened is closed once and no other |
| Lifecycle.ClosedExactlyOnce | src/switchyard_gateway/application.py:195-282 | over every conversation each response handed over is closed exactly once, by failover or by its owner |
| History.FindBoundary | src/switchyard_gateway/application.py:29-44 | the fixpoint loop ends at the largest closed boundary, found otherwise by searching downwards |
| History.StartExactly | src/switchyard_gateway/application.py:29-33 | a boundary is not above the last user and the last assistant row if and only if it is the front or has a user row and an assistant row at or behind it |
| History.AnswersExactly | src/switchyard_gateway/application.py:36-41 | a row counts as a caller of another if and only if one of its calls has the identifier the other answers, missing and null being the same |
| History.CachedExactly | src/switchyard_gateway/application.py:46-49 | a row is cache-marked if and only if some object inside it, at any depth, has the key cache_control |
| History.EligibleIndices | src/switchyard_gateway/application.py:27-55 | the indices are those before that boundary that are neither instructions nor cache-marked |
| History.JumpIsSafe | src/switchyard_gateway/application.py:36-44 | jumping to the earliest caller passes over no closed boundary |
| History.BoundaryIsOptimal | src/switchyard_gateway/application.py:27-44 | the boundary has the last user and the last assistant row at or behind it, or is the front; no row before it calls what is answered at or behind it; and it is the largest of which both hold |
| History.EligibleExactly | src/switchyard_gateway/application.py:51-55 | eligible are, in order, exactly the rows before the boundary that are neither system nor developer rows nor cache-marked |
| History.MergeCompressed | src/switchyard_gateway/application.py:173-190 | the rows and the recorded outcome after the merge in place, for every answer of the compressor |
| History.SameRowExactly | src/switchyard_gateway/application.py:58-65 | the comparison of two rows without their content holds if and only if both are objects and every other key is missing from both or has equal values in both |
| History.CompressionIsConfined | src/switchyard_gateway/application.py:168-190 | the length stays and rows that are not eligible stay; if compression is on, reports success and returns one row for each, changed in its content only, every eligible row becomes its own compressed row, and otherwise nothing changes |
| History.RecordedExactly | src/switchyard_gateway/application.py:175-190 | what the compressor reports is recorded if its outcome is known and the structure is intact, and failed_unknown otherwise |
| History.ProtectedRowsUnchanged | src/switchyard_gateway/application.py:46-55 | system and developer rows, cache-marked rows, rows with no user row or no assistant row behind them and every call answered in the live suffix go out unchanged |
| Validation.AcceptsExactly | src/switchyard_gateway/adapters/ingress.py:45-102 | a request is accepted if and only if model, stream and the message list are in order and every message is valid |
| Validation.CrashesExactly | src/switchyard_gateway/adapters/ingress.py:53-61 | it ends in a type error instead of a refusal if and only if the first message that is not valid has a list or an object for its role |
| Validation.ListedRoleCrashes | src/switchyard_gateway/adapters/ingress.py:54-61 | the request with one message whose role is a list is such a request |
| Validation.MessageExactly | src/switchyard_gateway/adapters/ingress.py:53-101 | a message passes exactly if role, content, calls and call identifier are as declared, and crashes exactly if its role cannot be hashed |
| Validation.CallExactly | src/switchyard_gateway/adapters/ingress.py:82-97 | a valid call is a function call with an identifier, a name and arguments that are the text of an object |
| Validation.ContentExactly | src/switchyard_gateway/adapters/ingress.py:62-76 | valid content is absent, null, text or a list of text blocks |
| Validation.RefusalExactly | src/switchyard_gateway/adapters/ingress.py:53-101 | the code a message is refused with, in the order of the checks |
| Validation.FrameRefusalExactly | src/switchyard_gateway/adapters/ingress.py:46-52 | the code a request is refused with before its messages are looked at |
| Validation.FirstRefusal | src/switchyard_gateway/adapters/ingress.py:53-101 | the first message that is not accepted decides the error |
| Validation.ValidateAll | src/switchyard_gateway/adapters/ingress.py:53-101 | a list of messages is accepted exactly when each of them is |
| Routing.Normalize | src/switchyard_gateway/adapters/switchyard.py:27-52 | the loop over tool calls yields the text blocks, then every call in order, or the first failure |
| Routing.NormalExactly | src/switchyard_gateway/adapters/switchyard.py:27-52 | which messages normalise, to what, and with which error the others fail: the role, the text blocks, for an assistant one block for each call in order, and for a tool all of it wrapped in one result |
| Routing.CallExactly | src/switchyard_gateway/adapters/switchyard.py:31-42 | a call becomes a block with its identifier, its name and its loaded arguments if and only if it has them and they are an object |
| Routing.ContentExactly | src/switchyard_gateway/adapters/switchyard.py:12-24 | nothing, a text or a list of text blocks becomes text blocks with the same texts, and anything else is refused |
| Routing.ValidMessagesNormalize | src/switchyard_gateway/adapters/switchyard.py:12-52 | every message of an accepted request normalises without error |
| Routing.RestoredExactly | src/switchyard_gateway/adapters/switchyard.py:55-60 | restoring succeeds exactly for rows with a role whose content is text blocks only, gives that role and their joined texts, and otherwise fails as unsupported or as malformed |
| Routing.JoinTextsApart | src/switchyard_gateway/adapters/switchyard.py:60 | the texts are joined in order with one LF between each two |
| Routing.MatchRows | src/switchyard_gateway/adapters/switchyard.py:113-123 | the greedy loop places the k-th original of each kind at the k-th captured row of that kind, restores the other rows, and leaves exactly what was not used |
| Routing.Rebuild | src/switchyard_gateway/adapters/switchyard.py:110-126 | the whole recovery, with the error of the first step that fails |
| Routing.Route | src/switchyard_gateway/adapters/switchyard.py:88-131 | the routed request or the error, for every behaviour of the stage router |
| Routing.SuccessExactly | src/switchyard_gateway/adapters/switchyard.py:110-127 | recovery succeeds if and only if the captured rows contain the normalised messages as a multiset and every surplus row and instruction is text-only |
| JsonValues.EqualExactly | src/switchyard_gateway/adapters/switchyard.py:117 | rows are compared as Python compares them: numbers of all kinds by value, lists item by item, objects by key in any order |
| Routing.RoutesExactly | src/switchyard_gateway/adapters/switchyard.py:88-131 | an accepted request is routed if and only if the stage router sent exactly one request, to one tier, and that request accounts for every normalised message, with only text left over; the tier is the one it was sent to, and no key but the messages changes |
| Routing.RouteErrors | src/switchyard_gateway/adapters/switchyard.py:90-107 | the error of the first message that does not normalise, or else for a router that raised or did not send exactly one request |
| Routing.LeftoverRefused | src/switchyard_gateway/adapters/switchyard.py:124-125 | an original without a row is refused as an unsupported rewrite |
| Routing.OriginalsConserved | src/switchyard_gateway/adapters/switchyard.py:113-126 | on success every original stands verbatim at exactly one captured position, whose row equals its normalisation |
| Routing.RowsAccountedFor | src/switchyard_gateway/adapters/switchyard.py:115-123 | every captured position holds either the one original that belongs there or its own restored text |
| Routing.InstructionsLead | src/switchyard_gateway/adapters/switchyard.py:110-112 | the restored instructions come first, in order |
| Routing.EqualOriginalsKeepOrder | src/switchyard_gateway/adapters/switchyard.py:113-123 | originals with equal normal form keep their relative order |
| Routing.PassThrough | src/switchyard_gateway/adapters/switchyard.py:88-127 | a router that passes the conversation on to the target of one tier gives that tier and the accepted request unchanged |
| Matching.TakeNext | src/switchyard_gateway/adapters/switchyard.py:115-123 | popping the first remaining match takes the occurrence whose turn it is, and finds none exactly when all are taken |
| Matching.NothingLeft | src/switchyard_gateway/adapters/switchyard.py:124-125 | nothing remains if and only if the keys are contained in what was taken |
| Matching.SourceAndTarget | src/switchyard_gateway/adapters/switchyard.py:115-123 | each item has one position under its own key, and that position has that item |
| Matching.TargetAndSource | src/switchyard_gateway/adapters/switchyard.py:115-123 | and conversely, so the matching is a bijection |
| SlotPool.HeadroomCompressor.constructor | src/switchyard_gateway/adapters/headroom.py:15-19 | all slots free, no work |
| SlotPool.HeadroomCompressor.Arrive | src/switchyard_gateway/adapters/headroom.py:50-52 | a new call waits for a slot |
| SlotPool.HeadroomCompressor.Submit | src/switchyard_gateway/adapters/headroom.py:52-62 | a call that was granted a slot queues its job, or gives the slot back when cancelled or when submitting fails, and raises exactly then |
| SlotPool.HeadroomCompressor.Cancel | src/switchyard_gateway/adapters/headroom.py:60-62 | cancelling a caller touches neither its job nor any slot |
| SlotPool.HeadroomCompressor.GiveBack | src/switchyard_gateway/adapters/headroom.py:61 | the done callback frees one slot |
| SlotPool.HeadroomCompressor.Close | src/switchyard_gateway/adapters/headroom.py:64-66 | shutdown drops the queued jobs one by one while callers, callbacks and the worker go on as they like in between; in the end nothing is queued |
| SlotPool.DrainedIsRun | src/switchyard_gateway/adapters/headroom.py:64-66 | such a shutdown is a run of single steps, so what holds of every run holds of it |
| SlotPool.StaysShut | src/switchyard_gateway/adapters/headroom.py:64-66 | after it nothing is ever queued again |
| SlotPool.SlotsConserved | src/switchyard_gateway/adapters/headroom.py:50-66 | in every reachable state free slots plus acquired but unsubmitted plus unfinished submissions is the number of workers |
| SlotPool.WorkIsBounded | src/switchyard_gateway/adapters/headroom.py:15-19 | running plus queued submissions never exceed the slots that are not free, and at most one job runs |
| SlotPool.ReleasedOnce | src/switchyard_gateway/adapters/headroom.py:52-61 | over every run a call takes at most one slot and returns it at most once, exactly once when it is done with it |
| SlotPool.SlotOutlivesCaller | src/switchyard_gateway/adapters/headroom.py:60-62 | over every run, cancellations included, a submitted job keeps its slot until it has run or is dropped unstarted by shutdown |
| SlotPool.ComesToRest | src/switchyard_gateway/adapters/headroom.py:50-66 | left alone, the pool takes a bounded number of steps |
| SlotPool.RestIsClean | src/switchyard_gateway/adapters/headroom.py:50-66 | and when no step is left every slot is free and no caller is waiting for an answer |
| SlotPool.RestTellsAll | src/switchyard_gateway/adapters/headroom.py:52-62 | at rest every caller that was not cancelled is answered if and only if its job ran, aborted if and only if shutdown dropped it, and failed if and only if it could not be submitted |
| SlotPool.RunsOnce | src/switchyard_gateway/adapters/headroom.py:18-19 | over every run a job counts as run if and only if the worker finished it, once at most |
| SlotPool.UndisturbedIsAnswered | src/switchyard_gateway/adapters/headroom.py:50-62 | a call that nobody cancels, whose messages can be copied, is answered with the result of its own job once the pool is at rest, unless the executor is shut down |
| SlotPool.NoOvertaking | src/switchyard_gateway/adapters/headroom.py:18 | jobs leave the queue from its front and join it at its end |
| SlotPool.FrontIsTaken | src/switchyard_gateway/adapters/headroom.py:18 | the job the worker takes, or shutdown drops, is the one at the front |

## Left out

- Network input and output, the HTTP server, authorization, headers, model discovery and the bodies of the health routes.
- The stage router's algorithm and Headroom's compression: both are arbitrary here.
- Loading and checking configuration, `build_app`, the lifespan and `main`.
- `JsonEvents` and the log silencer. The `retry` and `replica_failure` events are not part of the trace; the terminal `request` event is.
- Latency fields and the clock readings taken for them.
- HTTP dates in `Retry-After`: the parsed seconds are an input.
- In requests and in streamed events: NaN, infinities and negative zero among JSON numbers, lone surrogates in strings. In the body of a completion they are modelled (`Rendering`), but for negative zero, which is written like any other number.
- The error a tool call identifier that is a list or an object would raise in a set.
- JSON nested deeper than the interpreter's recursion limit.
- In `History`, rows that are no objects and tool calls that are no list of objects: validation rejects them before compression.
- Merging of model defaults into the request, and the choice of alias, pair and model before the attempts.
- The mapping of a compression result's token counts to an outcome (`headroom.py:36-48`).
- The order in which the semaphore serves its waiters; every order is covered.
- SseReplay.ReplayTheorem: the frames of the first pass fit the size limit with one byte to spare, or with none when every frame is one event; larger output can run into the limit on the second pass. `SseReplay.Replay` needs less, because it reads the output as one wire.
- SseRewriter.NoEventLooksTerminal: assumes the codec laws of `SseRewriter.Lawful`; that the program's own UTF-8 and JSON libraries meet them is not proved. Floating-point numbers in events are exact ratios.
- Lifecycle.Chat: emitting an event does not raise, and a returned streaming response is invoked by the server.
