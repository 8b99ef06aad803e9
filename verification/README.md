# Verification of xeus-zmq

This project models the four protocol cores of xeus-zmq in Dafny and proves what they guarantee.

* **The debug client** (`src/debugger/xdap_tcp_client_impl.cpp`). `FrameReader` says what the reader of
  `Content-Length` frames does with any TCP stream in any chunks; `Framing` and `TcpStream` what that means for a
  stream of frames (section "Base Protocol" of the Debug Adapter Protocol overview), and prove the imperative reader.
  `Selection` treats the wait that picks one message out of a queue fed in batches. `DapProtocol`, `DapTheorems` and
  `DapLoop` give the client's actions as functions of what its sockets deliver, with the queue drained while it is
  being changed. The class in `DapClient` is the imperative client, from the chunks up to the event loop, proved
  against these functions. `DapRuns`, `DapLedger`, `DapRequests` and `EventNotices` speak about whole runs.
* **The debugger front end** (`src/debugger/xdebugger_base.cpp`, `src/debugger/xdebugger_middleware.cpp`).
  `Debugger` is the imperative request and event dispatch, `DebuggerHistory` says what its fields mean in terms of
  all that has happened, `Variables` is the paging of variable lists.
* **The debugger front end together with the client and the adapter.** `DebugSystem` composes them into one system with
  every interleaving of their steps and every way of batching the stream. `DebugSystemSafety` and `DebugSystemTheorems`
  prove what holds in every run, `DebugSystemTermination` that every run ends, `DebugSystemProgress` and
  `DebugSystemStandstill` when one ends with the front end still waiting, `DebugSystemHangs` that it can.
  `DebugSystemRefinement`, `DebugSystemRounds` and `DebugSystemAgreement` show that a round of the client's event loop
  is a run of this system, and `ClientDiscipline` carries the main result over to the client.
* **The split server** (control, shell, publisher and heartbeat threads). `SplitServer` and `SplitServerTheorems`
  treat the internal calls and the stop protocol, again with every interleaving. `ServerLoops` has the loops of the
  shell and heartbeat threads as they are programmed, `Publisher` the publisher thread with the contents of its
  messages, `HeartbeatClient` the client side of the heartbeat.
* **The wire format and the registration handshake.** `Wire` is the serializer of Jupyter messages (section "The
  Wire Protocol" of the Jupyter messaging specification), `Handshake` both sides of the registration, joined
  through a ROUTER socket.

`Basics` and `JsonText` hold shared vocabulary. Sockets are FIFO sequences. A thread that blocks for ever shows up
as an outcome (`Blocked`, `Starved`, `Stuck`, `Halted`) or as a state without an enabled step. Code that runs in one
thread is modelled imperatively, by methods with loops over mutable fields; threads that interact are modelled as
transition systems, since there the interleaving is the point.

What the rest of the world contributes is a parameter: the bytes, messages and polls that arrive; the JSON library
as a pair of functions of which only `parse(dump(j)) == j` is assumed, and for the split server that no JSON text is
the bare word `stop`; the keyed hash as an arbitrary function; the answers of the debug adapter, of listeners and of
the abstract `start()` of a debugger.

## Results worth knowing

* If several messages of one batch satisfy a wait, the last one is returned and the others are lost. A wait loses
  nothing exactly when the answering batch holds one match (`Selection.WaitConservesExactly`).
* The reader hands over a frame only once the bytes received end where a frame ends: a complete frame in a chunk whose
  last frame never becomes complete is never delivered (`TcpStream.DeliversExactly`).
* A `stopped` event that itself carried the command `threads` would be taken for its own reply, and the pop after it
  would then miss (`DapTheorems.PopMissesExactly`).
* A `threads` reply is relayed exactly when no all-threads stop before it is still unanswered
  (`DapTheorems.KeptExactly`). A controller with a `threads` request of its own can therefore lose its reply to such a
  stop and be sent the loop's own instead (`DapTheorems.RepliesAreSwapped`).
* A parallel start can come to a standstill in exactly two ways (`DebugSystemStandstill.StandstillExactly`). The
  handshake waits for an `initialized` event that has been drained before or is never sent
  (`DebugSystemProgress.WaitsInVainExactly`; an adapter that refuses `attach`: `DebugSystemHangs.RefusedAttachHangs`;
  one that sends the event before: `DebugSystemHangs.EarlyInitializedHangs`). Or a poll has reported the `attach`
  request together with stream data, the handshake has used the data up, and the read after it blocks
  (`DebugSystemStandstill.ReadsInVainExactly`, `DebugSystemHangs.ParallelStartCanHang`). A sequential start never does.
* A stop requested by a control listener always completes. One requested by a shell listener while control blocks in
  its read completes exactly if a control message waits or arrives (`SplitServerTheorems.StopCompletesExactly`,
  `SplitServerTheorems.StopFromTheShellCanHang`).
* A page of variables that reaches past the end of the list throws, and an empty page is the JSON value null
  (`Variables.SelectVariables`).
* A signature is accepted as soon as it begins with the computed one, and the four signed frames are hashed one
  after the other without their boundaries (`Wire.ReadableExactly`).
* A dumped cell is read back, however much later, exactly unless an older file or an earlier dump of that name has
  other contents (`DebuggerHistory.DumpedCellIsRead`).
* The client of a registration always signs with `hmac-sha256`; `Handshake.AckIsAcceptedExactly` says which kernels
  accept that.

## Model

| member | source | states |
|---|---|---|
| Framing.ValueOfDigits | src/debugger/xdap_tcp_client_impl.cpp:94 | the printed length denotes the length |
| Framing.StoullOfDigits | src/debugger/xdap_tcp_client_impl.cpp:313 | reading a printed number gives it back whatever non-digit follows, with the white space, sign and overflow rules of the number parser |
| Framing.StoullExactly | src/debugger/xdap_tcp_client_impl.cpp:313 | what is read from any text: white space, a sign, digits and whatever follows, with the two exceptions |
| Framing.HeaderSeen | src/debugger/xdap_tcp_client_impl.cpp:299-303 | in a growing prefix of a frame the header search succeeds exactly when the header is complete, and at the start of the frame |
| Framing.SeparatorSeen | src/debugger/xdap_tcp_client_impl.cpp:305-311 | the separator search succeeds exactly when the whole preamble is there, at its end, even if the body contains separators |
| Framing.LengthSeen | src/debugger/xdap_tcp_client_impl.cpp:313 | the length read is that of the body, although the substring passed to the parser runs on past the separator |
| TcpStream.TcpStream.AppendTcpMessage | src/debugger/xdap_tcp_client_impl.cpp:342-352 | one more chunk joins the buffer, in order |
| TcpStream.TcpStream.AwaitCut | src/debugger/xdap_tcp_client_impl.cpp:299-320 | header, separator and body of the next frame are awaited one after the other, each search over the bytes received so far |
| TcpStream.TcpStream.HandleTcpSocket | src/debugger/xdap_tcp_client_impl.cpp:285-340 | on any stream the call delivers, stops, blocks and throws exactly as `FrameReader.ReadAll` says, malformed lengths included; `TcpStream.ReadsFrames` and `FrameReader.AnyStreamIsCutUp` say what that means |
| FrameReader.AnyStreamIsCutUp | src/debugger/xdap_tcp_client_impl.cpp:285-352 | whatever bytes arrive, when the reader returns all of them are preambles and bodies in turn, and the bodies are what it delivers |
| FrameReader.FoundAtExactly | src/debugger/xdap_tcp_client_impl.cpp:299-311 | a search waits for the first chunk that completes an occurrence, and for no further one |
| FrameReader.ThrowsExactly | src/debugger/xdap_tcp_client_impl.cpp:299-320 | once a header and the separator behind it are there, the reader throws if and only if the text it takes for the length is no number below 2^64 |
| TcpStream.ReadsFrames | src/debugger/xdap_tcp_client_impl.cpp:285-340 | on a stream of frames, or a beginning of one, the call returns at the first chunk boundary that ends a frame, with exactly the bodies of the frames read; otherwise it blocks and never throws |
| TcpStream.ReadsIsDeterministic | src/debugger/xdap_tcp_client_impl.cpp:285-340 | that specification fixes where the call stops and what it delivers |
| TcpStream.ChunkingIndependence | src/debugger/xdap_tcp_client_impl.cpp:285-352 | however a stream of frames is cut into chunks, and wherever it ends, successive calls deliver its bodies unchanged and in order, at least one per call, and all of them if the stream is complete |
| TcpStream.DeliversExactly | src/debugger/xdap_tcp_client_impl.cpp:285-352 | what successive calls deliver is fixed: the bodies up to the last frame that ends at a chunk boundary |
| Selection.CollectExact | src/debugger/xdap_tcp_client_impl.cpp:122-141 | a wait on the stream reads up to the first batch with a match, returns the match of that batch behind which there is none, and queues everything that does not match in order of arrival |
| Selection.WaitFromQueue | src/debugger/xdap_tcp_client_impl.cpp:108-120 | a match that is already queued is taken out without any read, the first one, and nothing is lost |
| Selection.WaitConservesExactly | src/debugger/xdap_tcp_client_impl.cpp:103-143 | queued and received messages equal queue and result as multisets if and only if the answering batch holds one match |
| Selection.WaitTakesFirst | src/debugger/xdap_tcp_client_impl.cpp:103-143 | with at most one match a batch, a wait removes the first match of everything queued or still to arrive, and starves only if there is none |
| Selection.WaitShrinks | src/debugger/xdap_tcp_client_impl.cpp:103-143 | a successful wait makes queue and unread messages together shorter, the measure of the nested waits |
| DapClient.DapClient.SortBatch | src/debugger/xdap_tcp_client_impl.cpp:126-140 | the side queue ends empty, the last match is kept, the rest goes to the queue in order |
| DapClient.DapClient.WaitForMessage | src/debugger/xdap_tcp_client_impl.cpp:103-143 | the imperative wait, fed by chunks, does what the wait on values does |
| DapClient.DapClient.SendDapRequest | src/debugger/xdap_tcp_client_impl.cpp:89-101 | what is sent is the frame of the dumped message |
| DapProtocol.PayloadOfFrame | src/debugger/xdap_tcp_client_impl.cpp:260-262 | the content of a framed request is found even if it contains a separator |
| DapClient.DapClient.ForwardEvent | src/debugger/xdap_tcp_client_impl.cpp:49-87 | the new queue, stream and effects of forwarding one event, nested wait included |
| DapTheorems.WaitKeepsFront | src/debugger/xdap_tcp_client_impl.cpp:109-120 | a wait that does not take the front of the queue leaves it in front |
| DapTheorems.PopRemovesTheHandledEvent | src/debugger/xdap_tcp_client_impl.cpp:354-376 | after handling an event, waits included, the element about to be popped is that very event, unless the event answered itself |
| DapTheorems.PopMissesExactly | src/debugger/xdap_tcp_client_impl.cpp:354-376 | for a lone stop the pop meets an empty queue if and only if the event carries the command `threads` |
| DapTheorems.KeptExactly | src/debugger/xdap_tcp_client_impl.cpp:59-63 | a message is among those passed on if and only if it is no `threads` reply or no all-threads stop before it still waits for one |
| DapTheorems.KeptWhenAskedFor | src/debugger/xdap_tcp_client_impl.cpp:59-63 | nobody else asks for threads if and only if no `threads` reply is passed on |
| DapTheorems.DrainHandlesInOrder | src/debugger/xdap_tcp_client_impl.cpp:354-376 | for every orderly stream, draining passes on exactly these messages, once and in order of arrival, never misses a pop, and starves only if some stop never gets a reply |
| DapTheorems.DrainWithoutStrayReplies | src/debugger/xdap_tcp_client_impl.cpp:354-376 | if nobody but the client asks for threads, a drain passes on everything but the `threads` replies, and it stays so for what is still to come |
| DapTheorems.RepliesAreSwapped | src/debugger/xdap_tcp_client_impl.cpp:59-63 | behind an all-threads stop the reply to a `threads` request of the controller is used up, and the one the loop has asked for is relayed in its place |
| DapTheorems.InitSequenceIsOrderIndependent | src/debugger/xdap_tcp_client_impl.cpp:378-412 | with each of the three messages at most once, the handshake completes if and only if all three arrive, in any order and batching; then one framed `configurationDone` request with the number after that of the `initialized` event was sent, this event forwarded once, the attach response relayed once, and every other message left in order |
| DapClient.DapClient.ProcessMessageQueue | src/debugger/xdap_tcp_client_impl.cpp:354-376 | the re-entrant loop terminates, empties the queue and has the effects of the drain on values |
| DapClient.DapClient.HandleInitSequence | src/debugger/xdap_tcp_client_impl.cpp:378-412 | the imperative handshake does what the handshake on values does |
| DapClient.DapClient.HandleHeaderSocket | src/debugger/xdap_tcp_client_impl.cpp:245-251 | the header field becomes the received header |
| DapClient.DapClient.HandleControlSocket | src/debugger/xdap_tcp_client_impl.cpp:253-283 | the request is passed on; the first `attach` of a parallel start runs the handshake |
| DapClient.DapClient.StartDebugger | src/debugger/xdap_tcp_client_impl.cpp:168-200 | for every sequence of polls, the event loop over chunks has exactly the state and effects of the run on values, and both queues are empty at the end of each round |
| DapRuns.RunStamps | src/debugger/xdap_tcp_client_impl.cpp:76-86 | in every run each event is published under the last header received before it |
| DapRuns.ExitsExactlyOnDisconnect | src/debugger/xdap_tcp_client_impl.cpp:367-370 | the loop has ended if and only if it has relayed a `disconnect` response, and its queue is empty between rounds |
| DapLedger.RunPassesEverythingOnce | src/debugger/xdap_tcp_client_impl.cpp:168-200 | in every run, sequential or parallel from its start, in which each stop gets a reply and the messages of the handshake are ahead when it begins, the loop never gets stuck, and what was passed on followed by what is still to be passed on is always the same sequence, up to what the handshake moves |
| DapLedger.AttachKeepsLedger | src/debugger/xdap_tcp_client_impl.cpp:378-412 | the handshake never halts then, moves `initialized` and the attach response before what is queued, takes only the response to the loop's own `configurationDone` away, and leaves all others in order |
| DapRequests.RunSendsRightly | src/debugger/xdap_tcp_client_impl.cpp:89-101 | in every run each request of the controller is sent on unchanged and at once; all else that is sent are framed requests of the client: `threads` right before the notice of an event that stops all threads, `configurationDone` right before that of `initialized`, numbered one after the event |
| DapRequests.RunTakesInOrder | src/debugger/xdap_tcp_client_impl.cpp:245-283 | in every run headers and requests are taken from their sockets in order, each once, and none is lost |
| EventNotices.RunNotices | src/debugger/xdap_tcp_client_impl.cpp:49-87 | in every run each event is notified once right before it is published, with a thread list exactly for all-threads stops, right after the client's own framed `threads` request with the next number |
| EventNotices.AllStopCoversTheReply | src/debugger/xdap_tcp_client_impl.cpp:51-70 | an all-threads stop adds exactly the threads of the reply waited for to the front end's stopped threads |
| DebugSystemSafety.StepKeepsInv | src/debugger/xdap_tcp_client_impl.cpp:168-200 | the invariant of the composed system is kept by every step of front end, loop and adapter |
| DebugSystemTheorems.AcceptedInTurn | src/debugger/xdebugger_middleware.cpp:49-56 | in a log the observer accepts, receives and sends on the controller socket alternate and each answer answers the request just received |
| DebugSystemTheorems.AcceptedHeaders | src/debugger/xdebugger_base.cpp:394-408 | in such a log each request is received under its own header and each event published under the last header |
| DebugSystemTheorems.Discipline | src/debugger/xdap_tcp_client_impl.cpp:168-200 | every run of the composed system has such a log, whatever the adapter says and whenever: one answer per request before the next, by the response to that request and with its command, never by a response to the loop's own requests; no socket is used out of turn, no empty queue popped |
| DebugSystemProgress.StuckExactlyAtDeadEnds | src/debugger/xdap_tcp_client_impl.cpp:184-200 | while the front end waits, the loop has not ended, and nothing but the adapter of its own accord can move if and only if the adapter owes nothing, the stream is empty, and the loop is about to read it or waits for `initialized` |
| DebugSystemProgress.WaitsInVainExactly | src/debugger/xdap_tcp_client_impl.cpp:380-384 | at such a standstill the loop waits for `initialized` if and only if the event was neither queued nor on the stream when the handshake began and was not sent since |
| DebugSystemProgress.NoHangWhenAttachPolledAlone | src/debugger/xdap_tcp_client_impl.cpp:189-197 | if no poll reports stream data together with the parallel `attach`, and `initialized` is there when the handshake begins or sent later, the front end never waits in vain |
| DebugSystemProgress.SequentialStartNeverHangs | src/debugger/xdap_tcp_client_impl.cpp:169 | after a sequential start the front end never waits in vain |
| DebugSystemStandstill.ReadsInVainExactly | src/debugger/xdap_tcp_client_impl.cpp:189-197 | in every run the loop ends up before an empty stream if and only if a handshake has used up the data it was polled with and the adapter has not spoken of its own accord since |
| DebugSystemStandstill.StandstillExactly | src/debugger/xdap_tcp_client_impl.cpp:184-200 | the front end waits in vain if and only if that has happened, or the handshake has missed `initialized` and there is nothing left to read |
| DebugSystemTermination.EveryRunEnds | src/debugger/xdap_tcp_client_impl.cpp:168-200 | the number of steps of a run is bounded by what the front end asks and the adapter says of its own accord, however they interleave |
| DebugSystemTermination.AnsweredOrDeadEnd | src/debugger/xdap_tcp_client_impl.cpp:168-200 | from every reached state, a question is answered within a number of steps known in advance, or the system is at a dead end |
| DebugSystemHangs.ParallelStartCanHang | src/debugger/xdap_tcp_client_impl.cpp:189-197 | a run of a parallel start with an `initialized` event in time, after which the loop reads a stream that the handshake has used up |
| DebugSystemHangs.RefusedAttachHangs | src/debugger/xdap_tcp_client_impl.cpp:380-384 | a run in which the adapter refuses `attach` and never sends `initialized`, and the loop waits for it for ever |
| DebugSystemHangs.EarlyInitializedHangs | src/debugger/xdap_tcp_client_impl.cpp:380-384 | a run in which `initialized` comes before `attach`, is drained, and the loop then waits for it for ever |
| DebugSystemRounds.FedRoundGoesOn | src/debugger/xdap_tcp_client_impl.cpp:168-200 | from every reached state a round whose polls are truthful, whose waits are answered and whose replies have been asked for goes through: the loop neither uses its reply socket out of turn nor pops an empty queue |
| DebugSystemAgreement.RoundIsARun | src/debugger/xdap_tcp_client_impl.cpp:168-200 | such a round of the client's event loop is a run of the composed system that ends where the client stands, with the same done on the header, controller and publisher sockets |
| DebugSystemRefinement.StepRoundRuns | src/debugger/xdap_tcp_client_impl.cpp:168-200 | a round of the system that goes through, handshake and nested waits included, is made of single steps |
| ClientDiscipline.ClientFollowsTheSystem | src/debugger/xdap_tcp_client_impl.cpp:168-200 | in every run of the client's event loop beside the front end and the adapter, fed in each round, the loop never halts, and what it does on its sockets is one for one what a run of the system does |
| ClientDiscipline.ClientUsesItsSocketInTurn | src/debugger/xdap_tcp_client_impl.cpp:168-200 | in these runs, before the next request is received each request gets one reply, which carries its command and is the adapter's answer to this request and to none of the client's own |
| Debugger.Debugger.SetBreakpointsRequest | src/debugger/xdebugger_base.cpp:151-160 | the list of the source is replaced, no other one touched, and the request forwarded in a frame |
| Debugger.Debugger.StackTraceRequest | src/debugger/xdebugger_base.cpp:206-227 | the first frame of code from no file is taken out of the adapter's answer |
| Debugger.StackReplyExactly | src/debugger/xdebugger_base.cpp:206-227 | all other frames stay in order, and nothing changes if there is none |
| Debugger.Debugger.VariablesRequest | src/debugger/xdebugger_base.cpp:292-316 | the answer with its variable list left alone, cut to the page or replaced by null, or the exception |
| Debugger.Debugger.ListBreakpoints | src/debugger/xdebugger_base.cpp:82-86 | each source is listed once, with its breakpoints, in key order, and none is missing |
| Debugger.KeyLessExactly | src/debugger/xdebugger_base.cpp:82-86 | key order is decided where the two keys first differ |
| Debugger.Debugger.DebugInfoRequest | src/debugger/xdebugger_base.cpp:76-110 | the report of the session, with no breakpoints while it is off |
| Debugger.Debugger.ProcessRequest | src/debugger/xdebugger_base.cpp:357-420 | the new session and files, the calls made in order and the reply, for every request |
| Debugger.RepliesMean | src/debugger/xdebugger_base.cpp:357-420 | what is sent back, case by case: nothing while the session is off, a refusal if it could not be started, and else the answer of the adapter, edited for `stackTrace` and `variables` only, or the name or contents of a file |
| Debugger.Debugger.HandleEvent | src/debugger/xdebugger_base.cpp:256-285 | the new set of stopped threads |
| DebuggerHistory.StartedMeans | src/debugger/xdebugger_base.cpp:362-416 | the debugger is started if and only if an `initialize` has succeeded since the last disconnect |
| DebuggerHistory.StoppedMeans | src/debugger/xdebugger_base.cpp:256-285 | a thread is in the stopped set if and only if an event covering it stopped it and since then none resumed it and no disconnect happened |
| DebuggerHistory.BreakpointsMean | src/debugger/xdebugger_base.cpp:151-160 | the map holds for each source exactly the last `setBreakpoints` list of the current session |
| DebuggerHistory.NoSessionNoBreakpoints | src/debugger/xdebugger_base.cpp:411-416 | a session that is off has an empty breakpoint map |
| DebuggerHistory.StartsExactlyWhenOff | src/debugger/xdebugger_base.cpp:362-370 | `start()` is called exactly by an `initialize` that finds the session off |
| DebuggerHistory.CallsExactly | src/debugger/xdebugger_base.cpp:357-420 | over all histories and in order: one start per `initialize` that finds the session off, one header per request of a running session but `debugInfo`, one framed request with its own text unless it is `dumpCell` or `source`, one stop per `disconnect`, and no other call |
| DebuggerHistory.StopComesLast | src/debugger/xdebugger_base.cpp:411-416 | the stop is the last call of its `disconnect` |
| DebuggerHistory.RequestsFollowTheirHeaders | src/debugger/xdebugger_base.cpp:394-408 | over all histories, each request sent to the client loop directly follows the header it came with |
| DebuggerHistory.DumpedCellsMean | src/debugger/xdebugger_base.cpp:112-149 | after any history a temporary file is there if and only if it was before or a cell has been dumped under its name in a session that was on, and holds the oldest of these contents |
| DebuggerHistory.DumpedCellIsRead | src/debugger/xdebugger_base.cpp:112-204 | a dumped cell is read back after any history if and only if the oldest file of that name has its contents |
| Variables.SelectVariables | src/debugger/xdebugger_base.cpp:292-316 | exactly when the list is left alone, null, or the access throws, and else how many variables the page has and which |
| SplitServerTheorems.StepKeepsInv | src/server/xshell_default_runner.cpp:14-38 | the invariant of the four threads is kept by every step |
| SplitServerTheorems.StopIsOrdered | src/server/xzmq_messenger.cpp:39-55 | in every run, when `stop_channels` has returned each loop has consumed and acknowledged its stop once and no message is on its way; the loops stop in order and none before the request |
| SplitServerTheorems.NothingRunsAfterTheStop | src/server/xzmq_messenger.cpp:39-55 | afterwards no loop takes another message, ever |
| SplitServerTheorems.CallsReturnTheirOwnAnswers | src/server/xzmq_messenger.cpp:57-64 | in every run each internal call returns the listener's result for exactly its own message, in order, with at most one call open and no shell that has stopped during a call |
| SplitServerTheorems.ShellAlternates | src/server/xshell_default_runner.cpp:18-36 | the shell's controller socket alternates receive and send, takes the word `stop` exactly from a stop, and every other text that comes is readable JSON |
| SplitServerTheorems.EveryRunEnds | src/server/xshell.cpp:64-93 | with finite input and finitely many publications and calls, every run is over after a number of steps known in advance |
| SplitServerTheorems.QuietExactlyWhen | src/server/xshell.cpp:64-93 | the server comes to rest if and only if the stop is complete or control blocks in its read with all loops idle, so the shell's priority over the controller deadlocks nothing |
| SplitServerTheorems.StopCompletesExactly | src/server/xcontrol_default_runner.cpp:14-33 | a requested stop completes in every run that goes as far as it can, if and only if control was not blocked in its read, or a control message was waiting or arrives |
| SplitServerTheorems.StopFromTheShellCanHang | src/server/xcontrol_default_runner.cpp:18-28 | a stop requested from the shell with all threads asleep and control still reading |
| ServerLoops.ShellRunner.TakeTurn | src/server/xshell_default_runner.cpp:14-38 | one round of the shell loop: the oldest shell message if there is one, else the oldest controller text, with what is handed on and sent back for it |
| ServerLoops.ShellRunner.Run | src/server/xshell_default_runner.cpp:14-38 | whatever arrives between the polls, each round takes the right message; of the shell messages exactly the readable ones reach the listener, in order and as what they are read as; each controller text gets its answer before the next one is taken; the loop ends exactly with the first stop, unreadable text or truncated message |
| ServerLoops.HonestMessagesArrive | src/server/xshell_default_runner.cpp:19-22 | serialized messages, none of whose identities is the delimiter, all reach the listener unchanged |
| ServerLoops.ShellRunner.EndingMeans | src/server/xshell_default_runner.cpp:18-36 | which texts and messages end the loop, and how |
| ServerLoops.TakenExactly | src/server/xshell.cpp:64-93 | what has been taken are the messages of the turns, in order |
| ServerLoops.TakesInOrder | src/server/xshell.cpp:64-93 | on each of the two sockets what has been taken is a beginning of what has arrived |
| ServerLoops.TurnsAreDetermined | src/server/xshell.cpp:71-80 | the priority of the shell socket leaves the loop no choice |
| ServerLoops.TurnIsARun | src/server/xshell_default_runner.cpp:18-36 | a round of the loop is a run of the shell's steps in the system of threads, with the same answer |
| ServerLoops.Heartbeat.Run | src/server/xheartbeat.cpp:49-78 | every ping until the round of the first stop goes back unchanged and in order, the stop goes back once and ends the loop |
| ServerLoops.PingsExactly | src/server/xheartbeat.cpp:63-68 | the pings of some rounds are the messages of exactly those rounds that have one |
| Publisher.Publisher.Run | src/server/xpublisher.cpp:60-142 | the loop ends exactly in the first round with a stop or an unanswerable subscription, has sent the transcript of the rounds until then, and sends the stop back once |
| Publisher.TranscriptMeans | src/server/xpublisher.cpp:82-140 | that transcript forwards exactly the publications, in order, and welcomes exactly the subscriptions, once each, in order, with their topic |
| Publisher.PublicationsExactly | src/server/xpublisher.cpp:82-117 | which messages count as published, and which upstream frames as a subscription to which topic |
| Publisher.PublicationComesFirst | src/server/xpublisher.cpp:82-140 | the publication of a round is sent before its welcome and behind all earlier rounds |
| Publisher.ForwardsAPrefixPerSocket | src/server/xpublisher.cpp:82-87 | for each publishing socket what was forwarded is a beginning of what it published |
| Publisher.OtherUpstreamIsIgnored | src/server/xpublisher.cpp:98-117 | multi-frame, empty and other upstream messages change neither what is sent nor where the loop ends |
| Publisher.SubscriberReadsItsTopic | src/server/xpublisher.cpp:43-53 | a subscriber that deserializes a welcome reads, under the empty topic, a content whose `subscription` is the topic it subscribed to |
| HeartbeatClient.HeartbeatClient.Run | src/client/xheartbeat_client.cpp:89-114 | the kernel is reported dead at most once, exactly in the first round that ends a window of `max_retry + 1` failures, and never after a stop |
| Wire.SerializeZmqId | src/common/xzmq_serializer.cpp:161-168 | the identities and the delimiter are added |
| Wire.DeserializeZmqId | src/common/xzmq_serializer.cpp:170-188 | the scan terminates on every input, returns the frames before the first delimiter and leaves those after it, and fails if and only if there is no delimiter or nothing follows it |
| Wire.BoundaryExactly | src/common/xzmq_serializer.cpp:175-186 | the boundary found is the one position with a delimiter, none before it and something behind it |
| Wire.NoBoundaryExactly | src/common/xzmq_serializer.cpp:182-186 | no boundary if and only if no frame but possibly the last is a delimiter |
| Wire.SerializeMessageBase | src/common/xzmq_serializer.cpp:47-73 | behind what is there already come the frames that the round trips below are about: the signature over the four JSON frames, these, and every buffer |
| Wire.DeserializeMessageBase | src/common/xzmq_serializer.cpp:75-108 | the imperative reader decides every list of frames as the read on values does, errors in the order the code meets them |
| Wire.Serialize | src/common/xzmq_serializer.cpp:125-133 | serializing yields the frames that `Wire.RoundTripExactly` reads back |
| Wire.Deserialize | src/common/xzmq_serializer.cpp:135-141 | the imperative deserializer is the read that `Wire.ReadableExactly` characterizes, on every list of frames |
| Wire.SerializeIopub | src/common/xzmq_serializer.cpp:143-151 | serializing yields the frames that `Wire.PubRoundTrip` reads back |
| Wire.DeserializeIopub | src/common/xzmq_serializer.cpp:153-159 | the imperative deserializer is the read that `Wire.PubReadableExactly` characterizes, on every list of frames |
| Wire.RoundTripExactly | src/common/xzmq_serializer.cpp:125-141 | a message comes back with its identities and buffers if and only if none of its identities is the delimiter |
| Wire.PubRoundTrip | src/common/xzmq_serializer.cpp:143-159 | a publication comes back whatever its topic |
| Wire.ReadableExactly | src/common/xzmq_serializer.cpp:135-141 | exactly which frames are read as which message: the first delimiter, five frames behind it, four of them JSON, and a signature that begins with the keyed hash of those four |
| Wire.UnreadableExactly | src/common/xzmq_serializer.cpp:75-108 | which error frames with a delimiter lead to |
| Wire.NoDelimiterExactly | src/common/xzmq_serializer.cpp:182-186 | when there is no delimiter to begin with |
| Wire.PubReadableExactly | src/common/xzmq_serializer.cpp:153-159 | exactly which frames are read as which publication, signature check included |
| Wire.PubUnreadableExactly | src/common/xzmq_serializer.cpp:153-159 | which error all other frames lead to |
| Handshake.Announce | src/server/xhandshaking.cpp:58-76 | the kernel sends the announcement of which `Handshake.AnnouncementSays` speaks |
| Handshake.AnnouncementSays | src/server/xhandshaking.cpp:58-76 | the announcement arrives with its content, which names the kernel and each of the five ports, signed over that content with the kernel's key and hash |
| Handshake.CheckReply | src/server/xhandshaking.cpp:78-88 | the kernel judges every reply as in the next two lemmas |
| Handshake.AcceptedExactly | src/server/xhandshaking.cpp:81-88 | a reply is accepted if and only if behind its first delimiter there are a signature and a content, and the signature begins with the one the kernel computes over the content |
| Handshake.RejectedExactly | src/server/xhandshaking.cpp:81-88 | which error all other replies lead to |
| Handshake.WaitForConfiguration | src/client/xhandshake_client_zmq.cpp:69-103 | on every message the client registers the kernel as in the next lemma, acknowledges to the same identities with a signature by `hmac-sha256`, and sends nothing on an error |
| Handshake.RegisteredExactly | src/client/xhandshake_client_zmq.cpp:76-92 | a kernel is registered if and only if the content behind the first delimiter and the signature, which is not checked, names the five ports |
| Handshake.PortsArriveExactly | src/client/xhandshake_client_zmq.cpp:76-92 | the client learns exactly the kernel's five ports if and only if the routing identity is not the delimiter or the signature is itself a JSON object with these ports |
| Handshake.DelimiterIsNoIdentity | src/common/xzmq_serializer.cpp:175-186 | under the scheme `none` a kernel whose routing identity is the delimiter is never registered |
| Handshake.AckIsAcceptedExactly | src/server/xhandshaking.cpp:81-88 | the acknowledgement comes back through the router and is accepted if and only if the kernel wants no signature or computes a beginning of the client's |
| Handshake.HandshakeCompletes | src/server/xhandshaking.cpp:42-89 | with equal keys and the scheme `none` or `hmac-sha256` both sides end well and the client has the kernel's key and ports |

## Left out

- ZeroMQ itself: socket creation, options, linger, CURVE, endpoints and ports, polling errors (EINTR, ETERM), receive timeouts.
- The routing frame in front of every chunk of a stream socket, which the reader discards, and the initial `ACK` exchange of `start_debugger`.
- HMAC and hexadecimal encoding; a signature frame shorter than the computed one, where the comparison reads past its end, counts as a mismatch.
- JSON syntax, and the exceptions for malformed JSON or missing fields in debug messages and debugger requests, a `stopped` or `continued` event without its flag among them; messages are taken apart by an arbitrary function.
- Frames with bodies of 2^64 bytes and more.
- The overflow of the C++ `int` in `seq + 1` and in `start + count`; numbers are unbounded.
- `DebugSystemTheorems.Discipline`: assumes that the adapter answers each request once and that the front end sends no `threads` request of its own (see `DapTheorems.RepliesAreSwapped`); messages carry only their kind, command and origin there. `DebugSystem` is one session, from the start of the loop to its end.
- `ClientDiscipline.ClientUsesItsSocketInTurn`: the runs in which the front end moves between the rounds of the loop, the adapter sends what a round reads in that round, and each round is fed: its poll is truthful and reports a socket, each of its waits is answered, and the adapter sends replies to what it has been asked only.
- `ClientDiscipline.ClientFollowsTheSystem`: the same runs.
- What is pushed to a queue before an exception or a crash, and event handlers other than `forward_event`.
- The control loop and `stop_channels` as programs: they block in the middle of other threads' steps and exist as steps of `SplitServer` only.
- The contents of requests, pings and publications in `SplitServer`, which counts them; a listener that never returns or throws; the exception for a missing publisher callback, which `Publisher` has.
- Files that exist but cannot be opened, handlers that a debugger registers itself, logging, and the rewriting of Windows paths.
- `abort_queue`, `poll` of the client, `xdealer_channel`, `xclient_zmq`, the forwarding wrappers of the servers, `get_kernel_configuration`, `xthread` and the runner base classes.
- `xiopub_client`, whose queue reads the back and pops the front.
- Data races on unsynchronised flags: a handler is one atomic step.
- How `wait_for_answer` of the heartbeat client comes by its result; any stream of results is allowed.
