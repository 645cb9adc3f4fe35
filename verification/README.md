# Verified model of the torinet server and its chat server

torinet is a small Boost.Asio server library; the chat server built on it relays messages between its
clients. This project models the live server path in Dafny and proves what it keeps over whole runs.
`dafny verify dfyconfig.toml` checks everything.

## How the code is modelled

Every completion handler is one step of a state machine. The environment chooses which pending operation
completes next and whether it fails; completions never run inside the call that starts the operation.
A run is a sequence of events applied from left to right, and an event that is not possible in a state
changes nothing, so every sequence of events is a run and the theorems quantify over all of them.

| layer | files | what it is |
|---|---|---|
| frames | `Bytes`, `Frames`, `Parser` | header codec, narrowing, the one-shot meaning of a byte stream |
| one session | `ReadChain`, `SendChain`, `Session` | the two chains of a `TcpSession` and its close reports |
| one direction of a connection | `Link` | a write chain, the bytes in between, a read chain |
| server | `Registry`, `Interleaving`, `Handlers` | id allocator, session registry, accept chain, `stop` |
| whole system | `ChatSystem`, `Lifetimes`, `TotalOrder`, `Progress`, `Failures`, `DoubleFailure` | server, all sessions, their peers, broadcasts |
| objects | `Message`, `TcpSession`, `TcpServer`, `ChatServer`, `IoServicePool` | the classes of the source, updated in place, each method proved to do a step of the machines above |

The classes carry the source's fields (`_sendQue`, `_msg`, `_tx`, `_rx`, `_state`, `_sessions`,
`_free_session_id`, `m_next`), what has been asked of Asio, and a ghost `model` that `Valid()` ties to
them. That at most one write, one read and one accept is ever outstanding is the precondition of the
methods that start one (`AsyncWrite`, `Read`, `StartAccept`). The completion handlers of `ChatServer` put the
objects together: its `Valid()` says that the server and all sessions ever opened are in the state that the
machine of the whole system reaches by the events that have happened, every handler keeps it and does exactly
one event, and so the theorems about runs are theorems about the objects (`QueuesFollowLog` is one of them).

Assumptions about the environment:

- A read has full-read semantics: it completes without error only with all the bytes asked for, as the
  commented-out `async_read` at Src/TcpSession.cpp:81 and 124 would, and as Src/IpcSession.cpp:36-41 does.
  The compiled call is `async_read_some`, which meets this only when no read is short. Where a read is
  short, the claims about the read chain do not apply.
- An accepted header with a negative length asks for a read of that length as a `size_t`, about 2^64
  bytes. Such a read never completes in the model. The reader and the parser both stop there, so no
  precondition on streams is needed; for streams without such headers this case does not arise.
- Handlers are atomic; in `Interleaving` the steps between the mutex operations are, deque operations
  included. The code has no lock around `_sendQue` and `_free_session_id`.
- The host is little-endian. `_tx`, `_rx` and a new `Msg` start with arbitrary content, as in the code.
- After a failed read nothing in the code looks at `_msg` again, so bytes that a failed read may have
  stored are not modelled.
- The server is started once. A later start would not refill the free list.

## Findings

- Under atomic handlers `front`/`pop_front` never meet an empty list, even if sessions report closed
  twice (`NeverPopsEmptyList`). With the lock where it is, a close that has erased its id and not yet
  given it back lets an accept through the guard with nothing to pop (`PopCanMeetEmptyList`).
  `WhenPopMeetsEmptyList` gives the exact condition in every run: the sessions opened outnumber the ids
  given back by the capacity. If no session reports twice, that is when the ids being closed account for
  all the capacity that is left (`WhenClosingTakesAll`); if one does, they can exceed it
  (`ClosingCanExceedCapacity`).
- A failed body read and a failed write each report closed. A session of the chat server can have both
  if and only if the server has room for two (`DoubleFailureNeedsTwoSessions`); its id is then in the
  free list twice (`FirstOfTwoFailsTwice`), and `CopiesOfAnId` counts the copies in every run.
  `ExactIffReportsOnce` and `ExactUnlessFailedTwice` show that this is the only way the id lists and the
  registry can go wrong.
- A session whose header read fails stays registered and keeps its id until a write fails or the server
  is stopped (`RegisteredWhileNothingReported`).
- The third test of `checkHeader` compares an 8-bit result code with 0x2000 and never fails
  (`EncodeThenCheck` holds for every result code).
- Once an accept completes with an error, at capacity, or after `stop`, nothing is ever accepted again
  (`AcceptChainEnds`).

## Model

| member | source | states |
|---|---|---|
| TotalOrder.QueueFollowsLog | chat_server/ChatServer.cpp:116-125 | In every run, for every session ever opened, the frames written followed by the queue are exactly the broadcasts the other sessions made while it was registered, in log order. |
| Lifetimes.SessionLifetime | Src/TcpServer.cpp:46-112 | In every run every session has one lifetime: opened by one event, registered from then to one later state and in no other; the positions of the log recorded for it are the lengths of the log at both. |
| TotalOrder.PeerDeliversLog | chat_server/ChatServer.cpp:107-126 | In every run, each session's peer has delivered exactly the other sessions' broadcasts from the session's registration up to some position of the one log, which is the end of the registration, or the present, once drained. |
| TotalOrder.SameOrder | chat_server/ChatServer.cpp:116-125 | In every run, for any two sessions: of the frames their peers have delivered, those of the broadcasts that both have delivered are the same sequence of frames at both; one misses a broadcast of the other exactly if it was its own, before its registration, or beyond what it has delivered. |
| TotalOrder.OnlyChatIsBroadcast | chat_server/ChatServer.cpp:73-93 | In every run, for every next event: a completed body extends the log by one broadcast of its frame by its session iff bytes 4-7 of the frame are 3, 0, 0, 0, and nothing else extends the log. |
| TotalOrder.SenderOrder | chat_server/ChatServer.cpp:73-93 | What a session caused to be broadcast is exactly the chat messages among the frames its reader delivered, a prefix of the parse of the bytes it received. |
| TotalOrder.LibraryClient | chat_server/ChatServer.cpp:73-126 | A client using the library's write chain has caused broadcasts of exactly the chat messages among the first messages it sent. |
| TotalOrder.ClientToClient | chat_server/ChatServer.cpp:73-126 | First in, first out: the frames of one client that the peer of another session has delivered are a gapless part of the chat messages that client was given to send, from the first broadcast after the registration to the last delivered. |
| Progress.LogDeliveryRemainsPossible | Src/TcpSession.cpp:205-232 | From every reachable state, for every session whose write chain and whose peer have not failed, a continuation without failures, which changes nothing else, delivers every broadcast made by the others while it was registered. |
| Failures.RunOfRegistry | Src/TcpServer.cpp:29-117 | The registry of every run of the whole server goes through a run of the atomic handlers. |
| Failures.ExactUnlessFailedTwice | Src/TcpServer.cpp:46-56 | In every run not stopped, registry and free list are exact throughout if and only if no session failed both a body read and a write. |
| Failures.CopiesOfAnId | Src/TcpServer.cpp:46-56 | In every run before `stop`, for every id: the copies in the free list are 1, plus the sessions with that id that failed twice, less those that have not failed. |
| DoubleFailure.DoubleFailureNeedsTwoSessions | Src/TcpSession.cpp:138-148 | Some run has a session that fails both a body read and a write if and only if maxSession is at least 2. |
| DoubleFailure.FirstOfTwoFailsTwice | Src/TcpServer.cpp:46-56 | For every capacity of at least 2, a run of the whole server in which a session fails twice and its id is in the free list twice. |
| Failures.RegisteredWhileNothingReported | Src/TcpSession.cpp:85-91 | In every run: a session whose id no session has given back twice is registered, and found by `getSession`, exactly as long as the server is not stopped and no body read and no write of it has failed; a failed header read does not unregister it. |
| Failures.ReadFailureSilences | Src/TcpSession.cpp:85-91 | After a failed read of a header or of a body, in every continuation of every run, the session delivers nothing more and causes no broadcast. |
| ChatSystem.StepInv | chat_server/ChatServer.cpp:107-126 | The composed invariant of registry, sessions, links and broadcast log survives every event of the whole server. |
| ChatSystem.OfferInv | chat_server/ChatServer.cpp:119-124 | A broadcast keeps, at every connection, the link invariant and the equation between what was sent and the log. |
| Link.EndToEnd | Src/TcpSession.cpp:170-232 | In every run the peer has delivered a prefix of what was sent; drained without failure it has delivered everything, once each and in order, and both byte counters are their starting values plus its total length. |
| Link.DeliveryRemainsPossible | Src/TcpSession.cpp:205-232 | From every state reached without failure there is a continuation of completions without error in which everything sent is delivered. |
| Link.Delivery | Src/TcpSession.cpp:95-158 | The link invariant gives prefix delivery always and full delivery when drained. |
| Parser.ParseIsTheFraming | Src/TcpSession.cpp:95-136 | The parser is the only way to cut a stream into rejected headers and whole frames with a stalled rest, keeping the frames. |
| Parser.ParseSegments | Src/TcpSession.cpp:107-136 | Rejected headers and whole frames in front of a stream contribute exactly the frames among them. |
| Parser.ParsePrefix | Src/TcpSession.cpp:79-158 | What is delivered of a prefix of a stream is a prefix of what is delivered of the whole. |
| Parser.ParseRoundTrip | include/Msg.h:74-77 | Serialising messages by their first `length()` bytes and parsing gives their frames back. |
| ReadChain.StepInv | Src/TcpSession.cpp:79-158 | Every read event keeps the accounting of received bytes, the byte counter and the alternation of headers and bodies. |
| ReadChain.BodyDoneMessage | Src/TcpSession.cpp:149-157 | When a body completes, `_msg` holds one whole frame that passed `checkHeader`, the frame delivered, made of the header read and the next bytes. |
| ReadChain.RefinesParser | Src/TcpSession.cpp:79-158 | The reader has delivered a prefix of the one-shot parse of what it received, and all of it when its read cannot complete. |
| ReadChain.DrainDeliversParse | Src/TcpSession.cpp:107-136 | From every reachable state without a failed read, letting the outstanding reads complete while bytes last delivers exactly the parse of what was received, rejected headers or not, and leaves a read outstanding. |
| Session.ReaderRefinesParser | Src/TcpSession.cpp:79-158 | The refinement over every run of a session and every way of cutting the stream; `_rx` is its starting value plus the delivered length, rejected headers excluded, modulo 2^64. |
| Session.ArrivalsDoNotMatter | Src/TcpSession.cpp:79-158 | Sessions that receive the same bytes and come to rest have delivered the same frames. |
| Session.HeadersAndBodiesAlternate | Src/TcpSession.cpp:95-158 | In every run accepted headers and bodies strictly alternate, header first, one delivery a body. |
| Session.SingleWriter | Src/TcpSession.cpp:170-232 | In every run a write is pending iff the queue is non-empty and no write failed, its buffer is the queue's front, and written plus queued is everything sent in order. |
| Session.SendKeepsInflight | Src/TcpSession.cpp:188-203 | A `send` during a write changes neither the pending buffer nor the queue's front. |
| Session.BytesSentAreConserved | Src/TcpSession.cpp:218 | In every run `_tx` plus the queued length differs from its starting value plus the length of everything sent by a multiple of 2^64. |
| Session.WriteFailureIsFinal | Src/TcpSession.cpp:207-215 | After a failed write, in every continuation nothing more is written and the queue grows by exactly what is sent. |
| Session.ReadFailureIsFinal | Src/TcpSession.cpp:85-91 | After a failed header or body read, in every continuation, no read is outstanding, and message, counter and deliveries stay as they are whatever arrives. |
| Session.CloseReports | Src/TcpSession.cpp:138-148 | In every run `_closedHandler` was called once for a failed body read and once for a failed write, never for a header read; twice exactly if both failed. |
| SendChain.WriteInv | Src/TcpSession.cpp:205-232 | Completing a write keeps the single-writer invariant and everything sent; after a failure it does nothing. |
| SendChain.ByteConservation | Src/TcpSession.cpp:216-220 | Counter plus queued length equals start value plus total length sent, modulo 2^64. |
| Frames.HeaderLayout | include/Msg.h:17-22 | On any bytes: byte 0 is the version, byte 1 the result, bytes 2-3 the length, bytes 4-7 the message id, little-endian, the first three signed. |
| Frames.AcceptsLayout | include/Msg.h:101-119 | On any bytes: `checkHeader` accepts iff byte 0 is 1 and the length in bytes 2-3 is negative or at most 1024. |
| Frames.EncodedLayout | include/Msg.h:17-22 | The bytes of a serialised header hold the fields in these places. |
| Frames.ChatLayout | include/MsgId.h:7-13 | A message is `NF_MESSAGE` iff its bytes 4-7 are 3, 0, 0, 0. |
| Frames.WholeLayout | include/Msg.h:74-77 | On the bytes: which messages have a frame, and that its length is 8 plus the length in bytes 2-3. |
| Parser.ParseOnBytes | Src/TcpSession.cpp:95-136 | The parser on the bytes: eight bytes are dropped unless they start with 1 and announce at most 1024 or a negative length; a negative length stops; else the frame is eight bytes and as many more as announced. |
| Frames.HeaderRoundTrip | include/Msg.h:17-22 | Parsing the 8 serialised bytes of a header gives the header back. |
| Frames.BytesRoundTrip | include/Msg.h:17-22 | Serialising the header parsed from 8 bytes gives the bytes back. |
| Frames.EncodeThenCheck | include/Msg.h:101-133 | For every int length, `encodeMsg` then `checkHeader` accepts iff its 16-bit wrap is at most 1024, whatever the result code, and the length reads back iff it fits in 16 bits. |
| Frames.ResultsCollide | include/Msg.h:121-133 | Two result codes give the same message iff they are congruent modulo 256. |
| Frames.EncodedBytes | include/Msg.h:121-133 | Every byte of an encoded message: 1, the result modulo 256, the length modulo 65536, the id, then the first `dataLength` bytes of the data if any are copied, and otherwise what the object held. |
| Frames.EncodedFrame | include/Msg.h:121-133 | The frame of an encoded message is its header and its data, independent of what the object held. |
| Frames.SetBodyLengthChecks | include/Msg.h:94-99 | After `setBodyLength` the length passes `checkHeader` and the rest is kept; it is 1024 if the 16-bit wrap exceeds 1024 and that wrap otherwise, so the one asked for iff it lies in -32768..1024. |
| Interleaving.FreeListIsAQueue | Src/TcpServer.cpp:46-56 | With handlers interleaved at the mutex and no assumption on reports: the ids of the sessions opened, then one just taken, then the free list, are 1..max followed by the ids given back, each in order. |
| Interleaving.IdsStayPartitioned | Src/TcpServer.cpp:46-112 | With one report a session, every id 1..max is in exactly one of free, closing, opening, live, and the registry holds exactly the sessions that have not reported. |
| Interleaving.PartitionedIffReportsOnce | Src/TcpServer.cpp:46-112 | In every run: the ids stay partitioned, and the registry agrees with history, throughout if and only if no session reports closed twice. |
| Interleaving.WhenPopMeetsEmptyList | Src/TcpServer.cpp:86-98 | In every run, whatever sessions report: behind the guard the free list is empty iff the sessions opened outnumber the ids given back by the capacity, which is iff the ids being closed plus the sessions opened equal the reports made plus the capacity. |
| Interleaving.WhenClosingTakesAll | Src/TcpServer.cpp:86-98 | If no session has reported closed twice: behind the guard the free list is empty iff the ids being closed account for all capacity the live sessions leave. |
| Interleaving.ClosingCanExceedCapacity | Src/TcpServer.cpp:46-56 | That proviso is needed: a run with two reports of one session in which the list is empty and the ids being closed exceed the capacity. |
| Interleaving.PopCanMeetEmptyList | Src/TcpServer.cpp:46-56 | A run with capacity 1 reaches that state. |
| Interleaving.EmptyOnlyWhileClosing | Src/TcpServer.cpp:86-98 | Whatever sessions report, the list behind the guard is empty only while a close is under way. |
| Handlers.NeverPopsEmptyList | Src/TcpServer.cpp:86-98 | With atomic handlers an accept below capacity always finds a free id, whatever sessions have reported. |
| Handlers.FreeListIsAQueue | Src/TcpServer.cpp:7-15 | Before `stop`, with no assumption on reports: the ids of the sessions opened followed by the free list are 1..max followed by the ids given back, each in order. |
| Handlers.FreeListIsConserved | Src/TcpServer.cpp:46-56 | Hence, for every id: copies in the free list are 1 plus the closes for it minus the accepts that took it. |
| Handlers.FreeCopies | Src/TcpServer.cpp:46-56 | Before `stop`, for every id: copies in the free list plus the sessions opened with it equal 1 plus the close reports of those sessions. |
| Handlers.ExactIffReportsOnce | Src/TcpServer.cpp:46-112 | In every run not stopped, id lists and registry are exact after every part of it if and only if no session reports closed twice. |
| Handlers.SecondReportDuplicates | Src/TcpServer.cpp:46-56 | A run of the handlers with two reports of one session ends with its id twice in the free list. |
| Handlers.ExactFreeList | Src/TcpServer.cpp:11-13 | In an exact server each id 1..max is free once or live, and not both. |
| Handlers.GetSessionAgrees | Src/TcpServer.h:37-42 | In every run: `getSession` finds, under an id no session has given back twice, the one session opened with it that has not reported closed, and nothing iff there is none; after `stop` it finds nothing. |
| Handlers.RegistrationLifetime | Src/TcpServer.cpp:29-112 | In every run, whatever sessions report, for every next event: a registered session stays registered until `stop` or a close report for its id, an accept never displaces one, and a new session is registered iff its id is not taken. |
| Handlers.RegisteredIffUndisturbed | Src/TcpServer.cpp:29-112 | In every run, whatever sessions report: a session is registered iff its id was not taken when it was opened and since then neither `stop` nor a close report for its id has come. |
| Handlers.AcceptOutcome | Src/TcpServer.cpp:79-116 | An accept completing without error opens one session with the front id and re-arms, exactly when running below capacity; otherwise it only ends the accept chain. |
| Handlers.AcceptChain | Src/TcpServer.cpp:72-117 | In every run at most one accept is outstanding and live sessions never exceed the capacity. |
| Handlers.AcceptChainEnds | Src/TcpServer.cpp:79-94 | In every run, once an accept completes with an error, at capacity or after `stop`, no session is opened in any continuation. |
| Handlers.NoAcceptForever | Src/TcpServer.cpp:80-94 | Once no accept is outstanding, no session is opened in any continuation. |
| Handlers.NothingBeforeStart | Src/TcpServer.cpp:29-32 | Whatever is called before the start changes nothing, `stop` included; the start then arms one accept. |
| Handlers.StopIsFinal | Src/TcpServer.cpp:29-44 | After `stop`, in every continuation: stopped, no session registered or opened, and the free list grown by exactly the ids given back, in order. |
| Handlers.FreeAfterStop | Src/TcpServer.cpp:40-41 | Whatever the free list holds after `stop` came from reports made after it. |
| Message.Msg.EncodeMsg | include/Msg.h:121-133 | The in-place method yields the image that the codec lemmas are about, and these bytes in these places. |
| Message.Msg.SetBodyLength | include/Msg.h:94-99 | The in-place method yields the image that the codec lemmas are about. |
| Message.Msg.CheckHeader | include/Msg.h:101-119 | True exactly for accepted headers: byte 0 is 1 and bytes 2-3 are negative or at most 1024. |
| TcpSessions.TcpSession.Start | Src/TcpSession.cpp:47-58 | Leaves the session open with a header read outstanding and untouched counters. |
| TcpSessions.TcpSession.Send | Src/TcpSession.cpp:170-203 | Does the send step, starting a write only when none is outstanding. |
| TcpSessions.TcpSession.HandleWrite | Src/TcpSession.cpp:205-232 | Does the write step, starting the next write iff there was no error and the queue is not empty; reports `Disconnected` for eof and aborted operations, `ActiveClose` for other errors, and nothing otherwise. |
| TcpSessions.TcpSession.HeaderCompleted | Src/TcpSession.cpp:79-136 | Does the header step, re-reading a rejected header and asking for the body of an accepted one; no read is outstanding afterwards iff there was an error. |
| TcpSessions.TcpSession.BodyCompleted | Src/TcpSession.cpp:138-152 | Does the body step up to the call of the message handler, leaving a whole frame in `_msg` and no read outstanding; on error reports closed, with the same reasons as a write. |
| TcpServers.TcpServer.constructor | Src/TcpServer.cpp:7-15 | Fills the free list with 1..maxSession in order. |
| TcpServers.TcpServer.Listen | Src/TcpServer.cpp:58-70 | Starts the server and arms the first accept. |
| TcpServers.TcpServer.AcceptCompleted | Src/TcpServer.cpp:79-117 | Does the accept step on the objects; a session results exactly when running below capacity without error, in its opened state and with a message buffer of its own. |
| TcpServers.TcpServer.HandleClose | Src/TcpServer.cpp:46-56 | Does the close step of that session: erases whatever is under its id and gives the id back. |
| TcpServers.TcpServer.Stop | Src/TcpServer.cpp:29-44 | Does the stop step: when started, stopped with empty registry and free list; otherwise nothing changes. |
| TcpServers.TcpServer.GetSession | Src/TcpServer.h:37-42 | Returns the object of the session that the specification finds, or null. |
| TcpServers.TcpServer.RegisteredObjects | Src/TcpServer.h:61 | The map holds distinct objects, those of the sessions registered in the specification. |
| ChatServers.ChatServer.NfMessage | chat_server/ChatServer.cpp:107-126 | Every registered session but the sender does the send step with the sender's message; nothing else changes. |
| ChatServers.ChatServer.MessageHandler | chat_server/ChatServer.cpp:73-93 | Every registered session but the sender gets the message iff its bytes 4-7 are 3, 0, 0, 0; for any other message nothing is sent. |
| ChatServers.ChatServer.DispatchBody | Src/TcpSession.cpp:149-157 | The message is dispatched with `_msg` untouched, and then the next header is asked for. |
| ChatServers.ChatServer.HandleBody | Src/TcpSession.cpp:127-157 | The handler of a completed body on its own: the session's step, and the broadcast of the message just received. |
| ChatServers.ChatServer.OnAccept | Src/TcpServer.cpp:79-117 | Keeps the objects in the state of the whole-system machine and does its accept event with what the new session holds. |
| ChatServers.ChatServer.OnHeader | Src/TcpSession.cpp:79-136 | The same for a completed header read; no read is outstanding afterwards iff there was an error. |
| ChatServers.ChatServer.OnBody | Src/TcpSession.cpp:127-157 | The same for a completed body read: the broadcast to every registered session, or the close report and what the server does with it. |
| ChatServers.ChatServer.OnWrite | Src/TcpSession.cpp:205-232 | The same for a completed write, close report included. |
| ChatServers.ChatServer.StopServer | Src/TcpServer.cpp:29-44 | The same for `stop`. |
| ChatServers.ChatServer.QueuesFollowLog | chat_server/ChatServer.cpp:116-125 | For the objects: what was written at a session followed by its `_sendQue` is the others' broadcasts made while it was registered, in order. |
| IoServicePools.IoServicePool.constructor | Src/IoServicePool.cpp:6-17 | Makes as many services as asked for, all distinct. |
| IoServicePools.LoadIsBalanced | Src/IoServicePool.cpp:19-28 | After k calls slot i was returned (k - i) / n times rounded up, 0 if k <= i; any two loads differ by at most one. |
| IoServicePools.IoServicePool.GetIoService | Src/IoServicePool.cpp:19-28 | The k-th call returns slot k modulo the size, and the index is always in range. |

## Left out

- Sockets, endpoints, socket options, acceptor setup, threads and `io_service::run`: foreign calls.
- Short reads of `async_read_some`: see the assumption on full reads above.
- A second start of the server, and starting it with an io service pool of size 0.
- `stop` while an accept or close handler is between its steps: `Interleaving` covers runs before `stop`, `Handlers` covers `stop` between handlers.
- What `front` and `pop_front` do on an empty deque, and what `memcpy` in `encodeMsg` does when the un-narrowed length exceeds the body or the data: undefined in the source.
- What a write of a message with a negative length, or longer than the object, puts on the wire; queue and counter are modelled for every message, bytes for whole messages only.
- Data races on `_sendQue` and `_free_session_id`: each deque operation is one step.
- Closing the sockets in `stop`: later completions of the sessions' operations, with or without error, are all allowed.
- chat_server/Redis.cpp and the ranking commands in `rqCreateUser` and `nfMessage`: foreign calls without effect on the modelled state.
- The opened and closed callbacks of the chat server, which only log; its `stop`, which only stops the io_service; and that it does not start when Redis cannot be reached.
- Src/IpcSession.cpp, Src/IpcServer.h, Src/UdpSession.cpp, chat_server/HandleMsg.cpp, Room and Character: not in the build.
- The clients' user interfaces, signals, daemonising, logging and configuration.
