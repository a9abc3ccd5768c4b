# InetChat relay core in Dafny

A model of the sequential logic inside the InetChat socket chat relay:

- **Frame** (`Frame.dfy`): the wire frame the server forwards, a 4-byte
  network-order sender id (`htonl` of the client descriptor) followed by the
  bytes it read, and how both clients take it apart again (`ntohl`, the NUL
  store at `buffer[valread]`, the C string at `buffer + 4`) and print it as
  `<prefix><id>: <text>`. It also holds the decimal formatting of the id and a
  parser for display lines, used to show that a display line gives back the
  id and the text.
- **Server** (`Server.dfy`): the `Server::loop` event loop. The registry
  `client_fds` is a `seq<int>` field of the class `ChatServer`, and the shared
  read buffer is an `array`. One ready descriptor (`HandleReady`) accepts and
  registers a new connection, removes a connection whose read returned zero
  or less, or broadcasts a frame to every other connection. The batch loop
  (`HandleWakeup`) and the `while (true)` loop (`Loop`) handle the events in
  order, and only a failed `epoll_wait` ends them. Each method is proved
  against pure functions (`Dispatch`, `DispatchAll`, `RunAll`), and the
  lemmas about them state the broadcast, removal and accept rules.
- **Session** (`Session.dfy`): the reconnecting client in
  `Client/src/Client.cpp`. Its three threads (`sendThread`, `recvThread`,
  `connectionCheckThread`) share `is_connect_`, `exit_flag` and the
  supervisor's `retry_count`. Each loop iteration is one step whose I/O
  outcome is an input, and steps of the three activities interleave
  arbitrarily (`Run`). The class `Client` holds the flags, the receive buffer
  and the lines handed to the logger.
- **Logger** (`Logger.dfy`): `MessageLogger`'s double buffer. `saveMessage`
  swaps at the 1024-character threshold, a writer drains the flush buffer to
  the file, `flushBuffer` runs at the end, and the destructor stops and joins
  the writers first. The file is a ghost string. Whole histories of saves and
  drains are modelled (`Apply`), together with the invariant that nothing
  saved is lost; a drain there is one atomic step. A separate model splits
  the writer's pass into the take under the lock and the append after it.
- **EarlyClient** (`EarlyClient.dfy`): the earlier client in
  `frontEnd/src/Client.cpp`. Its receive loop prints a line for every
  positive receive, read from a buffer it never clears, and stops at the
  first receive of zero or less. Its send loop forwards every line
  and only reports failures.

System calls are replaced by their outcomes, passed in as parameters:
`accept`, `fcntl`, `epoll_ctl`, `epoll_wait`, `read`, `recv`, `send` and
`connect`. Standard input becomes the input lines.

## Model

| member | source | states |
|---|---|---|
| Frame.ToU32 | backEnd/src/Server.cpp:161 | `htonl` takes the descriptor as a uint32: the result is below 2^32, equals a non-negative descriptor, and is x + 2^32 for a negative one |
| Frame.ToInt32 | Client/src/Client.cpp:113-115 | assigning the `ntohl` result to `int` gives a value in the int32 range that converts back to the same uint32 |
| Frame.Int32RoundTrip | Client/src/Client.cpp:113-115 | every int32 id survives the trip through the unsigned wire value |
| Frame.BigEndian | backEnd/src/Server.cpp:161-162 | the id prefix is exactly 4 bytes |
| Frame.FromBigEndian | frontEnd/src/Client.cpp:79-81 | the value of 4 bytes read in network order fits in 32 bits |
| Frame.FromBigEndianOfBigEndian | backEnd/src/Server.cpp:161-162 | reading back the 4 bytes `htonl` laid out gives the value |
| Frame.BigEndianOfFromBigEndian | frontEnd/src/Client.cpp:79-81 | laying out the value read from 4 bytes gives the same bytes |
| Frame.Encode | backEnd/src/Server.cpp:160-163 | a frame is valread + 4 bytes long |
| Frame.Decode | Client/src/Client.cpp:113-118 | decoding fails exactly when the frame is shorter than the id; otherwise the payload is everything after the id and the sender is an int32 |
| Frame.EncodeDecode | frontEnd/src/Client.cpp:79-83 | every frame of at least 4 bytes is the encoding of what it decodes to |
| Frame.DecodeEncode | backEnd/src/Server.cpp:160-163 | decoding a frame the server built gives back the origin descriptor and exactly the bytes read |
| Frame.UntilNul | Client/src/Client.cpp:111-118 | the C string at a position is the longest NUL-free prefix, stopped by the first NUL |
| Frame.UntilNulStops | Client/src/Client.cpp:111 | after the NUL store, the C string ends at the NUL whatever follows it |
| Frame.UntilNulNoNul | frontEnd/src/Client.cpp:83 | a payload without NUL bytes is shown in full |
| Frame.ToText | Client/src/Client.cpp:117-118 | the text has one character per byte, with the same code |
| Frame.Received | Client/src/Client.cpp:109-111 | recv and the NUL store keep the buffer's size |
| Frame.Zeros | Client/src/Client.cpp:103 | the receive buffer declared with `{}` is kBufferSize zero bytes |
| Frame.NewBuffer | frontEnd/src/Client.cpp:66 | a fresh receive buffer holds exactly the zero bytes |
| Frame.ReceivedLayout | Client/src/Client.cpp:109-111 | after recv and the NUL store the buffer starts with the data, has the NUL at index valread, and keeps the older bytes after it |
| Frame.ShownAsWritten | frontEnd/src/Client.cpp:77-83 | what the code reads back from the buffer: the text never contains a NUL |
| Frame.Shown | Client/src/Client.cpp:109-118 | a received frame is discarded exactly when it is shorter than the id |
| Frame.ShownAsWrittenOnFrames | Client/src/Client.cpp:109-118 | for a receive of at least 4 bytes, the as-written read of the buffer equals the decoded frame with its text cut at the first NUL, whatever earlier receives left in the buffer |
| Frame.ShownEncode | backEnd/src/Server.cpp:160-163 | a frame the server built with a NUL-free payload is shown with its origin and payload |
| Frame.ReceivedEncodeShown | Client/src/Client.cpp:109-118 | a server frame with a NUL-free payload, received into a buffer holding anything at all, is shown with its origin and payload |
| Frame.ShortReadKeepsText | Client/src/Client.cpp:109-118 | as written, a receive of 1 to 3 bytes shows as text whatever earlier receives left at buffer + 4 |
| Frame.ReceiveInto | Client/src/Client.cpp:109-118 | a positive receive of any length leaves the buffer as Received describes and shows what ShownAsWritten reads from it, with no check that 4 bytes arrived |
| Frame.ShortReadShowsStale | frontEnd/src/Client.cpp:68-83 | as written, a 2-byte receive after a frame carrying "hi" shows "hi" again, although Shown discards it |
| Frame.DigitChar | Client/src/Client.cpp:118 | each digit becomes the character with that digit's value |
| Frame.Digits | Client/src/Client.cpp:118 | a non-negative number prints as a non-empty string of digits |
| Frame.DigitsNoLeadingZero | Client/src/Client.cpp:118 | the digits start with '0' exactly when the number is 0 |
| Frame.Decimal | Client/src/Client.cpp:118 | `std::to_string` of an id is non-empty and holds no ':' |
| Frame.ParseDigitsOfDigits | Client/src/Client.cpp:118 | reading printed digits back gives the number |
| Frame.DecimalRoundTrip | Client/src/Client.cpp:118 | a printed id, negative ones included, is a well-formed decimal that reads back to the id |
| Frame.DisplayLine | Client/src/Client.cpp:117-118 | the line's length is the prefix, the id's digits, ": " and the text |
| Frame.DisplayLineRoundTrip | Client/src/Client.cpp:117-118 | a display line determines the id and the text: parsing it gives both back |
| Server.ReadRequestOverflows | backEnd/src/Server.cpp:147-163 | as written, read may return kBufferSize bytes, and then the NUL store is out of bounds; any count above 1020 already overflows `message` |
| Server.ReadLimitFits | backEnd/src/Server.cpp:157-163 | with reads capped at kBufferSize - 4 every positive count fits both stores, and no larger cap does |
| Server.Without | backEnd/src/Server.cpp:152-154 | erase/remove keeps exactly the other descriptors and never grows the registry |
| Server.WithoutAppend | backEnd/src/Server.cpp:152-154 | removal keeps the relative order of the rest |
| Server.WithoutAbsent | backEnd/src/Server.cpp:152-154 | removing an unregistered descriptor changes nothing |
| Server.WithoutDistinct | backEnd/src/Server.cpp:152-154 | removal keeps the registry free of duplicates |
| Server.BroadcastSpec | backEnd/src/Server.cpp:165-169 | the broadcast targets are exactly the registered descriptors other than the origin, in registry order, and every send carries the whole frame |
| Server.BroadcastAppend | backEnd/src/Server.cpp:165-169 | one more registered descriptor adds one send at the end, unless it is the origin |
| Server.Broadcast | backEnd/src/Server.cpp:165-169 | defines the sends of a broadcast: one per registered descriptor other than the origin, in order, each carrying the frame |
| Server.Dispatch | backEnd/src/Server.cpp:111-171 | defines one ready descriptor's effect: accept and register, remove on a read of zero or less, or broadcast the frame |
| Server.DispatchAll | backEnd/src/Server.cpp:111-172 | defines one epoll_wait batch: its events dispatched in order, each against the registry the earlier ones left |
| Server.RunAll | backEnd/src/Server.cpp:100-173 | defines the loop: batches handled in order until the first failed epoll_wait, after which nothing is handled |
| Server.FirstFailure | backEnd/src/Server.cpp:105-109 | the loop serves every epoll_wait return before the first failure, and stops at that failure |
| Server.NoEcho | backEnd/src/Server.cpp:165-169 | no event sends anything back to the descriptor it came from |
| Server.ReadBroadcasts | backEnd/src/Server.cpp:155-169 | a positive read leaves the registry unchanged and sends, to every other registered descriptor in order, htonl(origin) followed by exactly the valread bytes read, valread + 4 bytes in all |
| Server.ReadEndRemoves | backEnd/src/Server.cpp:147-154 | a read of zero or less removes every occurrence of the descriptor, keeps the others in order, and sends nothing |
| Server.AcceptAppends | backEnd/src/Server.cpp:112-141 | an event on the listening socket appends the new descriptor exactly when accept, the non-blocking setup and epoll_ctl all succeed; any failure leaves the registry unchanged; it never sends |
| Server.DispatchDistinct | backEnd/src/Server.cpp:112-154 | while accept hands out unregistered descriptors, no event introduces a duplicate |
| Server.AbsentNeverTargeted | backEnd/src/Server.cpp:111-172 | over a batch of events, an unregistered descriptor that is not accepted again is never sent to and stays unregistered |
| Server.DisconnectedNeverTargeted | backEnd/src/Server.cpp:147-169 | after a disconnect, the rest of the batch never sends to that descriptor unless it is accepted again |
| Server.DispatchAllAppend | backEnd/src/Server.cpp:111-172 | handling a batch in two parts is the same as handling it at once |
| Server.DispatchAllDistinct | backEnd/src/Server.cpp:111-172 | while every accept in a batch yields an unregistered descriptor, the batch keeps the registry free of duplicates |
| Server.RunAllDistinct | backEnd/src/Server.cpp:100-173 | under the same condition for every served batch, the whole loop keeps the registry free of duplicates |
| Server.RunAbsentNeverTargeted | backEnd/src/Server.cpp:100-173 | over the whole loop, an unregistered descriptor that no served batch accepts again is never sent to and stays unregistered |
| Server.ThreeClients | backEnd/src/Server.cpp:155-169 | with A, B and C registered and A sending "hello", B and C each get a frame that decodes to A and "hello", and A gets nothing |
| Server.ChatServer.constructor | backEnd/src/Server.cpp:97-98 | the loop starts with an empty registry |
| Server.ChatServer.BroadcastExcept | backEnd/src/Server.cpp:165-169 | the send loop issues exactly the broadcast sends |
| Server.ChatServer.HandleReady | backEnd/src/Server.cpp:111-171 | one ready descriptor updates the registry and issues the sends as Dispatch says, with the buffer and message stores in bounds |
| Server.ChatServer.HandleWakeup | backEnd/src/Server.cpp:111-172 | the for loop over one epoll_wait return does what DispatchAll says |
| Server.ChatServer.Loop | backEnd/src/Server.cpp:100-173 | the while loop serves the returns up to the first failed epoll_wait and ends with the registry and sends RunAll gives for the whole trace |
| Session.NextKeepsInv | Client/src/Client.cpp:140-166 | every iteration of every thread keeps retry_count in 0..kMaxRetries, and no loop ends before exit is requested |
| Session.RunKeepsInv | Client/src/Client.cpp:140-166 | under every interleaving of the three threads retry_count stays within 0..kMaxRetries |
| Session.SendNext | Client/src/Client.cpp:71-95 | defines a send iteration's flags: "exit" sets exit_flag and clears is_connect_, a failed send other than would-block clears is_connect_ |
| Session.SendLog | Client/src/Client.cpp:81-93 | defines a send iteration's log: the line when send returned a positive count |
| Session.RecvNext | Client/src/Client.cpp:105-135 | defines a receive iteration's flags: exit ends the loop, zero or a failure other than would-block clears is_connect_ |
| Session.RecvLog | Client/src/Client.cpp:105-120 | defines a receive iteration's log: one line read from the buffer for every positive receive |
| Session.CheckNext | Client/src/Client.cpp:141-169 | defines a supervisor iteration taken as one step: exit ends the loop, otherwise CheckRest |
| Session.CheckRest | Client/src/Client.cpp:146-166 | defines the supervisor after its exit test: nothing while connected, give up at the ceiling, otherwise one reconnect attempt |
| Session.Next | Client/src/Client.cpp:56-64 | defines one step of one of the three threads |
| Session.Run | Client/src/Client.cpp:56-64 | defines an interleaving of the three threads as steps applied in order |
| Session.CheckStepOutcome | Client/src/Client.cpp:158-166 | a reconnect attempt that succeeds sets is_connect_ and resets the count to 0; one that fails adds exactly one and leaves the connection lost |
| Session.CeilingStops | Client/src/Client.cpp:146-151 | disconnected at the ceiling, the supervisor sets exit_flag and stops without another attempt |
| Session.FailuresCount | Client/src/Client.cpp:146-166 | failed attempts below the ceiling only count up, one each |
| Session.FailuresThenSuccess | Client/src/Client.cpp:146-166 | k < 5 failed attempts and then a success end connected, with the count back at 0 and k + 1 attempts made |
| Session.FiveFailuresTerminate | Client/src/Client.cpp:146-151 | after 5 failed attempts in a row the next supervisor iteration sets exit_flag and stops, after exactly 5 attempts |
| Session.RunAppend | Client/src/Client.cpp:56-64 | running two stretches of steps one after the other is running them together |
| Session.FailedAttemptsBounded | Client/src/Client.cpp:139-170 | whatever the other threads do, while no reconnect succeeds each attempt adds one to the count, so at most kMaxRetries attempts fail in a row |
| Session.ExitIsFinal | Client/src/Client.cpp:105-107 | once exit is requested it stays requested, no further reconnection is attempted, and neither the count nor the connection comes back |
| Session.ExitBetweenChecksReconnects | Client/src/Client.cpp:142-161 | as written, "exit" read between the supervisor's exit_flag and is_connect_ tests leads to a reconnect after exit: a success sets is_connect_ and resets the count, a failure counts one more |
| Session.ExitStopsLoops | Client/src/Client.cpp:105-107 | with exit requested the next receive and supervisor iterations end their loops and log nothing |
| Session.ExitLine | Client/src/Client.cpp:75-79 | the line "exit" sets exit_flag, clears is_connect_ and ends the send loop, logging nothing |
| Session.SendOutcomes | Client/src/Client.cpp:81-93 | a positive send count logs exactly the line; would-block logs nothing, changes no flag and moves on to the next line; any other failure only clears is_connect_ |
| Session.RecvShowsServerFrame | Client/src/Client.cpp:109-120 | a server frame, received into a buffer holding anything at all, is logged as "          user <id>: <payload>", changes no flag, and the logged line gives back the id and the payload |
| Session.RecvOutcomes | Client/src/Client.cpp:109-135 | zero bytes or a failure clears is_connect_ and logs nothing, would-block changes nothing, and every positive receive logs exactly one line, the decoded frame when at least 4 bytes arrived |
| Session.ShortRecvLogsStale | Client/src/Client.cpp:109-120 | as written, a receive of 1 to 3 bytes still logs a line: its id comes from those bytes, the NUL and the older buffer bytes after them, and its text is what earlier receives left at buffer + 4 |
| Session.Client.constructor | Client/src/Client.cpp:24-29 | the client starts connected, with no exit requested, a retry count of 0 and a zeroed receive buffer |
| Session.Client.SendIteration | Client/src/Client.cpp:71-95 | one send iteration changes the flags and the log as SendNext and SendLog say |
| Session.Client.RecvIteration | Client/src/Client.cpp:104-136 | one receive iteration changes the flags, the buffer and the log as RecvNext, Received and RecvLog say |
| Session.Client.CheckIteration | Client/src/Client.cpp:141-169 | one supervisor iteration changes the flags as CheckNext says and logs nothing |
| Logger.Line | frontEnd/src/MessageLogger.cpp:43 | the stored record is the message followed by a newline |
| Logger.SaveEndsWithLine | frontEnd/src/MessageLogger.cpp:43 | after saveMessage(m) the write buffer ends with m and a newline |
| Logger.SaveCases | frontEnd/src/MessageLogger.cpp:38-43 | with a swap the flush buffer becomes the old write buffer and the write buffer m + "\n"; without one the flush buffer is untouched and the line is appended; the file never changes |
| Logger.SaveBound | frontEnd/src/MessageLogger.cpp:13 | after saveMessage(m) the write buffer holds at most max(1024, \|m\| + 1) characters |
| Logger.Save | frontEnd/src/MessageLogger.cpp:36-44 | defines saveMessage: swap and clear the write buffer at the threshold, then append the line |
| Logger.SaveKeepsNoLoss | frontEnd/src/MessageLogger.cpp:36-44 | saveMessage keeps every saved line in order when the flush buffer is empty at a swap |
| Logger.SaveDiscardsUndrained | frontEnd/src/MessageLogger.cpp:39-41 | as written, a swap while the flush buffer is undrained discards its contents |
| Logger.DrainSpec | frontEnd/src/MessageLogger.cpp:64-75 | a writer appends the flush buffer to the file, empties it, leaves the write buffer alone and loses nothing |
| Logger.Drain | frontEnd/src/MessageLogger.cpp:61-81 | defines a writer pass taken as one step: the flush buffer appended to the file and emptied |
| Logger.Take | frontEnd/src/MessageLogger.cpp:63-69 | defines the part of a writer pass under the lock: the flush buffer moved into that writer's local string |
| Logger.Append | frontEnd/src/MessageLogger.cpp:72-75 | defines the part of a writer pass after the unlock: the writer's local string appended to the file |
| Logger.AppendOutsideLockReorders | frontEnd/src/MessageLogger.cpp:61-81 | as written, two writers that take in one order and append in the other put later lines before earlier ones in the file |
| Logger.FlushSpec | frontEnd/src/MessageLogger.cpp:83-98 | flushBuffer changes nothing on an empty write buffer; otherwise it appends the old write buffer to the file, leaves the flush buffer empty and the old flush buffer in the write buffer |
| Logger.Flush | frontEnd/src/MessageLogger.cpp:83-98 | defines flushBuffer: on a non-empty write buffer, swap and write the old write buffer |
| Logger.AfterShutdown | frontEnd/src/MessageLogger.cpp:25-34 | defines the destructor: possibly one last drain, then the final flush |
| Logger.ShutdownNoLoss | frontEnd/src/MessageLogger.cpp:25-34 | a shutdown whose final flush finds the flush buffer drained leaves every saved line in the file and both buffers empty |
| Logger.FlushStrandsUndrained | frontEnd/src/MessageLogger.cpp:25-34 | as written, an undrained flush buffer at the final flush never reaches the file |
| Logger.HistoryNoLoss | frontEnd/src/MessageLogger.cpp:36-81 | every history of saves and drains in which each swap finds the flush buffer drained keeps every saved line, in call order |
| Logger.HistoryThenShutdown | frontEnd/src/MessageLogger.cpp:25-44 | such a history followed by a shutdown with the flush buffer drained leaves exactly the saved lines, in call order, in the file |
| Logger.FixedSaveKeepsNoLoss | frontEnd/src/MessageLogger.cpp:38-43 | the corrected hand-over keeps every line at every save and keeps the same size bound |
| Logger.SaveFixed | frontEnd/src/MessageLogger.cpp:38-43 | defines the corrected hand-over: at the threshold the write buffer is moved behind the undrained flush buffer instead of swapped with it, and the write buffer restarts with the line |
| Logger.FlushFixed | frontEnd/src/MessageLogger.cpp:83-98 | defines the corrected final flush: both buffers written, flush buffer first |
| Logger.FixedHistoryNoLoss | frontEnd/src/MessageLogger.cpp:36-81 | with the corrected hand-over every history of saves and drains keeps every saved line, in call order, with no condition on the writers |
| Logger.FixedHistoryThenFlush | frontEnd/src/MessageLogger.cpp:25-34 | with both corrections every history followed by the final flush leaves exactly the saved lines in the file |
| Logger.MessageLogger.constructor | frontEnd/src/MessageLogger.cpp:19-23 | the logger starts running with empty buffers and an empty file |
| Logger.MessageLogger.SaveMessage | frontEnd/src/MessageLogger.cpp:36-44 | saveMessage changes the buffers as Save says and keeps no-loss when the flush buffer was drained before a swap |
| Logger.MessageLogger.WorkerDrain | frontEnd/src/MessageLogger.cpp:61-81 | one writer pass changes the state as Drain says and keeps no-loss |
| Logger.MessageLogger.FlushBuffer | frontEnd/src/MessageLogger.cpp:83-98 | flushBuffer changes the state as Flush says |
| Logger.MessageLogger.Shutdown | frontEnd/src/MessageLogger.cpp:25-34 | the destructor stops the writers, lets one drain last, then flushes; the file then holds every saved line when the flush buffer was drained |
| EarlyClient.FirstEnd | frontEnd/src/Client.cpp:67-76 | the receive loop handles every receive before the first of zero or less, and stops at that one |
| EarlyClient.BufferAfter | frontEnd/src/Client.cpp:66-77 | defines the shared buffer after k receives: zero at first, each positive receive written over it with its NUL |
| EarlyClient.ShownFor | frontEnd/src/Client.cpp:68-83 | defines what the first k receives print: for each, the id and text read from the buffer it left |
| EarlyClient.RecvLoop | frontEnd/src/Client.cpp:65-85 | the receive loop stops at the first receive of zero or less and shows, in order and however short each receive was, what the shared buffer held after each receive before it |
| EarlyClient.ServerFramesShown | frontEnd/src/Client.cpp:77-83 | a sequence of whole server frames with NUL-free payloads, received one per recv, is shown in order with each frame's origin and payload |
| EarlyClient.FailedAtSound | frontEnd/src/Client.cpp:58-60 | every reported send failure is one that failed |
| EarlyClient.FailedAtComplete | frontEnd/src/Client.cpp:58-60 | every failed send is reported |
| EarlyClient.FailedAtIncreasing | frontEnd/src/Client.cpp:58-60 | failures are reported in order, none twice |
| EarlyClient.FailedAt | frontEnd/src/Client.cpp:58-60 | defines the reported failures: the indices of the sends that returned a negative count |
| EarlyClient.SendLoop | frontEnd/src/Client.cpp:53-62 | every input line is sent as it is, and the failures reported are exactly FailedAt |

## Left out

- Sockets, `bind`, `listen`, `connect`, `inet_pton`/`inet_ntoa`, `fcntl`, `epoll_create`: their results are inputs (`AcceptResult`, `Ready`, `Wakeup`, `SendOutcome`, `RecvOutcome`, the reconnect flag). `SetNonBlocking` and `setNonBlocking` appear only as the `nonBlockOk` outcome.
- Threads, atomics, the mutex and the condition variable are not modelled as concurrency. The three client threads are interleaved steps (`Session.Run`), each loop iteration one step.
- Session.ExitIsFinal: holds for supervisor iterations taken as one step (`Session.Run`, `Session.CheckNext`). The code tests exit_flag and is_connect_ at two moments, and "exit" can land in between (see Findings, `Session.ExitBetweenChecksReconnects`).
- Session.Run: the socket `createClientSocket` opens on a reconnect is never made non-blocking, so from then on `recv` can block, and the receive thread may not test exit_flag again. A receive outcome is an input here, so a call that never returns is not modelled.
- Logger.HistoryNoLoss, Logger.HistoryThenShutdown, Logger.MessageLogger.WorkerDrain: a writer pass is one atomic `Drain` step. The code appends to the file after releasing the lock, and there are two writers, so passes can reach the file in another order (see Findings, `Logger.AppendOutsideLockReorders`).
- Every string is read as one character per byte, as `Frame.ToText` does: `std::string::size` counts bytes, and `Logger.Swaps` uses `|m|` on that reading. Multi-byte encodings are not modelled.
- Recv boundaries are taken to be frame boundaries in `EarlyClient.ServerFramesShown` and `Session.RecvShowsServerFrame`: TCP may split or join frames, and that case is only covered by the as-written `ShownAsWritten` read of the buffer.
- The race in which the supervisor closes the socket while the send or receive thread is using it is not modelled.
- Sleeps and back-off intervals are not modelled, because they affect timing only.
- The signal handler and `std::exit`, every `main`, the constructors' socket setup, and `MessageLogger::printMessage` (reading the log file to standard output) are not modelled.
- Diagnostics on standard output and standard error are not modelled.
- The log file is a ghost string: failing to open it is not modelled.
- kMaxEvents (at most 10 events per `epoll_wait` return) is not enforced, because a batch of any length is handled the same way.
- Server.DispatchDistinct: assumes that accept never returns a descriptor that is still registered. This is the kernel's promise, so it is a precondition.
- The server loop and both client loops run over a finite trace of outcomes, not forever.
- Session.Client.RecvIteration: the receive buffer is shared with no other thread. The logger object is not embedded in the client: `log` records the lines handed to `saveMessage`, and the logger is modelled on its own.
- EarlyClient.RecvLoop: returns the id and text of each printed line rather than the line itself. The line is `DisplayLine(EarlyPrefix, h)`, and `Frame.DisplayLineRoundTrip` shows it determines both parts.
- A would-block send moves on to the next input line (the `continue` in `sendThread`), so the line is not sent again. Where the design description says the same message is retried, the model follows the code.
- Logger.MessageLogger.SaveMessage: its no-loss clause is conditional because the code as written loses lines otherwise (see Findings). The corrected hand-over is proved on the `Fixed` functions, not on the class.

## Findings

| source | as written | input that shows it | evidently intended | confidence | as-written member | corrected member |
|---|---|---|---|---|---|---|
| backEnd/src/Server.cpp:147-163 | `read(client_fd, buffer, kBufferSize)` may return 1024 bytes. Then `buffer[valread] = '\0'` writes one past the buffer, and any valread above 1020 makes `memcpy(message + 4, buffer, valread)` overflow `message[kBufferSize]` | a client sends 1024 bytes in one read (or 1021) | read at most kBufferSize - 4 bytes, so both stores fit | not executed | Server.ReadRequestOverflows | Server.ReadLimitFits (ReadFits in Server.ChatServer.HandleReady) |
| Client/src/Client.cpp:109-118, frontEnd/src/Client.cpp:68-83 | the id is read from the first 4 buffer bytes and the text from `buffer + 4` with no check that at least 4 bytes arrived, so a short receive shows bytes left over from an earlier frame | frame from 7 carrying "hi", then a 2-byte receive "AB": "hi" is shown again | discard a receive shorter than the id | not executed | Frame.ShortReadShowsStale | Frame.Shown |
| frontEnd/src/MessageLogger.cpp:39-41 | the swap moves the old flush buffer into the write buffer, and `write_buffer_.clear()` then drops whatever the writers had not yet drained | two saves that each force a swap before any writer runs | hand the write buffer over without dropping the undrained flush buffer | not executed | Logger.SaveDiscardsUndrained | Logger.FixedHistoryNoLoss |
| frontEnd/src/MessageLogger.cpp:25-34, 83-98 | the final flushBuffer swaps and writes only the old write buffer; an undrained flush buffer ends up in the write buffer and never reaches the file | writers joined while the flush buffer is non-empty | write both buffers, flush buffer first | not executed | Logger.FlushStrandsUndrained | Logger.FixedHistoryThenFlush |
| frontEnd/src/MessageLogger.cpp:61-81 | each of the two writers takes the flush buffer under the lock but appends it to the file after unlocking, so a writer that took later lines can append first | two 1023-character lines saved, the second forcing a swap; the first writer takes the first line; "c" forces another swap; the second writer takes the second line and appends before the first writer does | append to the file before releasing the lock, so passes reach the file in the order they took the buffer | not executed | Logger.AppendOutsideLockReorders | Logger.FixedHistoryNoLoss |
| Client/src/Client.cpp:142-161 | the supervisor tests exit_flag, then is_connect_; "exit" in between clears is_connect_, and the supervisor reconnects after exit was requested | connected client; the supervisor passes the exit_flag test, the user types "exit", the reconnect succeeds | no reconnect once exit is requested | not executed | Session.ExitBetweenChecksReconnects | Session.ExitIsFinal |
