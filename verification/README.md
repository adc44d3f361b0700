# Verified models of the applications, link and helpers

This project models the stateful parts of the simulator's applications, of the bridged
point-to-point link, of the concurrent helpers used on the device, and of two algorithms in `utils`,
and proves what every run of them keeps.

Each component has up to two layers.  A *specification* module gives the effect of each callback on the
component's fields as a function, builds runs out of those effects, and proves the properties of every
run.  A *class* module has the program's own shape (fields that are updated, loops, calls) and each of
its methods is proved to have exactly the effect the specification gives it, so what is proved about the
runs holds of the class as well.

| component | specification | class |
|---|---|---|
| HTTP client | `HttpClientSpec` | `HttpClient` |
| HTTP server and its Tx buffer | `HttpServerSpec` | `HttpServer` |
| client, server and stream together | `HttpSystem`, `HttpInvariant`, `HttpSafety`, `HttpTheorems` | |
| framed sender | `BulkSendSpec` | `BulkSend` |
| reassembling sink | `Frames`, `PacketSinkSpec`, `SinkReports` | `PacketSink` |
| sender, stream and sink together | `FramedStream` | |
| framing header | `SeqTsSizeHeader` | `SeqTsSizeHeader` |
| loss counter | `LossHistory` | `PacketLossCounter` |
| transmitter, queue and channel | `LinkSpec` | `LinkDevice` |
| configuration paths | `TypePaths`, `TypeChains` | `StaticInformation` |
| device-side ring | `SlotMask`, `PairRing`, `PairRingValues` (interleaved steps) | |
| event dispatcher | `EventDispatcher` (interleaved steps) | |
| on/off source | `OnOffSpec` | `OnOff` |
| trace source | `UdpTrace` | `UdpTrace` |
| one-pass statistics | `Welford` | `Welford` (a loop, no object) |

`Words`, `ByteCodec`, `Division`, `HttpHeader` and `HttpEvents` hold what several components share.  A
fatal error, an abort and a failed assertion of the program are all the outcome `Fatal` of a function,
and `ok == false` of a method.

## What the models assume of their surroundings

**HTTP.**  The stream of each direction loses and reorders nothing and may cut responses into any
pieces, except that the 22-byte header of a response is not cut; a request arrives as one chunk
(`three-gpp-http-client.h:229-231` says so); `Send` takes a whole packet or returns -1; a drawn object
has at least one byte and, with its header, fewer than 2^31, and a request with its header has fewer than
2^31 (the source expects fewer than 536); a connection is opened once.  A program may be built with or
without log messages, and messages of level INFO may be shown or not.  Delays are
not modelled: a scheduled event may fire at any later moment, so the results hold for every timing.
Either side may be stopped or closed at any moment.  The simulator's event list of the model holds the
events of one connection; that the server leaves every other socket's entry alone is part of the
contracts of the class.

**Framed stream.**  The return values of `Send` are arbitrary integers, one for each call.  The send
size is at least 1 and below 2^31, and the attributes do not change during a run.

**Loss counter.**  The window is a positive multiple of 8; what is said of the count is said of a window
that is not changed after the first packet.

**Link.**  Both devices are attached.  Events fire in time order; sends, completions and receptions of
the same moment may come in any order.

**Ring and dispatcher.**  Each read, check, compare-and-swap, slot access, lock, wait, push, unlock and
notification is one step, and steps of all threads interleave in any way on a sequentially consistent
memory.

**On/off source.**  Time is exact, the rate and packet size are constant, and a packet has fewer than
2^32 bits.

## Where the program does not do what its text says

* A refused HTTP request is logged as waiting for another opportunity to send
  (`three-gpp-http-client.cc:441-446`), but nothing sends it later: an open connection stands still
  exactly when a request has been refused (`StandsStillIffRefused`, `RefusedForEver`, and
  `RefusedReachable` for a run that gets there).
* When the peer has closed and the last of an unsent object goes out, the server erases the socket's entry
  and then looks it up for a log message (`three-gpp-http-server.cc:461`, `:478`), which trips an
  assertion.  In every run this is the only step that is fatal, exactly when the entry is closing, the
  socket takes all that is left, and the program is built with log messages, as the profiles with
  assertions are (`SendCallbackFatalIff`, `FatalIffErasedLookedUp`, `ClosingDrainIsFatal`).
* With `MaxBytes` 0, documented as "no limit", a run of the bulk sender ends closed exactly when the socket
  took nothing at its first call (`UnlimitedClosesIffNothingAccepted`).
* The sink compares with `>` where a bare header needs `>=`: a call reports every whole unit in its
  buffer unless the last of several is a bare header of 20 bytes, which waits for the next arrival
  (`EmitsAllIff`, `ReassemblesAny`, and `BareHeaderLeftBehind` for an example).
* A packet older than the loss counter's window can hide a loss or leave a packet counted lost that has
  arrived; `StaysRightIff` tells exactly which packets keep every verdict right, and `StaleHidesLoss` is
  an example.
* The loss counter's loop does not end for the largest sequence number (`LoopEndsIff`).
* `Add` on the device can report a full ring that is empty (`FullReportOfEmptyRing`).  The indices stay in
  bounds exactly with at most one consumer (`BoundsIffOneConsumer`), and the ring is a bounded queue
  exactly when its capacity is a power of two (`QueueIffPowerOfTwo`).
* A pop on the device may read a slot that has been claimed but not yet written (`ReadBeforeWritten`); as
  long as slots are written and read in turn it answers the value added at its index
  (`PopAnswersItsValue`).
* Once the dispatcher's stop flag is set, nothing more is handed over than the event in the worker's hand,
  so what has been pushed can all be handed over exactly when the queue is empty (`StopDropsQueue`,
  `AllHandedOverIff`, and `EventCanBeLost` for an example).
* The trace loader's assertion, said to reject traces of B frames only, rejects every trace whose last
  time reads 0, and a trace file that cannot be opened (`HasWaitIff`, `AssertionRejectsTraceWithWaits`,
  `LoadTrace`).
* `Uniquefy` takes its container by value, so `Gather` neither sorts nor removes duplicates, whatever its
  comment says; the model follows the code (`WalkCanBeUnsorted` and `WalkCanRepeat` are examples).

## Model

| member | source | states |
|---|---|---|
| HttpHeader.HeaderRoundTrip | src/applications/model/three-gpp-http-header.cc:67-99 | a header read from the front of a packet is the header written there, and removing it leaves the content |
| HttpHeader.WireFormat | src/applications/model/three-gpp-http-header.cc:67-75 | type, length, client time and server time follow each other on the wire, 2, 4, 8 and 8 bytes, lowest byte first |
| HttpHeader.CodesOfTypes | src/applications/model/three-gpp-http-header.cc:118-160 | the three content types have the codes 0, 1 and 2, and reading any other code is fatal |
| HttpClientSpec.WentThroughIffAccepted | src/applications/model/three-gpp-http-client.cc:441-443 | the test on the return value of `Send` tells success from refusal for every packet size but 2^32 - 1 |
| HttpClientSpec.RequestReads | src/applications/model/three-gpp-http-client.cc:428-441 | what a request says to whoever reads it: its kind, no content length, the time it was made, and a payload of the drawn size |
| HttpClientSpec.RequestsRefused | src/applications/model/three-gpp-http-client.cc:420-507 | when a request event is fatal: in any other state, or when the socket takes a request while an object is incomplete |
| HttpClientSpec.StatesRefused | src/applications/model/three-gpp-http-client.cc:204-302 | for each callback, and for parsing and reading (699-776), exactly the states in which it is not fatal |
| HttpClientSpec.PacketsRefused | src/applications/model/three-gpp-http-client.cc:337-350 | a packet is taken exactly while an object is expected and its bytes can be accounted for |
| HttpClientSpec.ReceiveAccounts | src/applications/model/three-gpp-http-client.cc:644-697 | for every packet: what is still expected goes down by its content bytes, what has been put together grows by them, and more than was expected ends the object |
| HttpServerSpec.ServeEffect | src/applications/model/three-gpp-http-server.cc:541-616 | one service removes from the buffer exactly the content the socket accepted, with the header in front of the first accepted packet only; a refusal or an empty offer changes nothing; with INFO messages shown, draining a closing entry is fatal and nothing else is |
| HttpServerSpec.SendCallbackFatalIff | src/applications/model/three-gpp-http-server.cc:447-495 | a transmission opportunity is fatal exactly when it drains a closing entry in a program built with log messages; otherwise it is one service of the buffer |
| HttpServerSpec.BufferRefuses | src/applications/model/three-gpp-http-server.cc:644-857 | for each operation of the Tx buffer, exactly when its assertions fail |
| HttpServerSpec.NewEntryHoldsNothing | src/applications/model/three-gpp-http-server.cc:644-659 | a new entry holds no content, no type, no time stamp and no event of any list, and is not closing |
| HttpServerSpec.RequestsRefused | src/applications/model/three-gpp-http-server.cc:398-440 | a request is taken exactly when its socket has an entry and it has a whole header of one of the two kinds |
| HttpServerSpec.OfferFitsIffRoomForHeader | src/applications/model/three-gpp-http-server.cc:553-568 | for every 32-bit available size: the offer fits exactly when 22 bytes are available, below that the subtraction wraps and the whole object is offered, at 22 nothing is |
| HttpServerSpec.ServeAllDelivers | src/applications/model/three-gpp-http-server.cc:541-616 | over any sequence of opportunities the socket gets one header and then the content that left the buffer, as many useful opportunities as bytes drain it, and a closing entry is erased with its last byte and no earlier |
| HttpSafety.StepSafe | src/applications/model/three-gpp-http-client.cc:204-827 | a step of client, server or stream is fatal exactly when it looks up an entry it has erased, and every other keeps the invariant of the composed system |
| HttpSafety.ServerFiresSafe | src/applications/model/three-gpp-http-server.cc:787-807 | an object is only written to an empty buffer |
| HttpSafety.ServerRecvSafe | src/applications/model/three-gpp-http-server.cc:369-445 | a request that arrives is well formed and its serving can be recorded |
| HttpSafety.ClientRecvSafe | src/applications/model/three-gpp-http-client.cc:509-697 | any part of a response, however it was cut, is accepted in the state the client is in |
| HttpSafety.RequestSafe | src/applications/model/three-gpp-http-client.cc:420-507 | a request event fires only in a state its handler accepts, whatever the socket answers |
| HttpSafety.ParseSafe | src/applications/model/three-gpp-http-client.cc:719-776 | the parse event fires only while parsing, for every count drawn |
| HttpSafety.ServerCloseSafe | src/applications/model/three-gpp-http-server.cc:314-367 | closing at any moment is not fatal and keeps the invariant |
| HttpTheorems.FatalIffErasedLookedUp | src/applications/model/three-gpp-http-server.cc:447-495 | in every run a step of either program reaches a fatal error or a failed assertion exactly when it is a transmission opportunity that drains a closing entry and the program is built with log messages |
| HttpTheorems.ClosingDrainIsFatal | src/applications/model/three-gpp-http-server.cc:461-478 | with log messages built in, that step can be reached: the client closes with an object unsent, and the next opportunity has room for it |
| HttpTheorems.NeverLargerThanExpected | src/applications/model/three-gpp-http-client.cc:676-686 | the branch for a packet larger than expected is unreachable |
| HttpTheorems.ServeNeverOverwritten | src/applications/model/three-gpp-http-server.cc:809-821 | when a request arrives, the recorded serving event is not pending and the buffer is empty |
| HttpTheorems.OneExchangeAtATime | src/applications/model/three-gpp-http-server.cc:369-539 | at most one request or response of a connection is under way, before the accept and after a close too: in flight, being generated or being delivered |
| HttpTheorems.BytesConserved | src/applications/model/three-gpp-http-server.cc:823-847 | bytes held by the server, in flight and consumed add up to the object's size for every segmentation, and the client's counter is the first two |
| HttpTheorems.TimestampsKept | src/applications/model/three-gpp-http-client.cc:654-670 | while an object is received, the client and server time stamps on record are those of its request and of its header |
| HttpTheorems.TimestampsReset | src/applications/model/three-gpp-http-client.cc:540-567 | between objects both time stamps on record are 0 |
| HttpTheorems.RequestsFollowPages | src/applications/model/three-gpp-http-client.cc:699-776 | the accepted requests are a prefix of Main E^k1 Main E^k2 ... Main for the counts drawn |
| HttpTheorems.OneTimer | src/applications/model/three-gpp-http-client.cc:778-804 | at most one of the client's three events is pending, and it is the one its handle names |
| HttpTheorems.ResponsesAnswerRequests | src/applications/model/three-gpp-http-client.cc:509-641 | every object reported complete is whole, of the requested kind, stamped with its request's time, in the order of the requests, with at most one request unanswered |
| HttpTheorems.StandsStillIffRefused | src/applications/model/three-gpp-http-client.cc:441-450 | an open connection can move on exactly when no request has been refused |
| HttpTheorems.RefusedReachable | src/applications/model/three-gpp-http-client.cc:441-446 | an open connection whose first request the socket refuses is reached, and stands still |
| HttpTheorems.RefusedForEver | src/applications/model/three-gpp-http-client.cc:484-489 | after a refusal no request is sent in any continuation |
| HttpTheorems.RefusedNothingPending | src/applications/model/three-gpp-http-client.cc:441-446 | after a refusal no event of either side is pending |
| HttpTheorems.CallbackIsSteps | src/applications/model/three-gpp-http-client.cc:304-354 | one receive callback that reads several packets does what the single receptions do one after the other |
| HttpTheorems.ClientStopsAtEmpty | src/applications/model/three-gpp-http-client.cc:311-317 | an empty packet ends the loop, and what comes after it changes nothing |
| HttpTheorems.ServerCallbackIsSteps | src/applications/model/three-gpp-http-server.cc:369-445 | one callback that reads several requests does to entry and events what the single receptions of the runs do one after the other |
| HttpTheorems.ServerCallbackSucceeds | src/applications/model/three-gpp-http-server.cc:369-445 | the other way: a callback that is not fatal is a run of single receptions |
| HttpTheorems.ServerStopsAtEmpty | src/applications/model/three-gpp-http-server.cc:377-383 | an empty packet ends the loop, and what comes after it changes nothing |
| HttpClient.ThreeGppHttpClient.StartApplication | src/applications/model/three-gpp-http-client.cc:204-218 | the run step `ClientStart` |
| HttpClient.ThreeGppHttpClient.StopApplication | src/applications/model/three-gpp-http-client.cc:220-232 | the run step `ClientStop`, with the socket closed |
| HttpClient.ThreeGppHttpClient.ConnectionSucceeded | src/applications/model/three-gpp-http-client.cc:233-251 | the run step `ClientConnected` |
| HttpClient.ThreeGppHttpClient.RequestMainObject | src/applications/model/three-gpp-http-client.cc:420-457 | the request step of `HttpTheorems.RequestsFollowPages`, for each verdict of the socket |
| HttpClient.ThreeGppHttpClient.RequestEmbeddedObject | src/applications/model/three-gpp-http-client.cc:459-507 | the same for an embedded object |
| HttpClient.ThreeGppHttpClient.Receive | src/applications/model/three-gpp-http-client.cc:644-697 | the reception in `HttpTheorems.BytesConserved` |
| HttpClient.ThreeGppHttpClient.ReceivedDataCallback | src/applications/model/three-gpp-http-client.cc:304-354 | the loop of `HttpTheorems.CallbackIsSteps` |
| HttpClient.ThreeGppHttpClient.ReceiveMainObject | src/applications/model/three-gpp-http-client.cc:509-567 | the report in `HttpTheorems.ResponsesAnswerRequests` |
| HttpClient.ThreeGppHttpClient.ReceiveEmbeddedObject | src/applications/model/three-gpp-http-client.cc:569-641 | the same for an embedded object |
| HttpClient.ThreeGppHttpClient.EnterParsingTime | src/applications/model/three-gpp-http-client.cc:699-717 | schedules the one event of `HttpTheorems.OneTimer` |
| HttpClient.ThreeGppHttpClient.ParseMainObject | src/applications/model/three-gpp-http-client.cc:719-754 | the parse in `HttpTheorems.RequestsFollowPages` |
| HttpClient.ThreeGppHttpClient.EnterReadingTime | src/applications/model/three-gpp-http-client.cc:756-776 | schedules the one event of `HttpTheorems.OneTimer` |
| HttpClient.ThreeGppHttpClient.CancelAllPendingEvents | src/applications/model/three-gpp-http-client.cc:778-804 | leaves no event of `HttpTheorems.OneTimer` |
| HttpClient.ThreeGppHttpClient.SwitchToState | src/applications/model/three-gpp-http-client.cc:806-827 | fatal exactly when a new object would be expected before the last is complete |
| HttpServer.ThreeGppHttpServerTxBuffer.AddSocket | src/applications/model/three-gpp-http-server.cc:644-659 | an empty entry for a new socket; no other entry changes |
| HttpServer.ThreeGppHttpServerTxBuffer.RemoveSocket | src/applications/model/three-gpp-http-server.cc:661-683 | cancels the serving event, clears the callbacks of the socket, which stays open, and erases this entry only |
| HttpServer.ThreeGppHttpServerTxBuffer.CloseSocket | src/applications/model/three-gpp-http-server.cc:685-715 | cancels the serving event, closes the socket, clears its callbacks and erases this entry only |
| HttpServer.ThreeGppHttpServerTxBuffer.CloseAllSockets | src/applications/model/three-gpp-http-server.cc:717-740 | closes every accepted socket and clears its callbacks, erases every entry, cancels exactly their serving events and keeps all other events |
| HttpServer.ThreeGppHttpServerTxBuffer.WriteNewObject | src/applications/model/three-gpp-http-server.cc:787-807 | asserts an empty buffer, a content type and a positive size |
| HttpServer.ThreeGppHttpServerTxBuffer.RecordNextServe | src/applications/model/three-gpp-http-server.cc:809-821 | the entry keeps the event and the client's time stamp |
| HttpServer.ThreeGppHttpServerTxBuffer.DepleteBufferSize | src/applications/model/three-gpp-http-server.cc:823-847 | the buffer shrinks by the amount; an emptied closing buffer is erased and its socket closed, any other socket state is kept |
| HttpServer.ThreeGppHttpServerTxBuffer.PrepareClose | src/applications/model/three-gpp-http-server.cc:849-857 | marks this entry as closing and nothing else |
| HttpServer.ThreeGppHttpServer.ServeFromTxBuffer | src/applications/model/three-gpp-http-server.cc:541-616 | what `HttpServerSpec.ServeEffect` describes happens to this entry, the event list and this socket, for every available size and verdict, and to no other entry; the socket is closed exactly when its entry is erased |
| HttpServer.ThreeGppHttpServer.ServeNewObject | src/applications/model/three-gpp-http-server.cc:497-539 | writes the drawn object and serves it once |
| HttpServer.ThreeGppHttpServer.SendCallback | src/applications/model/three-gpp-http-server.cc:447-495 | serves a non-empty buffer and, built with log messages, looks the entry up again |
| HttpServer.ThreeGppHttpServer.ReceivedDataCallback | src/applications/model/three-gpp-http-server.cc:369-445 | the loop of `HttpTheorems.ServerCallbackIsSteps`, for this entry only |
| HttpServer.ThreeGppHttpServer.NormalCloseCallback | src/applications/model/three-gpp-http-server.cc:314-348 | an empty entry is erased and its socket shut for sending, another one is marked as closing; fatal exactly for the listening socket of a running server |
| HttpServer.ThreeGppHttpServer.ErrorCloseCallback | src/applications/model/three-gpp-http-server.cc:350-367 | the entry is erased whatever it holds and its socket closed; fatal exactly for the listening socket of a running server |
| HttpServer.ThreeGppHttpServer.StopApplication | src/applications/model/three-gpp-http-server.cc:258-279 | closes every accepted socket and the listening one, and leaves no entry and no serving event |
| SeqTsSizeHeader.HeaderRoundTrip | src/applications/model/seq-ts-size-header.cc:80-97 | size, sequence number and time stamp read back are those written |
| SeqTsSizeHeader.DecodeInverse | src/applications/model/seq-ts-size-header.cc:89-97 | every 20 bytes are the encoding of exactly one header |
| SeqTsSizeHeader.WireFormat | src/applications/model/seq-ts-size-header.cc:80-87 | size, sequence number and time stamp follow each other on the wire, 8, 4 and 8 bytes, highest byte first |
| SeqTsSizeHeader.HeaderObject.Serialize | src/applications/model/seq-ts-header.cc:92-99 | writes the header's 20 bytes at the iterator and leaves all others as they were |
| SeqTsSizeHeader.HeaderObject.Deserialize | src/applications/model/seq-ts-header.cc:101-109 | the fields become those encoded at the iterator |
| Frames.WholeIsLargest | src/applications/model/packet-sink.cc:270-291 | the number of whole units in a prefix is the largest count whose sizes fit in it |
| PacketSinkSpec.DrainCuts | src/applications/model/packet-sink.cc:253-291 | on a stream of units the loop never reads past the end; it reports the first `Emits` units and keeps the bytes after them |
| PacketSinkSpec.EmitsAllIff | src/applications/model/packet-sink.cc:282-290 | one call reports every whole unit in its buffer unless the last of several is a bare header |
| PacketSinkSpec.BareHeaderLeftBehind | src/applications/model/packet-sink.cc:282-290 | of two bare headers one call reports only the first |
| PacketSinkSpec.ReceivesIffHeaderThere | src/applications/model/packet-sink.cc:266-268 | a call aborts exactly when buffer and arrival hold less than a header |
| PacketSinkSpec.ReassemblesAll | src/applications/model/packet-sink.cc:253-291 | for every segmentation the units reported are the whole units received, in order, and the buffer is what follows them |
| PacketSinkSpec.ReassemblesAny | src/applications/model/packet-sink.cc:253-291 | the same for units that may be bare headers: the first units received are reported in order, and a whole one is left behind only if it is a bare header that ends the bytes received |
| PacketSinkSpec.AnyArrival | src/applications/model/packet-sink.cc:253-291 | a bare header left behind is reported at the next arrival |
| PacketSinkSpec.ReceivesAllIffHeadersThere | src/applications/model/packet-sink.cc:266-268 | for every segmentation the sink never aborts exactly when each arrival leaves a header to peek at |
| PacketSinkSpec.CutMeans | src/applications/model/packet-sink.cc:270-291 | reported units and buffer, said of the whole sequences: units of the first frames, and a prefix of the rest |
| PacketSinkSpec.MalformedAborts | src/applications/model/packet-sink.cc:270-291 | a header that announces less than its own size makes the loop abort, behind any number of long units |
| PacketSinkSpec.MalformedArrivalAborts | src/applications/model/packet-sink.cc:253-291 | the same however the bytes are split between the buffer and the packet that arrives |
| SinkReports.SendersDoNotMix | src/applications/model/packet-sink.cc:253-291 | packets of many senders in any interleaving: the units reported for a sender, in order, and the bytes kept for it are those of its own packets alone |
| SinkReports.AllTaken | src/applications/model/packet-sink.cc:253-291 | packets that every sender alone could send without an abort do not abort together |
| SinkReports.AbortsIffSomeSenderWould | src/applications/model/packet-sink.cc:253-291 | the sink aborts exactly when it would on the packets of some sender alone |
| SinkReports.StopsAtEmpty | src/applications/model/packet-sink.cc:201-206 | an empty packet and all after it are neither handled nor counted |
| SinkReports.CountsAllBytes | src/applications/model/packet-sink.cc:207 | all bytes before it are counted |
| PacketSink.PacketSink.PacketReceived | src/applications/model/packet-sink.cc:253-291 | per sender, the units reported, with the sender they came from, and the bytes kept are those of `PacketSinkSpec.ReassemblesAll` and `SinkReports.SendersDoNotMix`; other senders' buffers are untouched |
| PacketSink.PacketSink.Drain | src/applications/model/packet-sink.cc:270-291 | the loop reports the units of the recursive specification, each with its sender, and leaves the same bytes |
| PacketSink.PacketSink.HandleRead | src/applications/model/packet-sink.cc:194-251 | the loop of `SinkReports.SendersDoNotMix` and `SinkReports.CountsAllBytes`; without the header or a listener to the trace no buffer changes |
| BulkSendSpec.RunSendsPrefix | src/applications/model/bulk-send-application.cc:213-296 | over any run of full, partial and refused sends the socket's stream and the cached packet make up the packets created, the byte count is the stream's length, the limit is never passed, and the application is closed exactly when the limit is reached |
| BulkSendSpec.SendDataKeeps | src/applications/model/bulk-send-application.cc:291-295 | one call only extends the stream, and closes exactly when the byte count equals the limit |
| BulkSendSpec.CallStamps | src/applications/model/bulk-send-application.cc:232-252 | every packet made in a call carries the time of that call, also when it is sent in a later one |
| BulkSendSpec.UnexpectedAnswers | src/applications/model/bulk-send-application.cc:262-289 | the socket's answer is fatal exactly when it is neither -1 nor between 1 and the size of the packet |
| BulkSendSpec.AbortsIffHeadersDoNotFit | src/applications/model/bulk-send-application.cc:245-250 | some run ends in the abort on a packet too small for its header exactly when the attributes leave no room for one |
| BulkSendSpec.UnlimitedClosesIffNothingAccepted | src/applications/model/bulk-send-application.cc:291-295 | without a limit a run ends closed exactly when it has a first call and that call took nothing |
| BulkSend.BulkSendApplication.SendData | src/applications/model/bulk-send-application.cc:213-296 | for every sequence of return values the loop and the close end in the state of `BulkSendSpec.RunSendsPrefix`, and the socket is open exactly while the application counts as connected |
| BulkSend.BulkSendApplication.ConnectionSucceeded | src/applications/model/bulk-send-application.cc:298-309 | connects and makes the first call |
| BulkSend.BulkSendApplication.DataSend | src/applications/model/bulk-send-application.cc:318-333 | another call while connected, nothing otherwise |
| FramedStream.SinkReportsSentUnits | src/applications/model/packet-sink.cc:253-291 | sender and sink undo each other: through partial sends and any segmentation the sink reports the sender's units in order with their numbers and sizes, and keeps a strict prefix of the next |
| FramedStream.LongUnitsIff | src/applications/model/packet-sink.cc:282 | every unit is longer than its header, as the sink needs, exactly when the send size and what the limit leaves for a last unit are above 20 bytes |
| FramedStream.AllUnitsArrive | src/applications/model/bulk-send-application.cc:291-295 | when the sender has closed and all bytes have arrived, every unit has been reported and nothing is left over |
| LossHistory.CountedIff | src/applications/model/packet-loss-counter.cc:110-128 | a number is counted lost exactly when it did not arrive in time and no stale packet took its place |
| LossHistory.NeverOvercounts | src/applications/model/packet-loss-counter.cc:110-128 | for every order of arrival the count is that of distinct numbers, each of which had not arrived when the window moved past it |
| LossHistory.ExactWithoutStale | src/applications/model/packet-loss-counter.cc:110-128 | without packets older than the window the count is the number of missing ones up to max - window, however often the ring is lapped |
| LossHistory.StaysRightIff | src/applications/model/packet-loss-counter.cc:77-128 | the next packet keeps every verdict right exactly when it is in or above the window, or a duplicate whose place belongs to a number that has arrived |
| LossHistory.StaleHidesLoss | src/applications/model/packet-loss-counter.cc:84-95 | a late packet can hide a loss |
| LossHistory.LoopEndsIff | src/applications/model/packet-loss-counter.cc:114 | the loop ends for every sequence number but the largest |
| PacketLossCounter.PacketLossCounter.constructor | src/applications/model/packet-loss-counter.cc:32-40 | a fresh counter with a window above 0 agrees with the empty history |
| PacketLossCounter.PacketLossCounter.SetBitMapSize | src/applications/model/packet-loss-counter.cc:55-68 | a new window, all marked, with the count as it was; before the first packet that agrees with the empty history, for a window above 0 |
| PacketLossCounter.PacketLossCounter.GetBit | src/applications/model/packet-loss-counter.cc:77-82 | reads the ring's place for a sequence number |
| PacketLossCounter.PacketLossCounter.SetBit | src/applications/model/packet-loss-counter.cc:84-95 | changes that place of the ring and no other bit of any byte |
| PacketLossCounter.PacketLossCounter.NotifyReceived | src/applications/model/packet-loss-counter.cc:110-128 | ring and count go on agreeing with the history of numbers received |
| PacketLossCounter.PacketLossCounter.GetLost | src/applications/model/packet-loss-counter.cc:70-75 | the count is that of the unmarked numbers up to max - window |
| LinkSpec.RefinesRecursion | contrib/cuda/model/bridged-p2p-net-device.cc:332-394 | the k-th accepted frame starts at max(arrival, start of the one before + its time + gap) and is received a transmission time and a delay later |
| LinkSpec.StartedInTime | contrib/cuda/model/bridged-p2p-net-device.cc:332-394 | a frame has started once the time the recursion gives it has passed |
| LinkSpec.ReceivedInTime | contrib/cuda/model/bridged-p2p-channel.cc:71-91 | a frame has been received once its transmission time and the delay have passed as well |
| LinkSpec.ReadyIffIdle | contrib/cuda/model/bridged-p2p-net-device.cc:332-394 | READY exactly when no completion is pending and no frame is current; then nothing is queued |
| LinkSpec.FramesConserved | contrib/cuda/model/bridged-p2p-net-device.cc:699-738 | accepted frames are those received, then in flight, then queued, in order |
| LinkSpec.NoAssertionFails | contrib/cuda/model/bridged-p2p-net-device.cc:343 | the assertions on the transmitter's mode and current frame hold in every run |
| LinkSpec.AssertionsRefuse | contrib/cuda/model/bridged-p2p-net-device.cc:332-394 | what the assertions demand: a start from READY only, a completion from BUSY with a current frame |
| LinkSpec.FirstIsDue | contrib/cuda/model/bridged-p2p-channel.cc:71-91 | receptions happen in the order in which they were scheduled |
| LinkSpec.SendKeeps | contrib/cuda/model/bridged-p2p-net-device.cc:699-738 | a frame is refused exactly when the queue is full, and a refusal changes nothing |
| LinkDevice.Channel.Attach | contrib/cuda/model/bridged-p2p-channel.cc:50-69 | two devices get crossed wires, a third is refused |
| LinkDevice.Channel.TransmitStart | contrib/cuda/model/bridged-p2p-channel.cc:71-91 | the frame will be received by the other device after transmission time and delay |
| LinkDevice.Device.TransmitStart | contrib/cuda/model/bridged-p2p-net-device.cc:332-360 | the run step behind `LinkSpec.RefinesRecursion`: one completion for this device and one reception at its peer, and the assertion on the mode |
| LinkDevice.Device.TransmitComplete | contrib/cuda/model/bridged-p2p-net-device.cc:362-394 | the run step behind `LinkSpec.RefinesRecursion`: the device is free, or busy with the head of the queue from this moment on |
| LinkDevice.Device.SendFrom | contrib/cuda/model/bridged-p2p-net-device.cc:699-738 | the run step behind `LinkSpec.FramesConserved`: the frame is last in the queue, being sent, or refused without effect |
| TypePaths.WalkIsPreorderOfSimplePaths | utils/print-introspected-doxygen.cc:412-497 | the walk reports, in preorder and no route twice, exactly the paths from the root on which no type occurs twice |
| TypePaths.RoutesAreSimple | utils/print-introspected-doxygen.cc:416-419 | a route is taken exactly when its types are pairwise distinct and not on the stack |
| TypePaths.RoutesOrdered | utils/print-introspected-doxygen.cc:421-496 | routes are taken in preorder |
| TypePaths.WalkReports | utils/print-introspected-doxygen.cc:337-342 | what is recorded for a route is its last type and its labels joined with slashes |
| TypeChains.EdgesFromRegistry | utils/print-introspected-doxygen.cc:421-496 | the ways on from a type, from the registry alone: each pointer attribute not to a plain Object and each container attribute in order, then each child in order of registration, then each aggregation, with their labels, and no others |
| TypeChains.JoinedIffEdge | utils/print-introspected-doxygen.cc:421-496 | the walk goes from one type to another by a label exactly when the registry joins them by it |
| TypeChains.WalkReportsChains | utils/print-introspected-doxygen.cc:412-497 | from an empty stack the walk reports exactly the ends of chains of different types that the registry gives, each with the labels on the way |
| TypeChains.PathFromRoot | utils/print-introspected-doxygen.cc:325-335 | a path is read from the root on, each label after a slash |
| StaticInformation.StaticInformation.DoGather | utils/print-introspected-doxygen.cc:412-497 | terminates, restores both stacks and appends exactly the walk of `TypePaths.WalkIsPreorderOfSimplePaths` and `TypeChains.WalkReportsChains` |
| StaticInformation.StaticInformation.HasAlreadyBeenProcessed | utils/print-introspected-doxygen.cc:344-356 | true exactly for the types on the stack |
| StaticInformation.StaticInformation.GetCurrentPath | utils/print-introspected-doxygen.cc:325-335 | the path of `TypeChains.PathFromRoot`, of the labels on the stack |
| StaticInformation.StaticInformation.RecordOutput | utils/print-introspected-doxygen.cc:337-342 | appends type and path |
| StaticInformation.StaticInformation.Gather | utils/print-introspected-doxygen.cc:388-410 | the list grows by the walk, neither sorted nor freed of duplicates |
| TypePaths.WalkCanBeUnsorted | utils/print-introspected-doxygen.cc:388-410 | a walk that is not sorted, which `Gather` therefore leaves unsorted |
| TypePaths.WalkCanRepeat | utils/print-introspected-doxygen.cc:388-410 | a walk with the same entry twice, which `Gather` therefore keeps twice |
| SlotMask.MaskIsRemainder | contrib/cuda/helper/cuda-helper.h:255 | for a power of two the mask is the remainder |
| SlotMask.AndDigits | contrib/cuda/helper/cuda-helper.h:255 | the mask keeps exactly the binary digits that index and mask have in common, for any capacity |
| SlotMask.DistinctIffPowerOfTwo | contrib/cuda/helper/cuda-helper.h:255 | a full turn of indices has slots of its own exactly when the capacity is a power of two |
| PairRing.IndicesInBounds | contrib/cuda/helper/cuda-helper.h:241-257 | with many producers and one consumer, under every interleaving, front <= rear <= front + capacity, adds and pops claim 0, 1, 2, ... and no two producers own an index |
| PairRing.FullReportIff | contrib/cuda/helper/cuda-helper.h:245-252 | an add reports a full ring exactly when it was full at the time front was read or the consumer had passed the old rear |
| PairRing.EmptyReportIff | contrib/cuda/helper/cuda-helper.h:291-301 | a pop answers nothing exactly when every index below the rear it had read has been popped; otherwise it goes on to claim the oldest index, which lies below that rear |
| PairRing.AddEnds | contrib/cuda/helper/cuda-helper.h:243-257 | an add that meets others ends only by writing the slot it has claimed or by a report; if its claim fails it starts again |
| PairRing.PopEnds | contrib/cuda/helper/cuda-helper.h:291-304 | a pop that meets others ends only with the element of the index it has claimed or with nothing; if its claim fails it reads front again, but not rear |
| PairRing.QueueIffPowerOfTwo | contrib/cuda/helper/cuda-helper.h:241-304 | over all runs of calls that do not overlap, from every initial ring, the ring is a bounded queue exactly when its capacity is a power of two |
| PairRing.PopIsDequeue | contrib/cuda/helper/cuda-helper.h:291-304 | a pop gives the oldest element and removes it |
| PairRing.AddAlone | contrib/cuda/helper/cuda-helper.h:241-257 | an add that is not interrupted and finds room leads to the ring with the element in its slot |
| PairRing.AddFullAlone | contrib/cuda/helper/cuda-helper.h:241-253 | an add that is not interrupted on a full ring is refused and changes nothing |
| PairRing.PopAlone | contrib/cuda/helper/cuda-helper.h:291-304 | a pop that is not interrupted and finds an element leads to the ring without its oldest element |
| PairRing.PopEmptyAlone | contrib/cuda/helper/cuda-helper.h:291-301 | a pop that is not interrupted on an empty ring answers nothing and changes nothing |
| PairRing.AllStepsLead | contrib/cuda/helper/cuda-helper.h:241-304 | calls one after the other are a run of the interleaved steps |
| PairRing.RefinesFifo | contrib/cuda/helper/cuda-helper.h:241-304 | from any ring with no call under way, contents, refusals and answers of any sequence of calls are those of a bounded queue, for a capacity that is a power of two |
| PairRing.FullReportOfEmptyRing | contrib/cuda/helper/cuda-helper.h:245-252 | an add can report a full ring that is empty |
| PairRing.BoundsIffOneConsumer | contrib/cuda/helper/cuda-helper.h:293-301 | for every capacity the bounds on the indices hold in every run exactly with at most one consumer |
| PairRingValues.PopAnswersItsValue | contrib/cuda/helper/cuda-helper.h:241-304 | with overlapping adds and one consumer, a pop answers the value added at its index as long as every slot is written and read in turn |
| PairRingValues.ReadBeforeWritten | contrib/cuda/helper/cuda-helper.h:255-257 | a pop can read the slot of its index before the add has written it |
| EventDispatcher.EventsInOrder | contrib/cuda/helper/cuda-helper.h:86-144 | pushed events are those handed to the simulator, then at most one in the worker's hand, then the queue |
| EventDispatcher.MutualExclusion | contrib/cuda/helper/cuda-helper.h:86-144 | at most one thread is in its critical section |
| EventDispatcher.WorkerCanGoOn | contrib/cuda/helper/cuda-helper.h:98-139 | no wakeup is lost: with no call under way the worker can go on exactly when it has not returned and is not waiting with nothing to do |
| EventDispatcher.StopDropsQueue | contrib/cuda/helper/cuda-helper.h:98-135 | from the moment the flag is set, no more is handed over than the event in the worker's hand, and what is queued stays queued |
| EventDispatcher.AllHandedOverIff | contrib/cuda/helper/cuda-helper.h:98-144 | with the flag set, what has been pushed can all be handed over exactly when the queue is empty |
| EventDispatcher.EventCanBeLost | contrib/cuda/helper/cuda-helper.h:86-135 | a caller that dispatches an event and stops the worker before it looks loses the event |
| OnOffSpec.RateHolds | src/applications/model/onoff-application.cc:254-318 | at every moment, of the bits generated while a packet was pending, those spent on packets, carried over and generated since the last packet make up all but less than one for each period cut short, and all when none was; the byte limit is passed by less than a packet |
| OnOffSpec.AbortsIffHeaderDoesNotFit | src/applications/model/onoff-application.cc:298-368 | neither the overflow abort nor the expiry assertion is ever reached, and the abort for the header exactly when a packet is due and has no room for one |
| OnOffSpec.NumbersSkipDiscards | src/applications/model/onoff-application.cc:270-275 | sequence numbers skip exactly the cached packets that a cut threw away |
| OnOffSpec.CancelKeeps | src/applications/model/onoff-application.cc:254-276 | a cut keeps the whole bits generated and loses less than one |
| OnOffSpec.CountsWhatWasTaken | src/applications/model/onoff-application.cc:373-404 | over any run the byte count grows by the packet size for each packet the socket has taken, and for no other |
| OnOffSpec.CachesWhatWasRefused | src/applications/model/onoff-application.cc:373-404 | a packet is cached exactly when the last one offered since the last cut was refused |
| OnOffSpec.ClosesIff | src/applications/model/onoff-application.cc:298-318 | over any run the socket is closed exactly when the application was stopped or has sent all it may |
| OnOffSpec.PeriodsAlternate | src/applications/model/onoff-application.cc:279-337 | on and off periods alternate, and the next turn comes when the intervals drawn add up to it |
| OnOffSpec.FirstPeriodIsOff | src/applications/model/onoff-application.cc:411-417 | from the connection on the periods are off, on, off, ..., each as long as was drawn for it |
| OnOffSpec.AbortsRefuse | src/applications/model/onoff-application.cc:298-368 | exactly when the assertion on the send event and the aborts for the bits and the header fail, in any state |
| OnOffSpec.SendKeeps | src/applications/model/onoff-application.cc:340-408 | a packet leaves when exactly its missing bits have been generated, whether new or cached |
| OnOffSpec.ScheduledWhenFull | src/applications/model/onoff-application.cc:298-318 | from any moment on, a packet is scheduled for when the rate will have generated exactly the bits it still needs |
| OnOff.OnOffApplication.CancelEvents | src/applications/model/onoff-application.cc:254-276 | the cut of `OnOffSpec.RateHolds`, which also throws the cached packet away |
| OnOff.OnOffApplication.ConnectionSucceeded | src/applications/model/onoff-application.cc:411-417 | the start of the runs in `OnOffSpec.FirstPeriodIsOff` |
| OnOff.OnOffApplication.StartSending | src/applications/model/onoff-application.cc:279-286 | the start of a period in `OnOffSpec.RateHolds` and `OnOffSpec.PeriodsAlternate` |
| OnOff.OnOffApplication.StopSending | src/applications/model/onoff-application.cc:288-295 | the end of a period in `OnOffSpec.RateHolds` and `OnOffSpec.PeriodsAlternate` |
| OnOff.OnOffApplication.ScheduleNextTx | src/applications/model/onoff-application.cc:298-318 | the scheduling behind `OnOffSpec.SendKeeps` |
| OnOff.OnOffApplication.SendPacket | src/applications/model/onoff-application.cc:340-408 | the packet of `OnOffSpec.RateHolds`, `OnOffSpec.CountsWhatWasTaken`, `OnOffSpec.CachesWhatWasRefused` and `OnOffSpec.NumbersSkipDiscards`, for both verdicts of the socket |
| OnOff.OnOffApplication.StopApplication | src/applications/model/onoff-application.cc:238-252 | the stop of `OnOffSpec.RateHolds` |
| UdpTrace.TimesTelescope | src/applications/model/udp-trace-client.cc:197-220 | the waiting times add up, modulo 2^32, to the last time read |
| UdpTrace.AssertionGivesWait | src/applications/model/udp-trace-client.cc:222 | the loader's assertion is enough for the sender's loop to end |
| UdpTrace.HasWaitIff | src/applications/model/udp-trace-client.cc:197-220 | some entry has to be waited for exactly when some kept time of a frame that is not B differs from 0; the assertion looks at the last such time only |
| UdpTrace.AssertionRejectsTraceWithWaits | src/applications/model/udp-trace-client.cc:222 | the assertion also rejects a trace that is not of B frames only |
| UdpTrace.SendEndsIff | src/applications/model/udp-trace-client.cc:363-382 | the sender's loop ends, and within one turn, exactly when some entry has to be waited for |
| UdpTrace.PacketsMakeFrame | src/applications/model/udp-trace-client.cc:365-371 | the packets of a frame add up to it and none passes the limit |
| UdpTrace.PacketsAreFull | src/applications/model/udp-trace-client.cc:365-371 | every packet of a frame but the last, shorter one is as long as the limit |
| UdpTrace.EntriesOfLines | src/applications/model/udp-trace-client.cc:197-220 | there is, in order, one entry for each line whose index differs from the line before, with its frame size, its type and the time since the last frame that was not B |
| UdpTrace.AskedAddsUp | src/applications/model/udp-trace-client.cc:363-382 | what the frames sent ask for adds up to their sizes |
| UdpTrace.AskedInOrder | src/applications/model/udp-trace-client.cc:363-382 | the packets are asked for frame by frame, in the order of the entries |
| UdpTrace.AskedIsWhatTheTraceSays | src/applications/model/udp-trace-client.cc:197-382 | loader and sender together: what one firing asks for adds up to the sizes on the lines of the trace, going round |
| UdpTrace.WireSizeIs | src/applications/model/udp-trace-client.cc:310-325 | a packet has the size asked for, or that of its header if it is shorter |
| UdpTrace.UdpTraceClient.LoadTrace | src/applications/model/udp-trace-client.cc:183-224 | the entries are those of `UdpTrace.EntriesOfLines`; a file that cannot be opened fails the assertion; success leaves an entry to wait for |
| UdpTrace.UdpTraceClient.LoadDefaultTrace | src/applications/model/udp-trace-client.cc:227-246 | appends the entries of the built-in lines |
| UdpTrace.UdpTraceClient.Send | src/applications/model/udp-trace-client.cc:354-388 | asks for the packets of the frames up to the next one that has to be waited for, going round, and schedules the next call unless the trace is over; fatal exactly while an event is pending |
| UdpTrace.UdpTraceClient.SendPacket | src/applications/model/udp-trace-client.cc:310-352 | accepted packets are numbered without a gap and are never shorter than their header |
| Welford.Log | utils/bench-scheduler.cc:346-371 | average and second moment are exact, although the sample the loop starts from is processed again |
| Welford.Accumulate | utils/bench-scheduler.cc:356-361 | one more sample keeps both figures exact |
| Welford.ExactAverage | utils/bench-scheduler.cc:346-371 | the average is the sum divided by the number of samples |
| Welford.AverageIsBestCentre | utils/bench-scheduler.cc:346-371 | no other centre has a smaller sum of squared distances |

## Left out

- CUDA kernels, streams and managed memory: their sources are not part of this model.
- PairRing.IndicesInBounds: indices are unbounded numbers, so fewer than 2^31 claims are assumed; `m_size` is always 0, so its test is that the capacity is positive.
- PairRing.QueueIffPowerOfTwo: for calls that overlap, what a pop answers is described only while slots are written and read in turn (`PairRingValues.PopAnswersItsValue`).
- `Cuda_PairList` on the host, `Remove` and `Get`: the host index does not wrap and `Remove` is marked as not ready.
- EventDispatcher.EventsInOrder: starting and joining the worker thread and the destructor are not steps, and what the simulator does with an event is not modelled.
- HttpTheorems.BytesConserved: a header cut by the stream, a request cut into pieces and a partial `Send` are outside the environment, because the program does not handle them.
- HttpServer.ThreeGppHttpServer.ServeNewObject: the two methods of the source differ only in the object's type, which is a parameter here.
- The HTTP server's start, and the data that may come with a new connection; in the runs of one connection, stopping the server is the error close of its entry.
- HttpClient.ThreeGppHttpClient.StopApplication: the callbacks for connecting and for data are one flag.
- Opening the HTTP connection again and the addresses and ports of sockets.
- The random variables of the HTTP traffic: every draw is an input.
- Log messages and trace sources, except where a message looks something up that may be gone, or a trace is what a property is about (reported units and objects, accepted requests).
- PacketSink.PacketSink.HandleRead: the two traces that need no reassembly, and the choice of the local address, are left out.
- BulkSendSpec.RunSendsPrefix: the byte count is not wrapped at 2^64, and stopping the application only ends the run.
- PacketLossCounter.PacketLossCounter.SetBitMapSize: after a change of window later on, the count is no longer compared with the history, because the new ring has forgotten what was missing.
- PacketLossCounter.PacketLossCounter.NotifyReceived: the largest sequence number is excluded because the loop would not end.
- LinkSpec.RefinesRecursion: the queue is limited in packets; the receive error model, the bridge, and Ethernet framing are left out, and frames have a size and an identity only.
- OnOffSpec.RateHolds: simulation time is exact instead of rounded to ticks, and the residual bits are not wrapped at 32 bits, which they are proved not to need.
- UdpTrace.UdpTraceClient.LoadTrace: the stream yields whole lines of four fields; a malformed last line is not modelled.
- UdpTrace.UdpTraceClient.SendPacket: addresses are left out.
- Welford.Log: arithmetic is over the reals, one field at a time (the six fields are independent), and the standard deviation that follows is left out.
- TypePaths.WalkIsPreorderOfSimplePaths: the registry of types is given as data; collecting it and printing the result are left out.
- Sockets, attributes, type registration, helpers and topologies.
