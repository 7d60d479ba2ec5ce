# Verified model of the IPC and RPC libraries

The libraries carry requests, replies and unsolicited messages between a server and its clients
over stream sockets (`af_ipc_*`), and lay out typed parameters in the payloads (`af_rpc`). This
project models both and proves what they promise their callers, over every input and every run.

## How the model is laid out

**RPC messages.** `RpcFormat` describes a message independently of the code: the bytes of a list of
parameters (`Wire`, `Message`) and a reader of its own (`Parse`). `RpcEncoder`, `RpcDecoder`,
`RpcBuilder` and `RpcReaders` are the four pieces of C that share the format, as methods over byte
arrays; each is proved against it. `RpcParams` is the parameter structure with its pointer-sized
`base`, and the widening of signed numbers. `RpcTheorems` runs two of the four against each other.

**One connection end.** `SeqNum` has the sequence-number words and the wrapping counters, `Framing` the
header and the receive loop. `RequestTable` is the list of pending requests as a value, with an issue
number per request that the code does not have: ids repeat, issue numbers do not. `RequestControl` is
the linked list itself, with its timers; every method is proved to do to the list what a function of
`RequestTable` does to the value, and so on any list, not only one whose ids are distinct.

**Whole runs.** `Endpoint` makes every mutex-protected section one step of a state machine; the callback
the code runs after unlocking is a later step, so callbacks may send further requests in between.
`Protocol` puts a server, any number of clients and two FIFO channels per connection together.
`EndpointTheorems` says what follows for one end, `RequestRuns` what becomes of an end's requests over
whole runs, and `ProtocolTheorems` what holds of client ids and routing. `WrapRuns` has runs in which ids
come round again and a promise is broken. `ClientIds` and `ClientTable` are the server's client list and
id search. `Layers` shows that the class layer and the transition system make the same moves: same search,
same list after each step, same effect of a received buffer.

**Closing a client.** `ClientClose` is the state machine of the deferred close. `ClientHandle` is the class
with the receive handler; its methods are proved to make exactly the steps of that machine, from the
moment the handle is opened. **Both layers together** are in `RpcOverIpc`.

## Assumptions

- `sendmsg` puts a whole frame on the channel or fails; one `recv` returns whole frames, or a cut stream
  whose last, cut frame is lost (`Framing.CutOfStream` says what then happens; the code keeps no remainder).
- Sizes passed to send calls are not negative. The frame header is 8 bytes, the size of the C structure
  with its padding on a little-endian host; the comment at pkg/src/af_ipc_common.h:21 implies 6.
- A send failure removes a request only while that request is still pending. A timer fires only while live.
- Applications answer only sequence numbers they were given. A server application may do so after the
  client has gone; a client answers only while its own handle is open.
- A server has fewer than 65535 clients when it accepts one more (the search for an id does not end otherwise).
- Buffers are as long as the caller says, and a blob does not overlap the buffer it is copied to.
- Whether the pool has a node, a timer can be made, a send succeeds and so on are parameters.

Ids are finite, so some promises can fail once they come round again. Each is proved with the exact
condition under which it holds, over every run and with nothing assumed of any other connection, of the
other end, or of any other answer:

- **In every run** (`CanRun`): direction separation; the order of the pending list; distinct live client
  ids; the id allocation between two assignments of one id; an answer to an open client reaches its own
  connection, however old that is; and pending ids are distinct whenever the pending requests are among
  the last 32767 issued.
- **The ledger of an end** - timers and pending requests in one-to-one correspondence, callbacks at most
  once, every id accounted for - is in order in every state of a run if and only if each timeout and send
  failure of that end finds no newer pending request with its id (`RequestRuns.LedgerIffGuarded`). A run
  that breaks it: `WrapRuns.TimeoutAfterWrapRemovesAnother`.
- **Correlation**: a callback is given the answer to its own request if and only if the answer met no other
  request with its id when it came in (`RequestRuns.Correlation`; `RequestTable.MisdeliveredIff` and
  `EndpointTheorems.WrongCallbackIff` for one step). Runs that break it: `WrapRuns.LateAnswerReachesNewer`,
  `WrapRuns.AnswerReachesOlder`, `WrapRuns.AnswerReachesAnotherClient`.
- **The id window**: if an end never issues an id that leaves a request pending with 32767 newer ids
  issued (`RequestRuns.WindowRun`), its ledger is in order, and a callback is given its own answer if and
  only if that answer was given on its connection and fewer than 32767 newer ids were issued in between;
  such an answer is never given to another request, and is dropped if its own no longer waits.
- **Routing**: an answer is led to another client if and only if its own is closed and a client accepted
  whole rounds of the counter later is live (`ProtocolTheorems.MisroutedIff`), which takes at least a full
  circle of the client-id counter.

Further places where the code does less than its callers might expect, stated as the code has it:

- the client handle is freed under its own receive handler if and only if a send fails inside a
  callback (`ClientClose.SafeIff`);
- the decoder answers 0 both for an empty message and for too many parameters (`RpcDecoder.ZeroIff`,
  and one parameter in `RpcDecoder.OneParameterNoRoom`);
- a decoded INT16 is widened to 32 bits and an INT32 not at all, so without the cast `base` is the number
  only under a condition (`RpcParams.DecodedWordIsValueIff`, and -1 in `RpcParams.Int16MinusOne`);
- the length word is 16 bits, so a message of 65536 bytes or more cannot be read back
  (`RpcFormat.TruncatedUnless`, `RpcFormat.FiveLargeBlobs`); the theorems that pair a writer with a reader
  take `bufSize < 65536`;
- `af_rpc_init_buffer` and the readers compare a signed size with an unsigned constant, so a negative
  size passes that test (`RpcBuilder.InitBuffer`);
- a bare header at the very end of a buffer is not dispatched (`Framing.WholeStreamIff`, `Framing.LoneHeader`).

## Model

| member | source | states |
|---|---|---|
| RpcFormat.ValidTypeTests | pkg/src/af_rpc.h:56-78 | the tests made by encoder and decoder accept exactly the blob words up to 16383 bytes and six integer words, and only sizes 1, 2 and 4 for the latter |
| RpcFormat.TypeWords | pkg/src/af_rpc.h:56-78 | the width of each integer type, the size of each blob and string word, which words are integers, signed, valid, and the two any-size types, word by word |
| RpcFormat.MessageBytes | pkg/src/af_rpc.c:20-31 | the length word and each type word are sent most significant byte first, and the data follows |
| RpcFormat.WireOfParse | pkg/src/af_rpc.c:411-550 | whatever can be read tiles its bytes: laying the parameters out again gives the input |
| RpcFormat.ParseOfWire | pkg/src/af_rpc.c:411-550 | reading what was laid out gives back the same parameters |
| RpcFormat.HoldsIffMessage | pkg/src/af_rpc.c:401-554 | a buffer holds some parameters iff it is, byte for byte, the one message of valid parameters for them |
| RpcFormat.TruncatedUnless | pkg/src/af_rpc.c:20-24 | with the length reduced to 16 bits, the buffer is a readable message iff the true length is below 65536 |
| RpcFormat.FiveLargeBlobs | pkg/src/af_rpc.c:20-24 | five blobs of 16383 bytes are a message that cannot be read back |
| RpcFormat.EncodedSizeIsWireLength | pkg/src/af_rpc.c:316-395 | a message is 2 + sum(2 + size) bytes long |
| RpcParams.IntegerRoundTrip | pkg/src/af_rpc.c:343-372 | a number sent and read back, directly or out of the decoded word, is the same at its width and sign |
| RpcParams.OwnRangeSurvives | pkg/src/af_rpc.c:343-372 | every number in the range of its type, with the six ranges written out, is taken out as it was put in |
| RpcParams.IntegerBytes | pkg/src/af_rpc.c:343-372 | a number is sent in the 1, 2 or 4 bytes of its type, most significant first, negative ones in two's complement |
| RpcParams.DecodedWordReadsBack | pkg/src/af_rpc.c:474-518 | the cast of a decoded word is the number in the message, and sending the word again sends the same bytes |
| RpcParams.DecodedWordIsValueIff | pkg/src/af_rpc.c:474-518 | without the cast, the decoded word is the number iff the type is unsigned or INT8 or the number is not negative |
| RpcParams.Int16MinusOne | pkg/src/af_rpc.c:474-518 | the INT16 -1 is decoded to the word 4294967295 |
| RpcEncoder.CreateBufferWithParams | pkg/src/af_rpc.c:298-399 | succeeds iff every parameter can be sent and the message fits; then the bytes are that message and the rest is untouched; otherwise the error is that of the first refused parameter and the length word is untouched |
| RpcEncoder.ParamsSizeIsEncodedSize | pkg/src/af_rpc.c:316-395 | where the encoder stands, computed from type words alone, is the length of the message |
| RpcEncoder.RefusalIff | pkg/src/af_rpc.c:316-395 | which parameters are written, and which of the three errors each other one gets |
| RpcDecoder.GetParamsFromBuffer | pkg/src/af_rpc.c:401-554 | answer and parameters are the ones the format gives for the bytes; entries of the array past the one last looked at are untouched |
| RpcDecoder.OutcomeUnique | pkg/src/af_rpc.c:401-554 | bytes, expectations and mode determine the answer and the parameters read |
| RpcDecoder.AcceptedIff | pkg/src/af_rpc.c:411-550 | n >= 1 parameters are returned iff the buffer is, byte for byte, the message of n parameters that are as expected |
| RpcDecoder.StrictIff | pkg/src/af_rpc.c:453-469 | strict mode returns n >= 1 iff permissive mode does, n is the expected count and every parameter matches; the parameters are the same |
| RpcDecoder.AnswerToMessage | pkg/src/af_rpc.c:426-550 | the exact answer to every well-formed message in both modes: count, 0 for want of room, -3 at the first parameter of another type than expected, -6 for too few |
| RpcDecoder.ShortBuffer | pkg/src/af_rpc.c:411-425 | a buffer shorter than its length word is answered -4 |
| RpcDecoder.TrailingBytes | pkg/src/af_rpc.c:545-550 | parameters that end before the buffer does are answered -4 |
| RpcDecoder.CutParameter | pkg/src/af_rpc.c:436-450 | a parameter that is cut short anywhere is answered -4 |
| RpcDecoder.InvalidType | pkg/src/af_rpc.c:453-522 | a type word that stands for nothing is answered -3 |
| RpcDecoder.DecodingInjective | pkg/src/af_rpc.c:401-554 | two buffers decoded to the same parameters are equal |
| RpcDecoder.ZeroIff | pkg/src/af_rpc.c:430-433 | the answer 0 means an empty message (length word at most 2) or more parameters than there is room for, and nothing else |
| RpcDecoder.OneParameterNoRoom | pkg/src/af_rpc.c:430-433 | a message of one parameter, decoded with no room, is answered 0 like an empty one |
| RpcDecoder.WirePrefix | pkg/src/af_rpc.c:426-538 | the layout is a prefix code: of two lists at the front of the same bytes one extends the other |
| RpcBuilder.InitBuffer | pkg/src/af_rpc.c:774-784 | writes the empty message, and which sizes are refused |
| RpcBuilder.AddInteger | pkg/src/af_rpc.c:45-258 | each integer call: the refusals in order, nothing changed by a refusal, the whole new buffer otherwise |
| RpcBuilder.AddBlob | pkg/src/af_rpc.c:260-294 | the same for blobs |
| RpcBuilder.ExtendBuilt | pkg/src/af_rpc.c:260-294 | extending a buffer in place gives the message with the new parameter last |
| RpcBuilder.Build | pkg/src/af_rpc.c:45-294 | after `init_buffer` and any sequence of calls, accepted or refused, the buffer starts with the message of exactly the accepted values in order, and each call was answered with the new length or with why it was refused |
| RpcBuilder.AcceptedIsTaken | pkg/src/af_rpc.c:45-294 | which values are accepted is decided by their sizes alone: each that is not bad and still fits |
| RpcBuilder.AddRefusalIff | pkg/src/af_rpc.c:260-294 | why a value is refused: a bad value, no buffer to speak of, or want of room |
| RpcReaders.GetInteger | pkg/src/af_rpc.c:556-772 | each integer reader: the refusals in order, the value at its width and sign, the next position, nothing written on refusal |
| RpcReaders.GetBlob | pkg/src/af_rpc.c:786-827 | the same for blobs, within the capacity given |
| RpcReaders.NotRefusedAt | pkg/src/af_rpc.c:556-827 | on a message the matching reader at a parameter's offset is never refused, given room for a blob |
| RpcReaders.IntegerReaderIff | pkg/src/af_rpc.c:556-772 | on a message, an integer reader reads a parameter iff its type is the parameter's; otherwise it answers -3, or -4 if its number would not fit |
| RpcReaders.BlobReaderIff | pkg/src/af_rpc.c:786-827 | on a message, the blob reader reads a parameter iff it is a blob and there is room; otherwise it answers -3 or -1 |
| RpcReaders.NothingBehind | pkg/src/af_rpc.c:556-827 | readers past the last parameter, or with a buffer shorter than the message, are refused, and with which error |
| RpcReaders.ReadChain | pkg/src/af_rpc.c:556-827 | matching readers chained from position 0 read every parameter, stop at every boundary and end at the declared length |
| RpcTheorems.EncodeMessage | pkg/src/af_rpc.c:298-399 | encoding succeeds iff 2 + sum(2 + size) fits, returns that number and leaves a buffer that holds the parameters |
| RpcTheorems.DecodeMessage | pkg/src/af_rpc.c:401-554 | decoding a buffer that holds a message returns structures that mean its parameters |
| RpcTheorems.BatchRoundTrip | pkg/src/af_rpc.c:298-554 | encode then decode, even into the sender's own array: same count, types, numbers at their width and sign, blob contents, and every number in its type's range unchanged |
| RpcTheorems.DecodeThenEncode | pkg/src/af_rpc.c:298-554 | decode then encode into another buffer reproduces the input byte for byte |
| RpcTheorems.BuilderMatchesBatch | pkg/src/af_rpc.c:45-399 | building value by value gives the bytes that encoding the accepted values at once gives |
| RpcTheorems.AddedMeans | pkg/src/af_rpc.c:45-294 | what a reader gets out of an added value is the number or the bytes offered, under the type word offered |
| RpcTheorems.BuildThenRead | pkg/src/af_rpc.c:45-827 | build, then read: the chained readers get exactly the values the buffer took, in order, as they were offered |
| RpcTheorems.ReadersMatchBatch | pkg/src/af_rpc.c:426-827 | whatever permissive decoding accepts with n >= 1, the chained readers read the same values from it, given room for the blobs there are |
| SeqNum.RequestsAndRepliesApart | pkg/src/af_ipc_prv.h:89-104 | whatever ids are outstanding at the two ends, a request is taken for a request, and its answer for a reply with the same id and client id |
| SeqNum.AppWordIsClean | pkg/src/af_ipc_common.c:427-431 | no application sees bit 15, and it sees the client id its own end uses |
| SeqNum.RequestIdIsNth | pkg/src/af_ipc_common.c:175-185 | the n-th id generated is ((n-1) mod 32767) + 1 |
| SeqNum.ClientIdIsNth | pkg/src/af_ipc_server.c:100-108 | the n-th value of the client counter is ((n-1) mod 65535) + 1 |
| SeqNum.NthRepeatsIff | pkg/src/af_ipc_common.c:175-185 | two ids of a counter are equal iff they are whole rounds apart |
| Framing.HeaderOfEncode | pkg/src/af_ipc_common.c:263-280 | the header of a frame that may be sent reads back; its 16-bit length is never truncated |
| Framing.HeaderBytes | pkg/src/af_ipc_common.c:263-280 | the frame byte by byte: sequence number and total length least significant byte first, two bytes of padding, the payload; at most 4088 bytes of it |
| Framing.CutOfStream | pkg/src/af_ipc_common.c:386-400 | a stream of frames with payloads cut at any byte is dispatched as exactly the frames wholly before the cut, in order |
| Framing.WholeStreamIff | pkg/src/af_ipc_common.c:386-400 | a whole stream is dispatched whole iff its last frame has a payload |
| Framing.LoneHeader | pkg/src/af_ipc_common.c:386-400 | a request without a payload, alone in a buffer, is not dispatched |
| Framing.ReceiveLoop | pkg/src/af_ipc_common.c:386-515 | on any bytes it ends; its dispatches are in bounds, tile a prefix of the buffer, carry the right word and payload, and stop only where no frame can be cut |
| RequestTable.DistinctIds | pkg/src/af_ipc_common.c:175-185 | pending ids are pairwise distinct while all pending requests are among the last 32767 issued |
| RequestTable.RegisterKeeps | pkg/src/af_ipc_common.c:295-329 | a new request keeps timers and pending requests in one-to-one correspondence, also when its timer cannot be made |
| RequestTable.CancelIff | pkg/src/af_ipc_common.c:67-94 | a timeout or send failure removes exactly its own request iff no newer pending request has the same id |
| RequestTable.CancelInWindow | pkg/src/af_ipc_common.c:192-229 | within the id window it always does |
| RequestTable.AnswerKeeps | pkg/src/af_ipc_common.c:465-497 | lookup and removal of a reply pick the same request even if ids repeat, and one without a match changes nothing |
| RequestTable.ReplyMatchesIff | pkg/src/af_ipc_common.c:465-502 | a reply within the window is matched with its own request iff that is pending, and with no other |
| RequestTable.MisdeliveredIff | pkg/src/af_ipc_common.c:465-502 | whatever ids repeat, a reply goes to another request iff a newer one with its id is pending, or its own is gone and an older one with its id is pending |
| RequestTable.MatchedIsNewest | pkg/src/af_ipc_common.c:468-474 | the lookup finds the newest of the pending requests with the id |
| RequestTable.StaysOrdered | pkg/src/af_ipc_common.c:67-502 | every operation keeps the list in order of issue, even when ids repeat |
| RequestControl.RequestControl.FindUnusedRequest | pkg/src/af_ipc_common.c:42-59 | a fresh node at the head of the linked list, or no change |
| RequestControl.RequestControl.GenSeqId | pkg/src/af_ipc_common.c:175-185 | returns and stores the id of the next issue number |
| RequestControl.RequestControl.FindNode | pkg/src/af_ipc_common.c:470-474 | the first node with the id, and the node before it |
| RequestControl.RequestControl.RemoveRequest | pkg/src/af_ipc_common.c:67-94 | unlinks the first node with the id; the other nodes stay, in order |
| RequestControl.RequestControl.RegisterRequest | pkg/src/af_ipc_common.c:292-336 | the first critical section of a send: node, id and timer, or neither node nor timer with the id possibly used up |
| RequestControl.RequestControl.OnTimeout | pkg/src/af_ipc_common.c:192-229 | the whole new table, the callback to run, and the list is in order afterwards iff the first node with the id is the one that timed out |
| RequestControl.RequestControl.Drop | pkg/src/af_ipc_common.c:355-368 | the second critical section after a failed send, likewise |
| RequestControl.RequestControl.OnReply | pkg/src/af_ipc_common.c:465-502 | the whole new table and the matched request's own callback; without a match nothing changes |
| RequestControl.RequestControl.ShutdownRequests | pkg/src/af_ipc_common.c:134-169 | every timer and every pending request goes, and no id is used up |
| RequestControl.Send | pkg/src/af_ipc_common.c:239-377 | sends one whole frame or none, when it succeeds; a failed send leaves the pending requests and timers as they were, and a successful request is the newest one pending, with a timer |
| Endpoint.ActKeeps | pkg/src/af_ipc_common.c:133-511 | every step of an end, however late anything is and whatever ids repeat, keeps its list in order of issue and its mail, received messages and replies what their words say they are |
| Endpoint.SendsInOrder | pkg/src/af_ipc_common.c:239-377 | an end sends only requests it made and answers to requests it was given, under their ids; an answer led to another connection cannot pass for one of its own |
| Endpoint.LedgerIff | pkg/src/af_ipc_common.c:133-511 | a step keeps timers, pending requests, fates and callbacks accounted for, iff it is not a timeout or send failure that finds a newer request with its id |
| Endpoint.ActKeepsWindow | pkg/src/af_ipc_common.c:133-511 | only issuing an id takes an end out of its id window, and inside it timeouts and send failures find their own request |
| EndpointTheorems.Conservation | pkg/src/af_ipc_common.c:133-511 | issued = pending + replied + timed out + failed + shut down + never left in the list, and the live timers are those of the pending requests |
| EndpointTheorems.CallbackOnce | pkg/src/af_ipc_common.c:191-229 | exactly one callback for a request replied to or timed out, none for any other |
| EndpointTheorems.FateIsFinal | pkg/src/af_ipc_common.c:133-511 | how a request left the list is never changed by a later step |
| EndpointTheorems.OnlyWaitingFire | pkg/src/af_ipc_common.c:191-229 | no timeout fires for a request replied to, failed or shut down |
| EndpointTheorems.TimeoutOwes | pkg/src/af_ipc_common.c:191-229 | a timeout that finds its own request owes its callback, takes it and its timer away, and changes nothing else |
| EndpointTheorems.SendFailureSilent | pkg/src/af_ipc_common.c:351-374 | a failed send takes its request and timer away and owes no callback |
| EndpointTheorems.CloseEnds | pkg/src/af_ipc_common.c:133-169 | a close leaves nothing pending and no timer, owes no new callback, and nothing but callbacks already owed can happen to the end afterwards |
| EndpointTheorems.SentOnce | pkg/src/af_ipc_common.c:239-377 | a request is put on the wire at most once |
| EndpointTheorems.AnswerArrives | pkg/src/af_ipc_common.c:465-511 | inside the id window, an answer in time goes to its request if that still waits and is dropped without effect otherwise, whatever came of other answers |
| EndpointTheorems.RequestArrives | pkg/src/af_ipc_common.c:402-440 | a peer's request goes to the application and never touches the pending requests, whatever their ids |
| EndpointTheorems.WrongCallbackIff | pkg/src/af_ipc_common.c:465-511 | whatever ids repeat and wherever it was given, an answer runs a callback that is not its own request's iff it meets another request with its id |
| EndpointTheorems.GivesIff | pkg/src/af_ipc_common.c:465-511 | the callback an answer runs is the one of the request it answers - connection, issue number and payload - iff it meets no other |
| EndpointTheorems.InTimeIff | pkg/src/af_ipc_common.c:465-511 | inside the id window it is iff the answer was given on this connection less than a round of ids ago |
| WrapRuns.TimeoutAfterWrapRemovesAnother | pkg/src/af_ipc_common.c:192-229 | a run in which the counter has wrapped and a timeout removes another request with the same id |
| WrapRuns.LateAnswerReachesNewer | pkg/src/af_ipc_common.c:465-511 | a run in which an answer that comes a round late is given to a newer request |
| WrapRuns.AnswerReachesOlder | pkg/src/af_ipc_common.c:465-511 | a run in which an answer, with no newer request issued, is given to a request that has waited for a round |
| WrapRuns.AnswerReachesAnotherClient | pkg/src/af_ipc_server.c:271-281 | a run in which the answer to a closed client is led to the client that has its id now, and to that client's own request |
| ClientIds.Pigeonhole | pkg/src/af_ipc_server.c:100-121 | the counter cannot pass more held ids than are held, short of a whole round |
| ClientIds.FreeIdSoon | pkg/src/af_ipc_server.c:100-121 | with m live clients the search ends within m + 1 rounds |
| ClientIds.FullCircle | pkg/src/af_ipc_server.c:100-121 | between two ticks with the same id the counter went through every id |
| ClientTable.Server.GetNextCid | pkg/src/af_ipc_server.c:100-121 | ends within m + 1 rounds with a nonzero id no client holds; every id it skipped is held |
| ClientTable.Server.AllocAndInitClient | pkg/src/af_ipc_server.c:123-146 | a new client with a free id at the head of the list and all else unchanged, or no client and possibly an id used up |
| ClientTable.Server.FindClientByCid | pkg/src/af_ipc_server.c:150-161 | finds the first client with the id, and fails iff no client has it |
| ClientTable.Server.CloseClient | pkg/src/af_ipc_server.c:183-199 | removes exactly this client, keeps the order of the others and the distinctness of ids; a client not in the list changes nothing |
| ClientTable.Server.SendResponse | pkg/src/af_ipc_server.c:256-300 | the response goes to the client named by the sequence number or is refused; a failed send closes that client and no other |
| ClientTable.Server.SendUnsolicited | pkg/src/af_ipc_server.c:302-354 | a broadcast puts the frame on every client's wire once, apart from the sends that fail, and closes none; any other message goes to the one client, closed if its send fails, or to no one |
| Protocol.RouteOfConn | pkg/src/af_ipc_server.c:271-281 | the id of an open client leads to its own connection, however old; that of a closed one nowhere, or to another client iff it is reassigned |
| Protocol.NotReassignedSoon | pkg/src/af_ipc_server.c:100-121 | a closed client's id is not reassigned until the counter has gone full circle |
| Protocol.StepKeepsOrderly | pkg/src/af_ipc_server.c:100-300 | every step of the whole system keeps client ids, ticks and both ends of every connection in order |
| Protocol.RunsAreOrderly | pkg/src/af_ipc_prv.h:41-64 | every state of every run, with any number of clients, has its ids, ticks and ends in order |
| RequestRuns.LedgerIffGuarded | pkg/src/af_ipc_common.c:133-511 | over every run, an end's ledger is in order in every state iff none of its timeouts and send failures finds a newer request with its id |
| RequestRuns.WindowIsGuarded | pkg/src/af_ipc_common.c:175-229 | in every run in which an end keeps its id window its timeouts and send failures find their own requests |
| RequestRuns.Correlation | pkg/src/af_ipc_client.h:96-98 | in every run, a payload given to a request's callback answers that very request - connection, issue number, payload - iff it met no other request when received; inside the id window, iff it came from this connection and was in time |
| RequestRuns.AnswerArrivesInRuns | pkg/src/af_ipc_client.h:96-98 | in every run in which an end keeps its id window, an answer in time goes to its own request if that waits, and if that has timed out it is dropped and never given to another |
| RequestRuns.AtMostOnce | pkg/src/af_ipc_common.c:191-229 | in every run in which an end's timeouts find their own, a request has one callback if replied to or timed out and none otherwise, even when callbacks send requests and answers come late |
| RequestRuns.Conserved | pkg/src/af_ipc_common.c:133-511 | in every such run the ids issued are the sum over the ways out of the list, and timers match pending requests |
| RequestRuns.OnlyWaitingFireInRuns | pkg/src/af_ipc_common.c:191-229 | in every such run a timeout that fires is a waiting request's |
| RequestRuns.OwedAreRun | pkg/src/af_ipc_common.c:223-228 | from any state the callbacks owed can be run: exactly those, in order, each once, none left owed, nothing else changed |
| RequestRuns.DistinctPending | pkg/src/af_ipc_common.c:175-185 | in every run, pending ids are distinct whenever the pending requests are among the last 32767 issued |
| RequestRuns.NothingMistaken | pkg/src/af_ipc_prv.h:62-64 | in every run, no message is taken for what it is not; receive callbacks are given the peer's request id and client id, reply callbacks the id answered, and neither ever bit 15 |
| RequestRuns.FateIsFinalInRuns | pkg/src/af_ipc_common.c:133-511 | a request that left the pending list stays what it became for the rest of any run in which its end's timeouts find their own |
| ProtocolTheorems.LiveIdsDistinct | pkg/src/af_ipc_server.c:123-146 | in every run live client ids are distinct and nonzero |
| ProtocolTheorems.FullCircleBetween | pkg/src/af_ipc_server.c:100-121 | in every run, between two assignments of the same id every other id was assigned, used up in vain, or found held by a live client |
| ProtocolTheorems.AnswersGoHome | pkg/src/af_ipc_server.c:256-300 | an answer goes to the connection its request came from while that is open, however old; once closed it is refused and nothing changes, unless the id is reassigned |
| ProtocolTheorems.MisroutedIff | pkg/src/af_ipc_server.c:271-281 | in every run, an answer is led to another client iff its own is closed and one accepted whole rounds later is live |
| ProtocolTheorems.ExchangeCompletes | pkg/src/af_ipc_prv.h:41-64 | from any state with both ends open and no mail, however old the client, a request of an end that keeps its ledger and id window can be sent and answered, and its callback run once with that answer after all those owed before |
| ProtocolTheorems.TellArrives | pkg/src/af_ipc_prv.h:28-50 | an unsolicited message of either end is given to the other's application, under no request id and the right client id, and changes nothing else |
| ProtocolTheorems.FailedSendLeavesNothing | pkg/src/af_ipc_common.c:351-374 | a request whose send fails leaves pending requests, timers and callbacks as they were and the other end untouched |
| ProtocolTheorems.AcceptPossible | pkg/src/af_ipc_server.c:100-146 | with m < 65535 live clients another can be accepted, under an id at most m + 1 steps ahead |
| Layers.SearchIsRoute | pkg/src/af_ipc_server.c:150-161 | the search through the list ends at the connection the transition system routes to, and fails iff there is none |
| Layers.ListOverStep | pkg/src/af_ipc_server.c:123-199 | over every step of the system the list changes as the class changes it: accepted clients at its head, closed ones taken out, the rest in order |
| Layers.HearInOrder | pkg/src/af_ipc_common.c:386-511 | the dispatches of a buffer, in order, have the effect of the receive steps for its messages |
| Layers.ReceiveBuffer | pkg/src/af_ipc_common.c:386-515 | the receive loop on the bytes of a channel does what the transition system does to the messages wholly in the buffer |
| ClientClose.RunsAreSafe | pkg/src/af_ipc_client.c:189-216 | with sends inside callbacks succeeding: marked implies in receive, freed and close callback at most once and together, never freed under the handler |
| ClientClose.NoReceiveOnMarked | pkg/src/af_ipc_client.c:189-216 | a marked handle starts no new receive; the end of its walk frees it |
| ClientClose.SafeIff | pkg/src/af_ipc_client.c:137-166 | over all runs, the handle is never freed under its handler iff no send fails inside a callback |
| ClientClose.SendFailureInsideFreesUnderHandler | pkg/src/af_ipc_client.c:239-246 | a concrete run with one failing send inside a callback |
| ClientHandle.Server.Walk | pkg/src/af_ipc_client.c:189-216 | every frame of a buffer has its callback run, also after one that closes; marked afterwards iff one did; a send that fails inside frees the handle under the walk |
| ClientHandle.Server.OnRecv | pkg/src/af_ipc_client.c:177-220 | the handler makes exactly the steps of the state machine; where it stops, how many callbacks it ran, and that the handle is freed with one close callback iff it stopped for a close, a failure, or a send that failed inside a callback |
| ClientHandle.Server.Close | pkg/src/af_ipc_client.c:301-315 | frees at once outside the handler and only marks inside it, as the state machine does |
| ClientHandle.Server.OutsideHandler | pkg/src/af_ipc_client.c:239-246 | application code that runs outside the handler makes one step of the state machine |
| ClientHandle.Server.GiveControl | pkg/src/af_ipc_client.c:239-246 | what application code can do to the handle is what the state machine says: nothing, a close, or a failing send that frees it |
| ClientHandle.Server.CloseAndFree | pkg/src/af_ipc_client.c:137-166 | event, pending requests with their timers, and descriptor go, the handle is freed, then one close callback runs |
| RpcOverIpc.MakeRequest | pkg/src/af_ipc_common.c:263-280 | parameters whose encoding fits the frame limit make one frame that holds them, with exact 16-bit lengths in both layers |
| RpcOverIpc.ReceiveStream | pkg/src/af_ipc_common.c:386-440 | the i-th whole frame of a stream is the i-th dispatch, with exactly its payload |
| RpcOverIpc.Arrives | pkg/src/af_ipc_common.c:386-440 | a request frame's parameters arrive as one dispatch under its id and decode from its payload, whatever other frames share the buffer |
| RpcOverIpc.SendAndReceive | pkg/src/af_rpc.c:298-554 | from the sender's structures to the receiver's: whatever fits a frame arrives among any frames as one dispatch under the request's id and decodes to the same count, types, numbers and blobs; what does not fit is refused |

## Left out

- RpcBuilder.AddInteger: the six integer calls are one method with the type as a parameter; they differ in nothing else.
- RpcReaders.GetInteger: the six integer readers are one method likewise, and positions are not negative.
- RpcReaders.GetBlob: a position the code accepts within two bytes of the end of the memory is excluded, because the code reads the type word there before it compares with the end.
- Framing.ReceiveLoop: collects the calls it makes instead of making them; what callbacks do is a step of the transition system.
- RequestControl.Send: the case in which nothing comes between its two critical sections; other interleavings are runs of `Endpoint`.
- RpcOverIpc.Arrives: the payload is copied to an array of its own before it is decoded, because an address inside the receive buffer cannot be an array.
- ClientHandle.Server.OnRecv: ends at a send that fails inside a callback, because the code then goes on in freed memory. Requests that callbacks make of the same connection are steps of `Endpoint`.
- Sockets, libevent and pthreads: only channels, timers and atomic sections are kept. Byte order of the header is fixed as little-endian.
- Memory pools: an allocator that may fail; af_mempool is not part of this model.
- Partial frames carried from one `recv` to the next: the code keeps none.
- `af_ipcs_close`: the flag that guards its loop over clients (pkg/src/af_ipc_server.c:675) is never set anywhere in the library, so the documented close callbacks do not happen.
- Deferred close on the server side: nothing in the library sets its mark, and server callbacks are assumed not to close their own client.
- The failure of `event_new` in `add_client` (pkg/src/af_ipc_server.c:235-238), which closes the client while holding the mutex.
- Null callbacks and callback contexts: a callback is one opaque value.
- Logging and hex dumps: they do not change state. `ipc_send.c`, `ipc_wait.c` and the test programs: callers of the library, which parse command lines and print text.
