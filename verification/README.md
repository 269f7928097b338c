# A verified model of a long-connection broker

The broker keeps many WebSocket connections open, watches that they are alive, and pushes messages to them by user
and by topic. This project models its three parts that hold state and proves what they promise.

**The WebSocket frame pipeline** (`repo/ws`, `repo/ws/wsutil`, and the framing in `broker/websocket.go`), an
implementation of RFC 6455. The main result is `RoundTrip.RoundTrip`: any calls on one `Writer` with a buffer of any size,
any number of messages among them, followed by `Flush`, reach `ReadMessage` on the other side as exactly the messages that
have been ended, in order, each with the writer's opcode and the bytes the calls took for it, however the source cuts its
reads; it stops at a text that is not UTF-8, and reports what was begun and not ended as cut off. For the calls of a single
message, `RoundTrip.OneMessage` says what that comes to. It rests on these layers.

- `Bytes`, `Cipher`, `CipherIO`: bytes, the word-at-a-time XOR cipher in place on arrays, and its running position.
- `Header`, `Check`: the header printer and the two header parsers; the rules for single frames and for sequences.
- `Utf8`, `Utf8Scalar`, `Utf8Reader`: the table-driven automaton, the scalar values it gathers, and the streaming reader.
- `Frames`, `Reading`, `Reassembly`, `Language`: frames as values, and what the `Reader` makes of a byte stream, as
  functions of the stream alone (`Open`, `Drain`, `Receive`), with the reassembly theorems and the reader's language.
- `Streams`, `Reader`, `ReadMessage`, `Discard`, `Writer`, `Control`, `Framing`: the objects, updated in place and proved
  against those functions.

**The heartbeat scheduler** (`broker/heartbeat.go`, `broker/gnet.go`): `HeapOrder` and `Heap` (the index-tracking binary
heap with the sift loops of Go's `container/heap`), `Heartbeat` (the map, the queue of requests, and the budgeted sweep
with lazily refreshed deadlines), `Gnet` (connections that open and close) and `Events` (what a server is like after a run,
read off the events of the run alone).

**Registration** (`broker/conn.go`, `server.go`, `group.go`, `hub.go`): `TopicIndex` (the two-way topic index as a
function of the operations performed on it), `Group` (hubs and group managers, updated in place), `Registry` (the
transition system of authenticating and closing connections, with one step for each operation under a lock) and `Sessions`
(what authenticating and closing come to in any run of it, and which pushes a connection gets).

An `io.Reader` is a byte sequence behind a `Source` that returns any number of the bytes asked for at each read, now and
then none; an `io.Writer` is an append-only byte sequence behind a `Sink` that may fail. Clocks, pings, newly made masks
and the making of a group manager are arbitrary.

## Findings

Where the code does not do what one might expect of it, the model follows the code and says exactly when.

- The byte-slice decoder never gets past a masked frame without payload, among them every pong with which a client
  answers the heartbeat's own pings (broker/conn.go:220-228), and cuts an unmasked short frame off two bytes too early:
  `Framing.CutsOffIffFramable`, `Framing.EmptyControlStalls`.
- A client's protocol-error close is masked without being marked so, and a server refuses it:
  `Control.ErrorReplyPassesIffServer`.
- `HandlePing` answers with all that its source holds, not with the announced length. The pong is a proper one iff the
  source ends with the payload; if the source goes on, as a connection does, the copying is broken off or the pong goes
  out in fragments: `Control.ControlHandler.HandlePing`.
- The broker hands single frames to `ReadClientMessage`, so a fragmented message makes it close the connection; and it
  drops the reply that `HandleClose` prepares: `Framing.BrokerTakesWholeMessagesOnly`, `Framing.React`.
- `CheckCloseFrameData` accepts every code from 5000 up; section 7.4.2 of RFC 6455 does not define those: `Control.CloseCheckIsTheRule`.
- `ReadHeaderFromBytes` returns offset 0 for a header without extra bytes: `Header.ParsersAgree`.
- A `ReadFrom` that makes no progress does not mark the writer as dirty. Without a sink error, `Flush` leaves no message open
  iff the writer was dirty, or something was buffered, or nothing had been sent: `Writer.Writer.Flush`. Otherwise it does
  nothing, and the peer waits for the end of a message: `RoundTrip.StrandedByNoProgress`, `RoundTrip.StrandedWitness`.
- `Discard` does not notice that a stream ends inside the payload of a final frame. Of a message stream that is cut, it
  reports the cut iff that lies before the end of the final frame's header:
  `Discard.CutIsNoticedBeforeTheFinalPayload`, `Discard.CutGoesUnnoticed`.
- `Subscribe` and `UnSubscribe` give up the lock between the two topic indices. `TopicIndex.SubscribeInterrupted` and
  `TopicIndex.UnsubscribeInterrupted` say, for any operation that comes between, exactly when it leaves the indices different.

## Model

| member | source | states |
|---|---|---|
| RoundTrip.RoundTrip | repo/ws/wsutil/writer.go:260-416 | End to end, for every buffer size, any run of Write, WriteThrough, ReadFrom, FlushFragment and Flush calls, any sources, and any chunking of reads: what each call answers, and from the answers alone exactly the messages that ReadMessage returns one after the other, and the error it ends with |
| RoundTrip.Send | repo/ws/wsutil/writer.go:362-375 | The stream is the encoding of one whole run of frames for each ended message, whose payloads glued are its bytes, and of the fragments of what was begun and not ended |
| RoundTrip.RunIsMessage | repo/ws/wsutil/writer.go:389-416 | The frames of a writer's message are a legal message for a reader on the other side, with no control frames in it |
| RoundTrip.RunScript | repo/ws/wsutil/writer.go:260-373 | Every answer is determined by the call and the buffered count before it, but for how far a ReadFrom gets that makes no progress and whether it leaves a full buffer; every accepted byte is accounted for in order |
| RoundTrip.OneMessage | repo/ws/wsutil/helper.go:27-63 | The calls of one message and a Flush: exactly one message with all that the calls took, iff one of them began it, and nothing left open, unless a ReadFrom made no progress |
| RoundTrip.StrandedByNoProgress | repo/ws/wsutil/writer.go:342-344 | A ReadFrom that took something and made no progress, FlushFragment, Flush: no message is ended, and a reader meets the end of the stream inside one |
| RoundTrip.StrandedWitness | repo/ws/wsutil/writer.go:320-347 | Such answers are among those that the contract of a Writer admits, with a buffer of four bytes and a source of four |
| RoundTrip.ReceivesLast | repo/ws/wsutil/reader.go:150-167 | Behind the last whole message a reader meets the end of the stream, or the reason why an open message is none |
| Cipher.Cipher | repo/ws/cipher.go:14-61 | Head, 64-bit words and tail together mask every byte i of the payload with mask[(offset+i)%4] and touch nothing else |
| Cipher.MaskedTwice | repo/ws/cipher.go:8-14 | Masking twice with the same key and offset restores the payload |
| Cipher.MaskedConcat | repo/ws/wsutil/cipher.go:33-38 | Masking a stream in two parts, the second at the running position, is masking it at once |
| Cipher.XorWord | repo/ws/cipher.go:36-51 | A 64-bit XOR with the doubled little-endian mask masks eight consecutive bytes |
| CipherIO.CipherReader.Unmask | repo/ws/wsutil/cipher.go:33-38 | What was read is deciphered in place at the running position, which advances by as much |
| CipherIO.CipherWriter.Write | repo/ws/wsutil/cipher.go:62-72 | The bytes that reach the destination are the masked bytes at the running position, also when the write is cut short |
| CipherIO.CipherChunks | repo/ws/wsutil/cipher.go:62-72 | Ciphering a stream chunk by chunk equals ciphering it in one call |
| Header.ParseInvertsEncode | repo/ws/read.go:128-200 | Parsing what WriteHeader prints, whatever follows, gives the header back and takes exactly HeaderSize bytes |
| Header.EncodeIsPrefixFree | repo/ws/write.go:49-87 | No header's encoding begins another's |
| Header.ReEncodingIsMinimal | repo/ws/read.go:128-200 | A header accepted from any bytes encodes to no more than it was read from, and to the same bytes if it takes as many |
| Header.ParsersAgree | repo/ws/read.go:18-92 | ReadHeaderFromBytes gives what ReadHeader gives; the offset is right iff there are extra header bytes, and 0 else |
| Header.TopBitIsRefused | repo/ws/read.go:60-92 | Both parsers refuse for good exactly the headers that are all there and have a 64-bit length with the top bit set |
| Header.FillHeader | repo/ws/write.go:49-84 | Filling the header buffer field by field gives the encoding |
| Header.WriteHeader | repo/ws/write.go:49-87 | The destination gets the encoding, or a prefix of it when it fails |
| Header.ReadHeader | repo/ws/read.go:128-200 | Over any chunking, the header and the rest of the stream that parsing the stream determines, or its error |
| Check.AcceptsExactlyTheAllowed | repo/ws/check.go:76-116 | The header sequences that the check lets through along a run are exactly those of section 5.4 of RFC 6455, and the fragmentation flag is set iff a data message is open |
| Language.ReaderLanguage | repo/ws/wsutil/reader.go:150-212 | Of any sound frames encoded one behind the other, NextFrame accepts the first m iff their headers are a sequence that section 5.4 of RFC 6455 allows |
| Language.NextFrames | repo/ws/wsutil/reader.go:128-212 | On one Reader, whatever its state, and over any chunking: NextFrame and the consuming of its frame, again and again, give exactly the headers of that language |
| Language.OpenTakesNextState | repo/ws/wsutil/reader.go:150-212 | NextFrame checks against the state it is in and leaves the state the language is defined by |
| Check.CheckIsTheRule | repo/ws/check.go:76-116 | One header passes iff it obeys the rules for single frames and continues a message exactly when one is open |
| Check.NamedRuleIsBroken | repo/ws/check.go:76-116 | Of a header that is refused, the error names a rule that it breaks |
| Utf8.AutomatonDecidesUtf8 | repo/ws/wsutil/utf8.go:104-140 | From the start state a byte sequence ends accepted iff it is a concatenation of characters of section 4 of RFC 3629 |
| Utf8.AutomatonRejectsTheHopeless | repo/ws/wsutil/utf8.go:104-140 | It ends rejected iff no continuation is well-formed |
| Utf8.RejectStays | repo/ws/wsutil/utf8.go:104-140 | Nothing leads out of the reject state |
| Utf8Scalar.CodepIsTheLastScalar | repo/ws/wsutil/utf8.go:130-140 | At each accept codep is the scalar value of the character just completed |
| Utf8Scalar.ScalarInvertsEncode | repo/ws/wsutil/utf8.go:130-140 | The scalar read from a scalar's encoding is that scalar |
| Utf8Scalar.EncodeInvertsScalar | repo/ws/wsutil/utf8.go:130-140 | Every character the automaton admits is the encoding of its scalar value |
| Utf8Reader.UTF8Reader.Check | repo/ws/wsutil/utf8.go:50-70 | One read advances the automaton by its bytes; it fails iff the automaton rejects one of them, with the count of the bytes in whole characters before that one |
| Utf8Reader.Feed | repo/ws/wsutil/utf8.go:50-80 | Fed in any chunks, a UTF8Reader fails in the read that holds the byte at which the automaton rejects the whole stream, or ends in the state of a single read; it ends valid iff the stream is well-formed |
| Utf8Reader.RejectAtConcat | repo/ws/wsutil/utf8.go:53-64 | The byte at which the automaton first rejects is the same in a stream and in its two halves read one after the other |
| Utf8Reader.RejectedSomewhere | repo/ws/wsutil/utf8.go:50-80 | There is such a byte iff the run ends in the reject state |
| Reader.Reader.NextFrame | repo/ws/wsutil/reader.go:150-212 | The state, the limited reader and the chain of readers after it, the control message handed aside, or the error, as the stream determines them |
| Reader.Reader.Read | repo/ws/wsutil/reader.go:81-124 | Whatever a call takes in, the message ends as it would have ended before the call, behind what the call delivered; end and error are reported only when they are due, and every call makes progress |
| Reader.Reader.ReadBody | repo/ws/wsutil/reader.go:98-124 | The same below NextFrame, over cipher, UTF-8 check and limited reader |
| Reader.Reader.ReadAside | repo/ws/wsutil/helper.go:32-39 | The callback takes the whole payload of the control frame, deciphered, in any chunks |
| Reading.ReadSomeFirst | repo/ws/wsutil/reader.go:98-124 | Reading part of a payload first does not change how the message ends |
| Reading.RejectEndsMessage | repo/ws/wsutil/reader.go:98-101 | Bytes that the automaton rejects break the message, however the rest is read |
| Reading.DrainBound | repo/ws/wsutil/reader.go:81-124 | No message holds more than the stream it came from |
| Reading.ReceiveBounds | repo/ws/wsutil/helper.go:27-63 | A control message that ReadMessage returns as the last one has at most 125 bytes |
| ReadMessage.ReadMessage | repo/ws/wsutil/helper.go:27-63 | On a reader over any chunking: the messages, the error and the rest of the stream are a function of the stream alone |
| ReadMessage.ReadWhole | repo/ws/wsutil/helper.go:46-52 | io.ReadFull into a buffer of the frame's length gets exactly the message of that frame, or its error |
| ReadMessage.ReadRest | repo/ws/wsutil/helper.go:53-58 | Reading to the end gets exactly the message that was left |
| Reassembly.ReceiveReassembles | repo/ws/wsutil/helper.go:18-63 | A fragmented message with control frames between its fragments, each frame under its own mask: the unmasked control messages in order, then the glued message, and the stream behind the final fragment; text is checked over the whole |
| Reassembly.DrainContinuing | repo/ws/wsutil/reader.go:81-124 | The same from any point between two fragments |
| Reassembly.ReceiveSolo | repo/ws/wsutil/helper.go:46-52 | A final frame on its own is a message, data or control |
| Reassembly.ReceiveLoneFragment | repo/ws/wsutil/helper.go:53-58 | A fragment with nothing behind it is never a message |
| Reassembly.ReceiveUnfinished | repo/ws/wsutil/reader.go:150-160 | Fragments without a final one: the end of the stream is unexpected, or the text is refused earlier |
| Discard.Discard | repo/ws/wsutil/reader.go:128-143 | The control messages met, the rest of the stream or the error are a function of the stream, and the reader is reset |
| Discard.LeavesTheMessage | repo/ws/wsutil/reader.go:126-143 | Discard ends exactly where reading would have ended the message, with the same control messages |
| Discard.CutIsNoticedBeforeTheFinalPayload | repo/ws/wsutil/reader.go:128-143 | Of a message stream cut after n bytes, from any point of the message: Discard succeeds iff the cut lies at or behind the header of the final frame, and reports an unexpected end else |
| Discard.CutGoesUnnoticed | repo/ws/wsutil/reader.go:128-143 | A stream that ReadMessage refuses as cut off and that Discard accepts |
| Writer.GapFitsHeader | repo/ws/wsutil/writer.go:203-226 | The header of any frame that fits the buffer fits the reserved gap |
| Writer.GapForSize | repo/ws/wsutil/writer.go:158-182 | A buffer made for n payload bytes holds exactly n, on either side |
| Writer.FramesAddUp | repo/ws/wsutil/writer.go:260-295 | The frames that a Write sends, by the lengths of their payloads, are at most two, and with what stays in the buffer they add up to what was buffered and written |
| Writer.Writer.constructor | repo/ws/wsutil/writer.go:158-168 | NewWriterSize never panics and has Size n for n > 0 |
| Writer.Writer.FromBuffer | repo/ws/wsutil/writer.go:188-199 | NewWriterBuffer gives up the gap and no more |
| Writer.Writer.Write | repo/ws/wsutil/writer.go:260-296 | All bytes are accepted over a sink that does not fail, and at every point the frames sent and the buffer hold the accepted bytes; how much is buffered afterwards, and which frames are sent, by the lengths of their payloads; a write that fits is only buffered; the loop ends |
| Writer.Writer.WriteThrough | repo/ws/wsutil/writer.go:300-316 | The bytes go out in one frame that is not final, and in no more; nothing happens when the buffer is not empty |
| Writer.Writer.ReadFrom | repo/ws/wsutil/writer.go:320-356 | Everything up to the end of the source is accepted, or up to a hundred empty reads on end, which takes room in the buffer, or a failing sink; only full buffers are sent, and how much is buffered afterwards; only at the end of the source is the writer marked as dirty |
| Writer.Writer.FlushFragment | repo/ws/wsutil/writer.go:377-387 | What is buffered goes out in one frame that is not final and carries just that; nothing happens when nothing is buffered |
| Writer.Writer.Flush | repo/ws/wsutil/writer.go:358-373 | The message ends in one run of frames that carries exactly the accepted bytes: opcode only on the first, Fin only on the last, which is the only one that Flush sends and carries what was buffered; no message is left open iff the writer was dirty, something was buffered or nothing had been sent |
| Writer.Writer.SendBuffer | repo/ws/wsutil/writer.go:389-409 | The header back-filled into the gap and the masked buffer are one frame with the buffered bytes |
| Writer.WriteFrame | repo/ws/wsutil/writer.go:435-451 | writeFrame emits one frame with the payload, masked iff the writer is a client |
| Control.ParseInvertsBody | repo/ws/read.go:235-248 | Parsing a close body gives back its code and reason |
| Control.ParseInvertsNewBody | repo/ws/frame.go:273-281 | The body made for a close frame says the code and as much of the reason as fits into 123 bytes |
| Control.CloseCheckIsTheRule | repo/ws/check.go:125-145 | A close payload passes iff its code may be sent and its reason is UTF-8 |
| Control.NamedCloseRuleIsBroken | repo/ws/check.go:125-145 | Of a close that is refused, the error names the rule that it breaks, for every code and reason |
| Control.ReplyPassesPeerCheck | repo/ws/wsutil/handler.go:71-111 | Every reply passes the opposite side's CheckHeader, in or outside a message |
| Control.ErrorReplyPassesIffServer | repo/ws/wsutil/handler.go:211-219 | The protocol-error close passes it iff the sender is a server |
| Control.ControlWriter.Write | repo/ws/wsutil/writer.go:75-80 | Each Write on its own is held against the limit: beyond it nothing is taken, within it what fits is only buffered |
| Control.ControlHandler.HandlePing | repo/ws/wsutil/handler.go:71-111 | For any header and source: one final pong with all that the source holds iff that is something and fits; nothing for a source that has ended; and what goes wrong with a source that goes on |
| Control.ControlHandler.HandlePong | repo/ws/wsutil/handler.go:114-129 | Any source is read to its end, unless there is no payload, and nothing is sent |
| Control.ControlHandler.HandleClose | repo/ws/wsutil/handler.go:133-209 | Exactly the payload is taken from any source; a valid close is answered by its own code although reply and input share a buffer, an empty one by an empty one, an invalid one by the code 1002 with the text of the broken rule, character by character; one cut short by nothing |
| Control.ControlHandler.Handle | repo/ws/wsutil/handler.go:57-67 | A ping whose payload is all the source holds gets one pong, a close that is all there one close, a pong and anything else nothing |
| Framing.CutsOffIffFramable | repo/ws/read.go:95-125 | ReadFrameFromBytes cuts a frame off iff it has a payload and extra header bytes; what it does with each of the others |
| Framing.EmptyControlStalls | repo/ws/read.go:95-125 | A masked ping or pong without payload is never cut off, under any key |
| Framing.PrefixNeedsMore | repo/ws/read.go:95-125 | A strict prefix of a frame asks for more data |
| Framing.InboundConn.Decode | broker/websocket.go:206-224 | What is cut off is shifted out, and errors other than a call for more data, such as a length with its top bit set, close the connection |
| Framing.Feed | broker/websocket.go:206-224 | Over any chunking, exactly the frames sent come out in order, nothing is lost or invented, and what is left is a strict prefix of the next frame |
| Framing.DecodeFinds | broker/websocket.go:206-224 | Decode asks for more exactly when the buffer holds a strict prefix of the next frame |
| Framing.React | broker/websocket.go:302-349 | What the broker does with the bytes of one frame, from the message in it; it closes on a frame that is lost and on a close |
| Framing.BrokerTakesWholeMessagesOnly | broker/websocket.go:302-317 | A client's frame is taken iff it is final and good; a fragment closes the connection |
| HeapOrder.RootIsLeast | broker/heartbeat.go:305-311 | In a heap the first priority is the least |
| HeapOrder.DownFirst | broker/heartbeat.go:86-117 | One sift-down step moves the only place where the order is broken to the smaller child |
| HeapOrder.UpStep | broker/heartbeat.go:86-117 | One sift-up step moves it to the parent |
| Heap.Conn.Deadline | broker/conn.go:210-217 | The deadline is the last frame's time plus the interval, cut off to whole seconds; -1 once marked dead |
| Heap.PriorityQueue.Up | broker/heartbeat.go:86-90 | Sifting up restores the heap, keeps the items and their indices, and looks no further than asked |
| Heap.PriorityQueue.Down | broker/heartbeat.go:92-117 | Sifting down restores the heap, or says that it moved nothing |
| Heap.PriorityQueue.Push | broker/heartbeat.go:86-90 | The item joins; heap order and indices stay |
| Heap.PriorityQueue.Pop | broker/heartbeat.go:92-107 | The item with the least priority leaves; nil iff there is none |
| Heap.PriorityQueue.Remove | broker/heartbeat.go:110-112 | The item leaves from wherever its index says it stands, and the heap is restored |
| Heap.PriorityQueue.Update | broker/heartbeat.go:61-65 | The item gets the priority, and the heap is restored |
| Heartbeat.HeartbeatTimer.TakeOp | broker/heartbeat.go:174-182 | One request is served in order; the map stays a bijection onto the heap's items, every index stays right, and stored priorities stay lower bounds on the deadlines of connections not marked dead |
| Heartbeat.HeartbeatTimer.ApplyAdd | broker/heartbeat.go:248-256 | The connection is watched with its deadline; all others are as they were |
| Heartbeat.HeartbeatTimer.ApplyRemove | broker/heartbeat.go:258-268 | The connection is no longer watched; all others are as they were |
| Heartbeat.HeartbeatTimer.ApplyUpdate | broker/heartbeat.go:271-278 | The connection has the new priority; all others are as they were |
| Heartbeat.HeartbeatTimer.Examine | broker/heartbeat.go:313-359 | An overdue item goes back with the current deadline unless that has passed and a ping fails; a ping is sent only if it has passed |
| Heartbeat.HeartbeatTimer.SweepStep | broker/heartbeat.go:303-359 | One turn examines the most urgent item, which is overdue, or ends because none is; a ping is tried iff the connection is past its deadline, and the item goes back with its current deadline unless that ping is lost |
| Heartbeat.HeartbeatTimer.Sweep | broker/heartbeat.go:286-361 | The scheduler's invariant and the lower bounds survive in any state. What a sweep adds to the records of pings sent and pings lost is, once for each item examined, exactly its connection if that was past its deadline then; those whose ping was lost are closed, once each, and no longer watched, and no others are. Who was past the deadline at the start is so when examined, unless heard from or pinged in between; and the time of a last frame moves only with a frame or a ping that was sent. If no overdue connection is marked dead, each overdue one is examined once within the budget, and if the budget suffices every watched one ends with a priority, and unless dead a deadline, not before now; an overdue connection marked dead that pings reach uses the budget up |
| Gnet.Server.OnOpened | broker/gnet.go:57-73 | A new connection, with its interval and the present as the time of its last frame, is stored and its watching asked for; nothing else changes, and the invariant below survives |
| Gnet.Server.OnClosed | broker/gnet.go:76-92 | It is taken out once, and its forgetting asked for; nothing else changes |
| Gnet.Server.SetDead | broker/conn.go:247-255 | The connection is marked once and an update asked for; only dead connections get priorities of their own. In the source only sendAuthFailedAndSetDead asks for it, and nothing calls that |
| Gnet.Server.OnFrame | broker/conn_handler.go:31 | A frame moves the time of the connection's last frame to the present, and nobody else's; every stored priority stays a lower bound |
| Gnet.Server.Serve | broker/heartbeat.go:174-182 | Serving a request keeps the invariant: once the queue is empty, the watched connections are those opened, not closed, and not dropped by a sweep; and every stored priority is a lower bound on its connection's deadline unless that is marked dead |
| Gnet.Server.ServeAll | broker/heartbeat.go:169-189 | With the queue drained, the watched connections are exactly those; none that was closed is among them |
| Gnet.Server.Tick | broker/heartbeat.go:183-184 | From the server's invariant alone: a sweep keeps it, changes nothing of the server but that the closed connections join the dropped ones, and does all that Sweep promises |
| Gnet.Run | broker/gnet.go:57-92 | Over any run of openings, closings, frames, markings as dead, requests and sweeps, from a server without connections: the server is what the events say, with the intervals they say; once the queue is empty, the connections watched are those opened, not closed and not dropped because a ping was lost; and every stored priority is a lower bound |
| Gnet.Server.Handle | broker/gnet.go:57-92 | Each event has its whole effect on what is stored, queued, opened, closed, heard from, marked dead and dropped, and on the world's records, and no other |
| Events.StepKeeps | broker/gnet.go:57-92 | Whatever has happened: the stored connections are those opened and not closed since, under their keys; closed, heard from and marked dead are those to which such an event has happened while they were open; and the queue holds, in order, the requests that events have made and the timer has not served |
| Events.OpensIfFree | broker/gnet.go:57-73 | An opening opens a connection iff every earlier one of its key has been closed since |
| Gnet.DrainedAppend | broker/heartbeat.go:199-244 | A request put at the end of the queue takes effect after all others |
| Gnet.DrainedMinus | broker/heartbeat.go:286-361 | No waiting request brings back what a sweep has stopped watching |
| TopicIndex.AlwaysTwoWay | broker/group.go:128-240 | Over every run no hub is empty, and an alias is listed under a topic iff it has a hub that follows it |
| TopicIndex.LastRemovalClears | broker/group.go:206-220 | Removing the last connection strikes the alias out under every topic |
| TopicIndex.IndexIsHistory | broker/group.go:367-430 | Members, topics and subscription times are exactly what the run of operations says |
| TopicIndex.NoMissedPush | broker/group.go:317-365 | With a monotone clock, a connection that was there when its alias asked for a topic, neither removed nor unsubscribed since, passes the filter of every later push |
| TopicIndex.PushReaches | broker/hub.go:80-97 | A push reaches exactly the members of aliases that have asked for the topic and were connected by then |
| TopicIndex.SubscribeInterrupted | broker/group.go:405-419 | For any operation between the two steps of Subscribe: the indices agree afterwards iff it is neither a last removal with a new topic nor an UnSubscribe of one of the topics |
| TopicIndex.UnsubscribeInterrupted | broker/group.go:405-419 | For any operation between the two steps of UnSubscribe: they agree iff it does not ask for one of the topics |
| Group.Hub.PushTopic | broker/hub.go:80-97 | Sending is attempted once each to exactly the connections that pass the filter |
| Group.Hub.PushAll | broker/hub.go:66-79 | The same for every connection of the hub |
| Group.StartAgainAndAgain | broker/hub.go:142-148 | However often a hub is started, one goroutine runs for it, from the first time on |
| Group.Hub.Subscribe | broker/hub.go:150-159 | The topics join the hub's set, unless it is closed |
| Group.Hub.Unsubscribe | broker/hub.go:161-170 | The topics leave it, unless it is closed |
| Group.GroupManager.AddAliasConn | broker/group.go:128-179 | In place: the pure step for adding; each alias keeps an open hub of its own and both indices agree |
| Group.GroupManager.RemoveAliasConn | broker/group.go:181-240 | The pure step for removing; a hub that is dropped is closed |
| Group.GroupManager.DoWithTopicAliasInfo | broker/group.go:367-403 | The alias is put down, or struck out, under exactly the topics listed |
| Group.GroupManager.SubscribeImpl | broker/group.go:405-431 | The pure steps for subscribing and unsubscribing |
| Group.GroupManager.BroadcastByTopic | broker/group.go:317-365 | Each hub that follows the topic gets the request once, with its own subscription time, and runs; no other hub gets anything |
| Group.GroupManager.BroadcastByAlias | broker/group.go:243-287 | The alias's hub gets the request once, and runs |
| Registry.Always | broker/conn.go:284-309 | The invariant of registration, over every interleaving of authenticating, closing, subscribing, new connections, and pushes that make a group manager |
| Registry.RegisteredIffAuthed | broker/server.go:199-241 | Outside the critical sections a connection is in the ID map, in its alias's hub and among all connections iff it is authenticated and had a group manager, and never anywhere else |
| Registry.NoFailure | broker/group.go:29-46 | Unless making a group manager fails, every authenticated connection has one |
| Registry.OneLifeOneClose | broker/conn.go:372-427 | States move Init, Authed, Closing, Closed or Init, Closed only; exactly one Close returns nil, the first to end |
| Registry.ClosedNeverReturns | broker/conn.go:284-309 | Once closed, a connection is registered nowhere, in the rest of any run |
| Registry.LockIsGivenBack | broker/conn.go:390-421 | Whoever holds a connection's lock can always go on and lets go after at most six steps |
| Sessions.SetAuthedRegisters | broker/conn.go:284-309 | From any state of the invariant in which a connection is new and unlocked: after setAuthed and five more steps of its own, with any steps of others in between, it is authenticated, found by its ID, in its alias's hub and among all connections, and its addAliasConn has put the alias down under every topic of the session at its time |
| Sessions.CloseCloses | broker/conn.go:372-427 | From any such state in which it is unlocked and not closed: after Close and six more steps of its own it is closed, its first Close has returned nil, and it is registered nowhere |
| Sessions.ConnsAreOpened | broker/gnet.go:57-73 | In every run the connections are those that have been opened, each ID once |
| Sessions.GroupsAreMade | broker/group.go:29-46 | In every run the group managers are those that a push, setAuthed or Close has made |
| Sessions.GroupIsHistory | broker/server.go:199-241 | In every run, each business's topic index is what that business's addAliasConn, removeAliasConn, Subscribe and UnSubscribe operations in the run make of an empty one |
| Sessions.RunIsHistory | broker/group.go:128-240 | So an alias's members and topics, and since when it has asked for them, are read off the run |
| Sessions.AddsAreOfSessions | broker/server.go:199-222 | A connection is added only to its session's business, under its session's alias and topics |
| Sessions.AuthedIsReached | broker/group.go:317-365 | In every run with a monotone clock, a connection that is authenticated and has its group manager is reached by every push to a topic of its session, unless its alias has taken the topic back |

## Left out

- Network, storage and services: the event loop, sockets, Kafka, Redis, JWT, callbacks, logging, metrics and configuration; gnet's inbound buffer is a byte sequence, and the sends of broker connections are attempts that may fail.
- The HTTP handshake (repo/ws/server.go, http.go, util.go, nonce.go, dialer.go), which rests on libraries that are not part of this model.
- readData and its wrappers (repo/ws/wsutil/helper.go:79-151, 248-279): their loop calls the control handler from inside the reader; ReadMessage, Discard and ControlHandler are modelled one by one.
- SkipHeaderCheck, OnContinuation, and callbacks other than ReadMessage's: the modelled Reader always checks headers and collects the control messages met inside a fragmented message.
- Readers and writers as interfaces: the chain behind the Reader is a limited reader, a cipher reader and a UTF-8 reader over a Source; a Source has no errors but the end of the stream, and returns nothing without an error only finitely often.
- Buffer pools, Reset, GetWriter, PutWriter and unsafe string casts: buffers are freshly allocated and copied. Write takes its payload as a value, so a caller who changes it during the call is not modelled.
- Lengths are those of Go's int64, 0 to 2^63-1; time and counters are unbounded.
- Reader.Reader.Read: how many bytes a call returns, when the source has some, is left to the source; what is fixed is what they are and how the message ends.
- RoundTrip.RoundTrip: the sink does not fail; over one that fails, what the reader gets of the ended messages is not stated.
- RoundTrip.StrandedWitness: that a source does return nothing a hundred times on end is its own choice, so the run itself is conditional.
- Writer.Writer.ReadFrom: a source fails in no other way than by ending or by making no progress.
- Writer.Writer.Write: after the sink has failed nothing is promised about what of the last frame was sent.
- Heartbeat.HeartbeatTimer.Sweep: no connection is marked dead in the middle of a sweep.
- Heartbeat.HeartbeatTimer.TakeOp: the channel is unbounded, and its exit and context cases are not modelled.
- Group.GroupManager.BroadcastByTopic: the goroutine pool runs each alias's task once, with no operation between; a push that is delivered in a later state is covered by TopicIndex.NoMissedPush. The full channel, the expired context and the hub that exits while a task waits are not modelled.
- TopicIndex.SubscribeInterrupted: one operation comes between the two steps; several, and a hub that is dropped and made again, are not modelled.
- Registry.Always: setAuthed, Close, AddAuthedConnection and RemoveAuthedConnection are steps of a transition system on values rather than methods of an object, because what matters is how the steps of several goroutines interleave; each group-manager operation is one step. Session data other than business, alias and topics, and the callbacks, are not modelled; connection IDs are distinct, as random UUIDs are taken to be.
- Broadcast, GetAliasConnectInfo and GetAliasConnCount, which only read.
