# talk/base: verified models

Dafny models of the stateful core of `talk/base`, each with the properties that the code is relied
upon for. Code that updates its fields in place is modelled by classes and loops, proved against
functions; what is promised over whole runs is proved about those functions and about the
invariants the methods keep. Sockets, streams, documents, name look-ups and the file system answer
in any way they like: each of their answers is a nondeterministic choice.

| file | what it models |
|---|---|
| `CarryBuffer.dfy` | the fixed buffer with append and move-to-front that the HTTP pump and the TCP socket share |
| `Sequences.dfy` | concatenation |
| `HttpText.dfy` | white space, header lines, chunk sizes and Content-Length values |
| `HttpParser.dfy` | `HttpParser`: the resumable parser, refined from a reference parser that takes one character at a time |
| `HttpReceive.dfy` | `DoReceiveLoop` and its 32K buffer: conservation, fragmentation independence, the meaning of every ending |
| `HttpSend.dfy` | `send`, `queue_headers`, `flush_data`: partial writes, chunked encoding, completion |
| `HttpRoundTrip.dfy` | what the send pump writes, the receive pump reads back |
| `HttpCompletion.dfy` | `HttpBase` as a protocol: each operation is answered once, with its own mode |
| `LockFreeQueue.dfy` | `FixedSizeLockFreeQueue`: all interleavings of one producer and one consumer |
| `TcpFraming.dfy` | `AsyncTCPSocket`: length-prefixed packets, dropped or delivered whole and in order |
| `Crc32.dfy` | the table-driven CRC against bit-serial division; detection of bursts |
| `LinkedPtr.dfy` | `linked_ptr`: ownership rings on the heap, each object deleted exactly once |
| `DiskCache.dfy` | `DiskCache`: locks, open streams, eviction, and the account of sizes |
| `Base64.dfy` | the encoder and the flag-driven decoder |
| `ByteBuffer.dfy` | `ByteBuffer`: a byte queue with typed access and restorable read positions |
| `HttpAttributes.dfy` | `quote` and `HttpParseAttributes` |
| `HttpClient.dfy` | `HttpClient`: how often retries, redirects and authentication can connect |

Where the code does not do what one would expect of it, the model follows the code and the exact
condition is proved:

- `flush_data` retries a blocked write in a loop, without returning, if and only if the message has
  no document and all its headers have been queued (`FlushData` ends in `Spinning`).
- A clean end of stream reports success although the buffered tail was never delivered, if and only
  if the document was stalling the pump (`CleanEndBody`, `TailLost`, `EndToEndUntilClose`).
- A header that cannot fit the empty buffer is dropped, a long leader is cut, and so is any text
  with a NUL in it (`HeadIntact`).
- The sender goes by the first Transfer-Encoding value and compares exactly, the receiver by the last
  and without regard to case (`EncodingAgrees`, `EncodingDisagrees`); a chunked message without a
  document never ends (`ChunkedWithoutDocument`).
- The lock-free queue is safe for runs of any length only if its capacity divides 2^32
  (`SafeRun`, `UnsafeWithoutDivisor`).
- `Send`'s size test lets payloads of 65536 to 65538 bytes pass, whose length does not survive the
  cast to 16 bits (`FrameSurvivesIff`). The ASSERT in `AppendToOutBuffer` stops them (`Asserted`);
  where ASSERT is compiled out, 65537 and 65538 bytes are also copied past the end of `outbuf_`.
- `CheckLimit` evicts the least recently used idle entry, but dereferences the end of the map when
  the only idle entry is its last one (`FindVictim`, `EvictOne`; which states lead there: `Doomed`),
  and gives up when a busy entry behind an idle one is older than all idle ones (`InTheWay`).
- `LockResource` keeps the address of its entry across `CheckLimit`, which may evict that entry: for
  an idle entry with a time stamp of its own, if and only if evicting the older idle entries does not
  bring the size within the limit (`LockVerdict`, `Spared`, `LockedEntryLost`).
- `do_complete` asserts that a pull reader is gone when an operation ends without error; a clean
  close, or a document event, that finishes the message while there is one makes it fail
  (`StreamClosed`, `ReadAndProcessData`, `ReaderAtTheEnd`).
- `Purge` clears the entries but not `total_size_`.
- With DO_PARSE_WHITE and padding required, white space after a last group without a pad makes
  decoding fail (`WhiteCanonical`).
- An unconnected `send` or `recv` passes HE_DISCONNECTED on as a socket error code and so reports
  HE_SOCKET_ERROR.

`dafny verify dfyconfig.toml` checks the whole project.

## Model

| member | source | states |
|---|---|---|
| `CarryBuffers.CarryBuffer.Append` | talk/base/asynctcpsocket.cc:183-187 | Bytes copied behind the fill mark become the end of the contents; nothing before them changes. |
| `CarryBuffers.CarryBuffer.Shift` | talk/base/httpbase.cc:571-572 | The overlapping move to the front drops exactly the first n elements. |
| `HttpText.ChunkSizeRoundTrip` | talk/base/httpbase.cc:647-657 | The eight hex digits written before a chunk are read back by the parser's conversion as exactly the chunk's size, for every 32-bit size. |
| `HttpText.PlainHex` | talk/base/httpbase.cc:193-204 | A line of nothing but hex digits is converted whole, to its value. |
| `HttpText.ChunkForms` | talk/base/httpbase.cc:193-200 | Hex digits of either case are read as their value, also behind white space, a plus sign or 0x; a minus sign negates in 32 bits; larger values saturate. |
| `HttpText.ChunkGarbage` | talk/base/httpbase.cc:195-199 | Anything behind the digits of a chunk size is noticed. |
| `HttpText.ScanForms` | talk/base/httpbase.cc:168-174 | A Content-Length value is read as the decimal number it starts with, whatever follows; a minus sign negates in 32 bits; larger values saturate. |
| `HttpText.ScanNothing` | talk/base/httpbase.cc:170-173 | It is rejected exactly when there is no digit, at once or after one sign. |
| `HttpText.ContentLengthRoundTrip` | talk/base/httpcommon.cc:495-498 | Every 32-bit size that is written as a Content-Length is read back, even from 2^31 on, where it is written as a negative number. |
| `HttpText.FindColonIff` | talk/base/stringutils.h:176-183 | The colon found is the first one, if no NUL comes before it. |
| `HttpText.ToLowerIs` | talk/base/httpbase.cc:167-178 | Names and encodings are compared without regard to the case of the 26 letters. |
| `HttpParsing.FeedConcat` | talk/base/httpbase.cc:79-142 | The character-at-a-time reference parser does not care where a stream is cut. |
| `HttpParsing.FeedLine` | talk/base/httpbase.cc:91-110 | A line and its line feed take the reference parser where ProcessLine on the trimmed line says. |
| `HttpParsing.FeedBody` | talk/base/httpbase.cc:117-138 | A block of body bytes within the announced size is the same as its bytes one by one. |
| `HttpParsing.HeaderErrorIff` | talk/base/httpbase.cc:151-185 | A header line is rejected with HE_PROTOCOL exactly when it has no name, a Content-Length without a number, or an unknown encoding; otherwise its name and value are handed over. |
| `HttpParsing.BodyErrorIff` | talk/base/httpbase.cc:192-221 | A missing or malformed chunk size and anything between a chunk and the next size are HE_PROTOCOL; trailers are passed over; the blank line after them ends the message. |
| `HttpParsing.OwnerDecides` | talk/base/httpbase.cc:151-189 | The leader and the end of the headers go on or stop as the owner says, with the body size it returns. |
| `HttpParsing.HttpParser.TakeNextLine` | talk/base/httpbase.cc:91-110 | Scan, trim and ProcessLine on one buffered line agree with the reference parser, errors included. |
| `HttpParsing.HttpParser.TakeNextBody` | talk/base/httpbase.cc:117-138 | However few bytes the document takes, the remaining size and the delivered body agree with the reference parser. |
| `HttpParsing.HttpParser.Process` | talk/base/httpbase.cc:79-142 | For every buffer and every intake of the document: the bytes consumed drive the reference parser to exactly this parser's state; PR_COMPLETE means it has finished with this error (or the document failed); PR_CONTINUE means no further line end or body byte is left; the loop ends. |
| `HttpParsing.HttpParser.ProcessData` | talk/base/httpbase.cc:862-885 | At least one byte taken and appended to the body, or a block, or HE_STREAM. |
| `HttpParsing.HttpParser.ScanLine` | talk/base/httpbase.cc:92-98 | The first line feed at or after a position, or the end. |
| `HttpParsing.HttpParser.TrimLine` | talk/base/httpbase.cc:102-104 | Exactly the trailing white space is cut off. |
| `HttpReceive.CloseError` | talk/base/httpbase.cc:491-508 | A closed stream is success if and only if a body of unknown length was being received and the close was clean, and HE_DISCONNECTED for every other clean close. |
| `HttpReceive.CloseErrorCodes` | talk/base/httpbase.cc:491-508 | Which code and mode give which error. |
| `HttpReceive.CutsDoNotMatter` | talk/base/httpbase.cc:510-589 | Feeding any list of pieces equals feeding their concatenation. |
| `HttpReceive.HttpReceiver.Recv` | talk/base/httpbase.cc:451-472 | A new message starts with a reset parser and an empty buffer, however the last one ended. |
| `HttpReceive.HttpReceiver.Buffer` | talk/base/httpbase.cc:529-537 | Bytes read from the network join the kept tail; parser state and tail together account for every byte received. |
| `HttpReceive.HttpReceiver.ProcessBuffered` | talk/base/httpbase.cc:567-584 | One call of Process and the move of the rest keep that account; after PR_CONTINUE the tail is an unfinished line; after PR_COMPLETE it is what follows the message. |
| `HttpReceive.HttpReceiver.DoReceiveLoop` | talk/base/httpbase.cc:510-589 | For every behaviour of network and document: no byte is lost or read twice; between runs the pump has done all it can, or the document holds it up with body bytes still buffered; each ending says what the stream was (message parsed with this error, document failed, network closed with the error of HandleStreamClose and bytes left over only if the document was already stalling, HE_OVERFLOW only with 32768 characters of one unfinished line pending). It reads unless the buffer is full, and pauses only for a network or document that blocks, or after 21 rounds. |
| `HttpReceive.FragmentationIndependence` | talk/base/httpbase.cc:510-589 | Two connections that received the same bytes, cut in any two ways, agree on parser state, headers, body, error and kept tail once neither is stalled by its document. |
| `HttpReceive.CleanEndBody` | talk/base/httpbase.cc:529-580 | At an end of stream that counts as success, the delivered body is everything received if and only if the document was not stalling the pump (PR_BLOCK); otherwise it is short by exactly the buffered tail. |
| `HttpReceive.TailLost` | talk/base/httpbase.cc:529-580 | A state in which a clean end reports HE_NONE while one byte of the body is never delivered. |
| `HttpSend.HttpSender.constructor` | talk/base/httpbase.cc:414-449 | After send(), the buffer holds the leader as formatLeader formats it (and the blank line when there are no headers); chunking is on if and only if the first header that names the encoding, wherever it stands, says exactly "chunked". |
| `HttpSend.ChunksIff` | talk/base/httpbase.cc:433-437 | Chunking is decided by the first header that names the encoding, at any position. |
| `HttpSend.HttpSender.QueueHeader` | talk/base/httpbase.cc:722-737 | One header is put whole, discarded (only from an empty buffer it cannot fit), or left for later; written plus buffered bytes stay the leader and the headers so far. |
| `HttpSend.HttpSender.QueueHeaders` | talk/base/httpbase.cc:719-741 | Headers are taken in order; after the last one the head is closed by one blank line. |
| `HttpSend.HttpSender.QueueDocument` | talk/base/httpbase.cc:622-684 | One document read is framed into the buffer, or the buffer must go out first, or all has gone out, or the document failed; written plus buffered bytes stay an initial part of the message. |
| `HttpSend.HttpSender.QueueBytes` | talk/base/httpbase.cc:645-658 | A read is added to the message, as a chunk or as it is, and taken off what the document still holds. |
| `HttpSend.HttpSender.QueueLastChunk` | talk/base/httpbase.cc:662-669 | At the document's end a chunked message gets its last chunk, once. |
| `HttpSend.HttpSender.WriteNetwork` | talk/base/httpbase.cc:695-713 | A partial write moves bytes from the buffer to the wire without loss or repetition. |
| `HttpSend.HttpSender.FlushData` | talk/base/httpbase.cc:599-717 | Over any schedule of partial and blocked writes and reads, wire plus buffer is what has been emitted of the message; HE_NONE is reported only when the whole message is on the wire; the error is HE_STREAM exactly when the document failed and that of the network when it failed; it waits only for a blocking network, or with an empty buffer for a blocking document; it keeps retrying a blocked write without returning if and only if the message has no document and all its headers have been queued. |
| `HttpRoundTrip.HeadIntact` | talk/base/httpbase.cc:719-741 | Nothing of leader or headers is cut or dropped if and only if the leader and each header fit the buffer and none of them contains a NUL. |
| `HttpRoundTrip.EncodingAgrees` | talk/base/httpbase.cc:433-437 | Sender and receiver agree on chunking if and only if the first Transfer-Encoding value is exactly "chunked" just when the last one is "chunked" in any spelling. |
| `HttpRoundTrip.FramingIsLast` | talk/base/httpbase.cc:177-186 | Of all Transfer-Encoding headers the receiver goes by the last, without regard to case. |
| `HttpRoundTrip.OneEncodingAgrees` | talk/base/httpbase.cc:433-437 | With one such header only a spelling of chunked with capital letters makes them disagree; identity never does. |
| `HttpRoundTrip.EncodingDisagrees` | talk/base/httpbase.cc:433-437 | Two header lists on which sender and receiver disagree, one in each direction. |
| `HttpRoundTrip.FeedHeaders` | talk/base/httpbase.cc:150-188 | The leader and headers that were written are read back in order, with the framing they announce. |
| `HttpRoundTrip.FeedChunk` | talk/base/httpbase.cc:192-214 | One chunk as written adds exactly its bytes to the body and leaves the parser at the next chunk size. |
| `HttpRoundTrip.FeedChunks` | talk/base/httpbase.cc:192-214 | Any sequence of chunks adds exactly the concatenation of its reads. |
| `HttpRoundTrip.ChunkedBodyRoundTrip` | talk/base/httpbase.cc:622-684 | For every document and every split into non-empty reads, the chunked body is parsed back to that document, ending without error on its last byte. |
| `HttpRoundTrip.MessageRoundTrip` | talk/base/httpbase.cc:599-741 | Leader, headers and document of every message with an announced length or chunking come back as they were; the parse ends with HE_NONE on the last byte with nothing left over. |
| `HttpRoundTrip.FramingAnnounced` | talk/base/httpcommon.cc:488-502 | The header that setContent writes is what the receiver takes the body size from. |
| `HttpRoundTrip.AnnouncedRoundTrip` | talk/base/httpcommon.cc:488-502 | A document under the Content-Length that setContent writes for it comes back whole, with nothing left over. |
| `HttpRoundTrip.MessageUntilClose` | talk/base/httpbase.cc:231-234 | A message without an announced length comes back whole and leaves the parser where the end of the stream is valid. |
| `HttpRoundTrip.RoundTripIff` | talk/base/httpbase.cc:599-741 | For every head that arrives, the document comes back without error and with nothing left over if and only if the head announces exactly it (chunked with a document, or its exact length). |
| `HttpRoundTrip.ChunkedWithoutDocument` | talk/base/httpbase.cc:686-693 | A chunked message without a document goes out without its last chunk and leaves the receiver waiting for a chunk size. |
| `HttpRoundTrip.EndToEnd` | talk/base/httpbase.cc:510-741 | A receive pump that has worked off the bytes of a completed send pump has finished with HE_NONE and holds the sent leader, headers and document, however writes and reads were cut. |
| `HttpRoundTrip.EndToEndUntilClose` | talk/base/httpbase.cc:510-741 | For a message completed by the end of the stream: a receiver not held up by its document reports success with the whole document; whenever success is reported, the document is whole if and only if the receiver was not held up. |
| `HttpRoundTrip.AlwaysAPrefix` | talk/base/httpbase.cc:599-741 | At every moment written plus buffered bytes are an initial part of the whole message. |
| `HttpCompletion.ExactlyOneAnswer` | talk/base/httpbase.cc:743-761 | In every log of the protocol a started operation is still open with its own mode and unanswered, or has exactly one answer, later and with its own mode, whatever other operations started or ended in between. |
| `HttpCompletion.AnswersMatchStarts` | talk/base/httpbase.cc:743-761 | For each mode, operations started equal operations answered plus those that are open. |
| `HttpCompletion.OneAnswerEach` | talk/base/httpbase.cc:743-761 | An operation starts once, and has one answer unless it is still open. |
| `HttpCompletion.AnswersStarted` | talk/base/httpbase.cc:743-761 | Every answer is preceded by the start of its own operation with its own mode. |
| `HttpCompletion.AllAnswered` | talk/base/httpbase.cc:743-761 | Between two calls of the event loop every operation but the one of the present mode has had exactly one answer, with its own mode. |
| `HttpCompletion.HttpBase.UserCode` | talk/base/httpbase.cc:752-757 | Whatever the user calls from inside the signal to a pull reader, the account of operations is kept and what is owed stays owed. |
| `HttpCompletion.HttpBase.DoComplete` | talk/base/httpbase.cc:743-761 | Leaves the mode, disconnects the document and a pull reader, lets the user run inside the reader's signal, and then answers the operation it was called for with its own mode; the ASSERT at the signal fails exactly when there is a pull reader and no error. |
| `HttpCompletion.HttpBase.ParserCompletes` | talk/base/httpbase.cc:236-242 | The parser is complete and its operation is answered once; the ASSERT fails exactly with a pull reader and no error. |
| `HttpCompletion.HttpBase.Pump` | talk/base/httpbase.cc:510-589 | Runs DoReceiveLoop on a parser that has not completed, which every caller guarantees; if it does not ask for completion, the connection can go on. |
| `HttpCompletion.HttpBase.ReadAndProcessData` | talk/base/httpbase.cc:591-597 | Runs the receive pump: it waits, with a reason, or the receive operation is answered with the error of the pump; the ASSERT fails exactly when a document event finishes the message while a pull reader exists. |
| `HttpCompletion.HttpBase.FlushData` | talk/base/httpbase.cc:599-717 | Runs the send pump: it waits, with a reason, or the send operation is answered with the pump's error, and HE_NONE only when the whole message is on the wire. |
| `HttpCompletion.HttpBase.Attach` | talk/base/httpbase.cc:388-398 | Refused while busy or attached; otherwise the connect operation starts exactly when the stream is still opening. |
| `HttpCompletion.HttpBase.Detach` | talk/base/httpbase.cc:400-412 | Hands the stream back only when no operation is open. |
| `HttpCompletion.HttpBase.Send` | talk/base/httpbase.cc:414-449 | Ignored while busy; unconnected it reports a closed stream (as HE_SOCKET_ERROR); otherwise the send operation starts, and at most its own answer follows. |
| `HttpCompletion.HttpBase.Recv` | talk/base/httpbase.cc:451-472 | The same for receiving, with a reset parser; if the operation ends at once, its answer is the last event. |
| `HttpCompletion.HttpBase.Abort` | talk/base/httpbase.cc:474-482 | Answers the open operation with the given error, and does nothing when there is none. |
| `HttpCompletion.HttpBase.StreamClosed` | talk/base/httpbase.cc:791-799 | A close answers the open operation, or else is reported once as onHttpClosed; the ASSERT fails exactly when a clean close completes a message that is read through a pull reader. |
| `HttpCompletion.HttpBase.OnHttpStreamEvent` | talk/base/httpbase.cc:767-800 | Exactly the first event that concerns the mode is acted on: an open answers the connect with HE_NONE, a write or read runs its pump (unless a pull reader has the read), and a close that nothing else takes answers with the error of the close or is reported once; nothing else happens. |
| `HttpCompletion.HttpBase.OnDocumentEvent` | talk/base/httpbase.cc:802-820 | A write or read runs its pump, a close answers the operation with HE_STREAM, and nothing else happens. |
| `HttpCompletion.HttpBase.GetDocumentStream` | talk/base/httpbase.cc:484-489 | A pull reader is handed out only when there is none. |
| `HttpCompletion.HttpBase.ReadDocumentStream` | talk/base/httpbase.cc:270-326 | A pull read completes at most the receive operation, after disconnecting the reader, so the ASSERT cannot fail. |
| `HttpCompletion.HttpBase.CloseDocumentStream` | talk/base/httpbase.cc:334-343 | Closing the pull reader answers nothing and leaves the operation open. |
| `HttpCompletion.ReaderAtTheEnd` | talk/base/httpbase.cc:743-800 | A run in which the ASSERT fails: a pull reader, a body of unknown length, a clean end of the stream. |
| `LockFreeQueues.StepKeepsInv` | talk/base/atomicops.h:92-151 | Every atomic step of either thread keeps counters, slots and program counters consistent. |
| `LockFreeQueues.RunKeepsInv` | talk/base/atomicops.h:92-151 | So does every interleaving of any length. |
| `LockFreeQueues.SafeRun` | talk/base/atomicops.h:92-151 | Under every interleaving popped values are an initial part of pushed values, occupancy stays in [0, capacity] and is what Size reports, and the slot being written is never the slot being read - for all runs if the capacity divides 2^32, otherwise below 2^32 pushes. |
| `LockFreeQueues.FullMeansFull` | talk/base/atomicops.h:145-151 | With wrapping counters, IsFull, IsEmpty and Size still report the true occupancy. |
| `LockFreeQueues.PushAdmitted` | talk/base/atomicops.h:92-107 | Wherever the consumer is, a push is admitted exactly when there is room, and its remaining steps put the value last. |
| `LockFreeQueues.FrontAdmitted` | talk/base/atomicops.h:112-134 | Wherever the producer is, a read is admitted exactly when there is something, and takes the oldest value. |
| `LockFreeQueues.PushEffect` | talk/base/atomicops.h:92-107 | The steps of an undisturbed PushBack: nothing when full, one element more otherwise. |
| `LockFreeQueues.FrontEffect` | talk/base/atomicops.h:112-134 | The steps of an undisturbed PeekFront or PopFront. |
| `LockFreeQueues.ReachCount` | talk/base/atomicops.h:92-134 | Pushing and popping in turn brings both counters to any value. |
| `LockFreeQueues.UnsafeWithoutDivisor` | talk/base/atomicops.h:92-123 | For every capacity that does not divide 2^32 some run pops a value that is not the one pushed in that place: an unread slot is overwritten when the counter wraps. |
| `LockFreeQueues.FixedSizeLockFreeQueue.PushBack` | talk/base/atomicops.h:92-107 | Refused exactly when full; otherwise the value is last; the object takes exactly the protocol's steps on every run, and the slots stay sound as long as the capacity divides 2^32 or fewer than 2^32 values were pushed. |
| `LockFreeQueues.FixedSizeLockFreeQueue.PeekFront` | talk/base/atomicops.h:112-123 | Present exactly when the queue is not empty; the oldest value, as long as the slots are sound. |
| `LockFreeQueues.FixedSizeLockFreeQueue.PopFront` | talk/base/atomicops.h:128-134 | The oldest leaves; the object takes exactly the protocol's steps; soundness is kept. |
| `LockFreeQueues.FixedSizeLockFreeQueue.ClearAndResizeUnsafe` | talk/base/atomicops.h:138-143 | An empty queue of the new capacity. |
| `TcpFraming.FrameReadable` | talk/base/asynctcpsocket.cc:264-307 | A frame at the front of any bytes is cut off exactly. |
| `TcpFraming.ReadIsFrame` | talk/base/asynctcpsocket.cc:289-307 | Whatever ProcessInput cuts off was a frame. |
| `TcpFraming.PrefixDecodes` | talk/base/asynctcpsocket.cc:289-307 | If delivered frames plus a rest read like an initial part of sent frames, the delivered packets are an initial part of the sent ones. |
| `TcpFraming.AllDecodes` | talk/base/asynctcpsocket.cc:289-307 | With all bytes received and an unfinished rest, the packets are equal and the rest is empty. |
| `TcpFraming.FrameSurvivesIff` | talk/base/asynctcpsocket.cc:264-276 | Of the payloads that pass Send's size test, exactly those below 65536 bytes read back as themselves. |
| `TcpFraming.AsyncTcpSocket.FlushOutBuffer` | talk/base/asynctcpsocket.cc:166-181 | A partial send moves bytes from the buffer to the wire without loss or repetition. |
| `TcpFraming.AsyncTcpSocket.Send` | talk/base/asynctcpsocket.cc:264-287 | For every payload: refused as too big, dropped because the buffer is busy, stopped by the ASSERT in AppendToOutBuffer (exactly 65536 to 65538 bytes on an empty buffer), dropped without a trace when nothing could be sent, or accepted; wire plus buffer is always the frames of the accepted packets. |
| `TcpFraming.AsyncTcpSocket.OnWriteEvent` | talk/base/asynctcpsocket.cc:232-242 | Buffered bytes are offered to the socket once, conserved, and ready-to-send is signalled exactly when the buffer is empty. |
| `TcpFraming.AsyncTcpSocket.ProcessInput` | talk/base/asynctcpsocket.cc:289-307 | Every whole packet is delivered; what is kept is an unfinished one; received bytes are always delivered frames plus the rest. |
| `TcpFraming.AsyncTcpSocket.OnReadEvent` | talk/base/asynctcpsocket.cc:193-230 | There is always room to read, and the "input buffer overflow" branch is never taken. |
| `TcpFraming.InOrderAndIntact` | talk/base/asynctcpsocket.cc:166-307 | Over any partial sends and receive cuts, delivered packets are an initial part of the accepted ones, and all of them once every byte has arrived. |
| `Crc32.ShiftLinear` | talk/base/crc32.cc:46-50 | The polynomial step is linear over XOR. |
| `Crc32.ShiftDivides` | talk/base/crc32.cc:46-50 | One step of the register is one step of dividing by x^32+x^26+x^23+x^22+x^16+x^12+x^11+x^10+x^8+x^7+x^5+x^4+x^2+x+1, coefficient by coefficient. |
| `Crc32.SerialDivides` | talk/base/crc32.cc:57-66 | Feeding bits one by one divides the polynomial they form. |
| `Crc32.CrcDivides` | talk/base/crc32.cc:36-66 | The CRC is the remainder of dividing the message by the generator polynomial, with start value and result complemented. |
| `Crc32.CheckValue` | talk/base/crc32.cc:36-66 | The CRC of the nine digits 1 to 9 in ASCII is 0xCBF43926. |
| `Crc32.ShiftsLinear` | talk/base/crc32.cc:45-51 | So is any number of steps. |
| `Crc32.ShiftsInjective` | talk/base/crc32.cc:45-51 | No two registers meet under the polynomial step. |
| `Crc32.SerialIsShifts` | talk/base/crc32.cc:57-66 | Feeding bits one by one equals folding them in first and stepping. |
| `Crc32.TableStep` | talk/base/crc32.cc:62-64 | One table look-up equals eight steps of the register. |
| `Crc32.RegisterConcat` | talk/base/crc32.cc:57-66 | The register over a concatenation is the register over its parts in turn. |
| `Crc32.RegisterInjective` | talk/base/crc32.cc:57-66 | Different registers stay different over any message. |
| `Crc32.CrcConcat` | talk/base/crc32.cc:57-66 | Updating with a and then with b equals updating once with a followed by b. |
| `Crc32.FourBytes` | talk/base/crc32.cc:57-66 | Four message bytes act on the register through the word they form. |
| `Crc32.BurstDetected` | talk/base/crc32.cc:38-66 | Messages that differ, and only within four consecutive bytes, have different checksums, for every context and start value. |
| `Crc32.Crc32.EnsureTableInited` | talk/base/crc32.cc:41-55 | The table is all zero or entirely right, and entirely right afterwards; a built table is left alone. |
| `Crc32.Crc32.MakeEntry` | talk/base/crc32.cc:45-52 | Each entry is eight polynomial steps of its index. |
| `Crc32.Crc32.UpdateCrc32` | talk/base/crc32.cc:57-66 | The table-driven result equals the bit-serial CRC and the polynomial remainder on every input. |
| `Crc32.Crc32.Update` | talk/base/crc32.cc:62-64 | One table look-up equals feeding the byte's eight bits one by one. |
| `LinkedPtrs.RotateLinked` | talk/base/linked_ptr.h:94-97 | A ring is the same ring read from any of its nodes. |
| `LinkedPtrs.Acquire` | talk/base/linked_ptr.h:99-110 | The node enters the ring right after the given one, and the ring stays a well-formed cycle. |
| `LinkedPtrs.Unlink` | talk/base/linked_ptr.h:130-134 | The node leaves and the rest stays a well-formed cycle. |
| `LinkedPtrs.Release` | talk/base/linked_ptr.h:127-136 | Deletes exactly when the node was alone in its ring. |
| `LinkedPtrs.Owners.Construct` | talk/base/linked_ptr.h:60-61 | A new ring of one owner. |
| `LinkedPtrs.Owners.Copy` | talk/base/linked_ptr.h:64-65 | The copy joins the ring of the original; nothing else changes. |
| `LinkedPtrs.Owners.Assign` | talk/base/linked_ptr.h:66-73 | Nothing on self-assignment; otherwise the old ring loses the owner (its object deleted if it was the last) and the other ring gains it. |
| `LinkedPtrs.Owners.Destroy` | talk/base/linked_ptr.h:62-63 | The ring loses the owner; its object is deleted exactly when that was the last. |
| `LinkedPtrs.Owners.Join` | talk/base/linked_ptr.h:99-110 | acquire() among any number of rings: one ring grows by one owner and every ring stays well formed. |
| `LinkedPtrs.Owners.Leave` | talk/base/linked_ptr.h:127-136 | release() among any number of rings. |
| `LinkedPtrs.LedgerParted` | talk/base/linked_ptr.h:127-136 | A leaving owner keeps the account: every object handed over is owned or deleted. |
| `LinkedPtrs.DeletedIffUnowned` | talk/base/linked_ptr.h:60-136 | After any run an object has been deleted exactly once if it has no owner, and not at all if it has one. |
| `DiskCaches.DiskCache.LockResource` | talk/base/diskcache.cc:114-126 | Refused when locked or being read, and otherwise granted within the limit; nothing but the lock state changes and no open resource is lost. Over the limit an idle entry is safe if evicting the older idle ones suffices and locked only if evicting those not newer suffices, which with a time stamp of its own decides between granted and undefined; an entry being unlocked is safe unless some idle entry is doomed, and never locked if one surely is. |
| `DiskCaches.LockableIff` | talk/base/diskcache.cc:116-119 | What may be locked, in terms of the streams that are open. |
| `DiskCaches.DiskCache.MakeRoom` | talk/base/diskcache.cc:120-123 | What LockResource makes of the answer of CheckLimit, with the exact cases in which it goes on with an entry that is gone. |
| `DiskCaches.LockedEntryLost` | talk/base/diskcache.cc:114-126 | A cache in which locking an entry evicts that entry. |
| `DiskCaches.DiskCache.WriteResource` | talk/base/diskcache.cc:128-154 | Granted exactly while locked, unless the file cannot be opened; the entry gives up the replaced file's size; the case excluded by the assert arises only after a failed file deletion or with a second writer of the same stream. |
| `DiskCaches.DiskCache.UnlockResource` | talk/base/diskcache.cc:156-169 | At once, with a new time stamp and the limit enforced, when nothing is open; otherwise deferred; what is lost is only what the limit evicts. |
| `DiskCaches.DiskCache.ReadResource` | talk/base/diskcache.cc:171-186 | Granted exactly while unlocked and for an existing stream, unless the file cannot be opened; one more accessor. |
| `DiskCaches.DiskCache.DeleteResource` | talk/base/diskcache.cc:203-227 | Erases only an unlocked resource without open streams; the account of sizes follows. |
| `DiskCaches.DiskCache.CheckLimit` | talk/base/diskcache.cc:229-264 | Ends; only idle resources are lost, and none used more recently than an idle one that is kept. The sizes and ages before the call tell whether a given entry stays, and whether the scan leaves the map: only if the newest idle entry stands behind all busy ones and evicting all the others is not enough, and then always unless it gives up earlier. |
| `DiskCaches.FindVictim` | talk/base/diskcache.cc:242-258 | Nothing exactly when no entry is idle; past the end exactly when the only idle entry has the last key; otherwise an entry not newer than any idle one, and a busy one whenever a busy entry behind an idle one is older than all idle ones. |
| `DiskCaches.DiskCache.EvictOne` | talk/base/diskcache.cc:241-262 | One round: no idle entry, the scan leaving the map (both if and only if), the oldest entry busy (whenever a busy one behind an idle one is older than all idle ones), a file that could not be deleted, or the oldest idle entry gone with its size. |
| `DiskCaches.LeastRecentTwice` | talk/base/diskcache.cc:241-262 | Least-recently-used order carries over repeated evictions. |
| `DiskCaches.Order` | talk/base/diskcache.cc:243-253 | The map is gone through in the order of its keys. |
| `DiskCaches.BelowIff` | talk/base/diskcache.cc:243-253 | The order of keys: the first difference decides, and a text comes after its beginnings. |
| `DiskCaches.SparedStep` | talk/base/diskcache.cc:241-262 | While evicting the older idle entries suffices, no eviction touches the entry or changes that. |
| `DiskCaches.SparableStep` | talk/base/diskcache.cc:241-262 | What it takes to keep an entry is not changed by the eviction of others. |
| `DiskCaches.SparedIffSparable` | talk/base/diskcache.cc:114-126 | With a time stamp of its own, the sufficient and the necessary condition for an entry to survive are one. |
| `DiskCaches.DoomedStep` | talk/base/diskcache.cc:241-262 | A doomed entry is never evicted and stays doomed until the scan leaves the map. |
| `DiskCaches.DoomedFromStart` | talk/base/diskcache.cc:253-257 | Where the scan leaves the map, that entry was doomed from the beginning. |
| `DiskCaches.DiskCache.ReleaseResource` | talk/base/diskcache.cc:331-360 | The entry of an open stream is always still there; a closed writer's file size enters the account; a deferred unlock takes effect with the last stream. |
| `DiskCaches.DiskCache.Purge` | talk/base/diskcache.cc:98-112 | Afterwards total_size_ is the sum of entry sizes if and only if it was zero before. |
| `DiskCaches.TotalUpdate` | talk/base/diskcache.cc:128-264 | How a sum over the entries moves when one entry is replaced. |
| `DiskCaches.PreviousFits` | talk/base/diskcache.cc:133-139 | The file about to be replaced is part of the entry's size, so the assert holds. |
| `DiskCaches.StoredSplit` | talk/base/diskcache.cc:147-149 | Opening or closing a stream for writing moves exactly its file out of or into the entry's size. |
| `DiskCaches.MeasureOpen` | talk/base/diskcache.cc:128-154 | Opening for writing keeps entry sizes equal to the sizes of the files not open for writing. |
| `DiskCaches.MeasureClose` | talk/base/diskcache.cc:342-352 | So does closing. |
| `DiskCaches.MeasureErase` | talk/base/diskcache.cc:210-226 | So does erasing a resource with its files. |
| `DiskCaches.NeverReadAndWritten` | talk/base/diskcache.cc:114-186 | In every reachable state no resource has both a reader and a writer, and unlocking means that a writer is open. |
| `Base64.EncodeQuantum` | talk/base/base64.cc:108-135 | One round of the encoder's loop yields the encoding of the next one to three bytes. |
| `Base64.EncodeFromArray` | talk/base/base64.cc:99-136 | The loop computes the grouped encoding of the whole input. |
| `Base64.LetterIs` | talk/base/base64.cc:33-36 | The alphabet of section 4 of RFC 4648. |
| `Base64.ClassifyIs` | talk/base/base64.cc:42-70 | Each character is its place in the alphabet, the pad, the blank or a control character 9 to 13, or illegal. |
| `Base64.EncodeIsCanonical` | talk/base/base64.cc:99-136 | Every encoding is canonical text and decodes to its bytes. |
| `Base64.CanonicalEncodes` | talk/base/base64.cc:138-257 | Every canonical text is the encoding of the bytes it decodes to. |
| `Base64.EncodedIffCanonical` | talk/base/base64.cc:99-257 | A text is the encoding of some bytes if and only if it is canonical, and then of only one byte sequence. |
| `Base64.ScanAny` | talk/base/base64.cc:138-187 | A lenient scan collects alphabet characters until it has four or the text ends, whatever lies between, and counts the pads after the last of them. |
| `Base64.ScanStrict` | talk/base/base64.cc:138-187 | A strict scan passes values, then pads, and stops where neither may follow, with pads allowed or not. |
| `Base64.WhiteScan` | talk/base/base64.cc:138-187 | Skipping white space is scanning the stripped text strictly. |
| `Base64.StrictRead` | talk/base/base64.cc:138-187 | A strict scan takes a whole group off the text, or ends with exactly the values, the counted pads and the position that the rest of the text stands for. |
| `Base64.WhiteRead` | talk/base/base64.cc:138-187 | The same when white space is skipped. |
| `Base64.AnyRead` | talk/base/base64.cc:138-187 | The same when anything is skipped. |
| `Base64.ReadRound` | talk/base/base64.cc:138-187 | One scan under every way of parsing. |
| `Base64.StrictVerdict` | talk/base/base64.cc:204-257 | DO_STRICT accepts exactly the canonical texts. |
| `Base64.WhiteVerdict` | talk/base/base64.cc:204-257 | With DO_PARSE_WHITE instead: exactly the texts that are canonical without their white space, which may not follow a last group without a pad. |
| `Base64.LaxVerdict` | talk/base/base64.cc:204-257 | DO_LAX accepts exactly the texts that leave no bits over. |
| `Base64.Decode` | talk/base/base64.cc:218-257 | The loop, for every combination of flags: the regrouped values of the text, the verdict, and whether all of it was used. |
| `Base64.GetNextQuantum` | talk/base/base64.cc:138-187 | Values, position, and whether the group is padded, for all flags; pads that do not complete the group are rolled back. |
| `Base64.DecodeQuantum` | talk/base/base64.cc:227-239 | The bytes of a group and the left-over bits. |
| `Base64.DecodeRound` | talk/base/base64.cc:224-249 | One round takes a whole group off the text or ends, exactly, under every way of parsing and padding. |
| `Base64.DecodeFromArray` | talk/base/base64.cc:204-257 | For every combination of parsing, padding and termination flags: success if and only if the text is accepted (last group whole or no bits left over, padded where required, used up where required), the result is its values regrouped, and the position is the end exactly when all was used. In particular strict decoding succeeds if and only if the text is an encoding, and then returns what was encoded. |
| `Base64.RegroupIsBits` | talk/base/base64.cc:227-239 | The decoded bytes are the 6-bit values' bits regrouped by eight: floor(6n/8) bytes. |
| `ByteBuffers.IntRoundTrip` | talk/base/bytebuffer.cc:162-188 | A value that fits its width comes back, in either byte order. |
| `ByteBuffers.BytesRoundTrip` | talk/base/bytebuffer.cc:81-138 | Bytes come back from the value they stand for. |
| `ByteBuffers.ByteAt` | talk/base/bytebuffer.cc:162-188 | Which byte of the value stands at which place, in either order. |
| `ByteBuffers.SwapLaysOut` | talk/base/bytebuffer.cc:166-188 | A value converted to network order lies in memory most significant byte first, on either kind of host. |
| `ByteBuffers.SwapReads` | talk/base/bytebuffer.cc:87-138 | Bytes copied into memory and converted give the network-order value, on either kind of host. |
| `ByteBuffers.FirstInFirstOut` | talk/base/bytebuffer.cc:81-205 | For any interleaving of typed writes and matching reads, the values read are the values written, in order. |
| `ByteBuffers.ByteBuffer.Resize` | talk/base/bytebuffer.cc:207-223 | Keeps the readable bytes at the front, compacting or reallocating, and moves the version. |
| `ByteBuffers.ByteBuffer.WriteBytes` | talk/base/bytebuffer.cc:194-205 | Appends across every compaction and reallocation; without one, everything before stays in place. |
| `ByteBuffers.ByteBuffer.WriteUInt` | talk/base/bytebuffer.cc:162-188 | Host memory, conversion and the 24-bit offset together append the value's bytes in the buffer's order. |
| `ByteBuffers.ByteBuffer.ReadUInt` | talk/base/bytebuffer.cc:81-138 | The same for reading; refused, with nothing consumed, when too few bytes are there. |
| `ByteBuffers.ByteBuffer.ReadBytes` | talk/base/bytebuffer.cc:140-160 | Takes exactly the first bytes, or nothing. |
| `ByteBuffers.ByteBuffer.Consume` | talk/base/bytebuffer.cc:225-230 | Drops exactly the first bytes, or nothing. |
| `ByteBuffers.ByteBuffer.Clear` | talk/base/bytebuffer.cc:244-248 | Empties the buffer and moves the version. |
| `ByteBuffers.ByteBuffer.GetReadPosition` | talk/base/bytebuffer.cc:232-234 | The position from which everything now readable starts. |
| `ByteBuffers.ByteBuffer.SetReadPosition` | talk/base/bytebuffer.cc:236-242 | Succeeds exactly when no Resize or Clear intervened, and then exposes the bytes readable at capture followed by everything written since. |
| `ByteBuffers.LaterChains` | talk/base/bytebuffer.cc:194-248 | What SetReadPosition relies on carries over any sequence of operations: the version moved on, or the bytes were only added to. |
| `ByteBuffers.ByteBuffer.Revisit` | talk/base/bytebuffer.cc:140-248 | Any writes, reads, Resizes and Clears between taking a position and going back: it succeeds if and only if there was no Resize or Clear and everything written fitted behind the write position, and then the bytes readable at capture are readable again, followed by everything written. |
| `ByteBuffers.ByteBuffer.Replay` | talk/base/bytebuffer.cc:81-205 | The object itself, driven by any interleaving of typed calls, returns the written values in order. |
| `HttpAttributes.QuoteString` | talk/base/httpcommon.cc:715-725 | The loop computes the quoted form. |
| `HttpAttributes.QuotedBack` | talk/base/httpcommon.cc:294-303 | Reading the quoted form of any value gives the value back. |
| `HttpAttributes.PairsBack` | talk/base/httpcommon.cc:268-316 | A list of name=quoted pairs is read back in order. |
| `HttpAttributes.ComposeRoundTrip` | talk/base/httpcommon.cc:268-316 | A scheme and its pairs are read back exactly, for all values and all names without white space or '='. |
| `HttpAttributes.PlainPairsBack` | talk/base/httpcommon.cc:303-314 | A list of name=token pairs is read back in order: an unquoted value ends at its comma. |
| `HttpAttributes.QuotePlain` | talk/base/httpcommon.cc:715-725 | A text without quotes and backslashes is quoted as it is. |
| `HttpAttributes.Progress` | talk/base/httpcommon.cc:271-315 | Every attribute read makes progress, so the parser ends on every input. |
| `HttpAttributes.IsEndOfAttributeName` | talk/base/httpcommon.cc:226-239 | The test at a position, as a property of the text in front of it. |
| `HttpAttributes.FindNameEnd` | talk/base/httpcommon.cc:282-288 | The name is everything up to its end. |
| `HttpAttributes.ReadQuoted` | talk/base/httpcommon.cc:294-303 | The quoted value, unescaped, and the text after its closing quote. |
| `HttpAttributes.ReadToken` | talk/base/httpcommon.cc:304-310 | The unquoted value up to white space or a comma. |
| `HttpAttributes.ReadAttribute` | talk/base/httpcommon.cc:282-315 | One round of the loop takes one attribute off the front. |
| `HttpAttributes.HttpParseAttributes` | talk/base/httpcommon.cc:268-316 | The position-based loops compute the recursive reading of the text, on every input. |
| `HttpClients.Authenticate` | talk/base/httpcommon.cc:762-798 | A challenge is answered only without an authentication context, and the answer leaves one. |
| `HttpClients.StageSpends` | talk/base/httpclient.cc:760-814 | A fresh start after a redirect or an answered challenge costs more connections than its new attempts give back. |
| `HttpClients.FullBudget` | talk/base/httpclient.cc:281-282 | From a reset client the budget is 2 * (kMaxRedirects + 1) * (retries_ + 1). |
| `HttpClients.BudgetBound` | talk/base/httpclient.cc:281-282 | No start has a larger budget than that, whatever redirects and context an earlier run left behind. |
| `HttpClients.HttpClient.Reset` | talk/base/httpclient.cc:310-317 | Redirects and context start anew; a stream in use completes the request, a look-up goes on. |
| `HttpClients.HttpClient.UserStart` | talk/base/httpclient.cc:354-413 | Fixes the quota that the run may not exceed. |
| `HttpClients.HttpClient.Start` | talk/base/httpclient.cc:354-413 | Attempts start anew: the next thing is to connect for attempt 0, within what is left of the quota. |
| `HttpClients.HttpClient.Connect` | talk/base/httpclient.cc:415-432 | Looks a name up or asks for one stream next, for the present attempt; with all that refusals retry on the stack, it stays within the quota. |
| `HttpClients.HttpClient.OnResolveResult` | talk/base/httpclient.cc:319-334 | A finished look-up connects or fails within the quota; a stray one does nothing. |
| `HttpClients.HttpClient.OnHttpComplete` | talk/base/httpclient.cc:727-825 | Which of retry, send, receive, redirect, authentication and completion comes next, and with what error, is decided by the state before, except that a document may fail to rewind; each further connection is paid for and the recursion ends. |
| `HttpClients.HttpClient.Redirect` | talk/base/httpclient.cc:759-781 | One redirect fewer, no context, a cleared response, GET without a document after 303, and a strictly smaller budget; fails only if a document does not rewind. |
| `HttpClients.HttpClient.Answer` | talk/base/httpclient.cc:782-815 | Restarts exactly when there is no context, a user name and a supported challenge, and the document rewinds, which strictly lowers the budget; the error is HE_STREAM exactly when only the document was in the way. |
| `HttpClients.HttpClient.Transact` | talk/base/httpclient.cc:354-432 | Any run of events after any start by the user, reset or not, requests at most 2 * (kMaxRedirects + 1) * (retries_ + 1) connected streams. |

## Left out

- The leader's own syntax (`sscanf` in `parseLeader`) and the answer of `onHttpHeaderComplete` are parameters of the parser (`Owner`).
- An empty Content-Length value is HE_PROTOCOL in the model; the source's `sscanf` reads on past the value into the following bytes.
- `size_t` and `unsigned long` are taken as 32 bits wide, so numbers out of range saturate at SIZE_UNKNOWN.
- Documents and networks that accept or deliver zero bytes with SR_SUCCESS: `Process` would loop, and an empty document read would emit the terminating chunk.
- Replacing the document by a pull reader inside `Process` (PR_BLOCK from ProcessHeaderComplete): pull mode is modelled in the completion protocol only.
- The user runs inside the protocol at the signal that `do_complete` sends to a pull reader; all other notifications are the last act of their path, and operations started from them start right after. A user who never returns from a signal is not covered; `notify_` is taken to be set.
- Memory ordering below sequential consistency: each listed step of the lock-free queue is atomic, and `MemoryBarrier` is what makes it so.
- `AsyncTCPSocketBase::SendRaw` and listening sockets: outside the framing contract.
- Write, unlock and read of an id that is not in the cache: the source dereferences the missing entry unchecked.
- What happens after `Undefined`, `ranOff`, `Asserted` and `asserted`: the source is then outside its own memory or assertions.
- Overflow of cache sizes, file names, `Initialize`, `HasResource` and `HasResourceStream` of the cache.
- The version counter of ByteBuffer does not wrap in the model; allocation does not fail.
- Attributes without a value that are followed by a comma: the parser keeps the comma in the name, so they do not round-trip.
- HttpClient's cache paths, keep-alive decisions, URI rewriting, and the Negotiate and NTLM methods; `retries_` is fixed during a run.
- A `start()` while an earlier look-up is still pending (after `reset()`): two requests would then share one client.
- HttpServer, sockets, threads, message queues, DNS, logging, URLs, dates, JSON, and the operating-system wrappers: easier than the chosen parts, or foreign code.
