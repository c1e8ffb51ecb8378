# monoio-tungstenite: a verified model of the WebSocket data path

This project models what happens between the bytes of a connection and the messages of an application in
`monoio-tungstenite`, the RFC 6455 data path, and proves that it does what the standard and the library promise.

Four layers compose, and two modules say in numbers what they come to.

* **Endpoint** (`Endpoint.dfy`, `Runs.dfy`, `WebSocket.dfy`). `Endpoint` describes one endpoint as a state machine on
  values: connection state, message under reassembly, decoder, read and write buffer. Each call (`read`, `write`,
  `close`, `flush`) is a step for every outcome of the underlying stream. `WebSocket` is the object with its mutable
  fields, loops and nested objects; each of its methods is proved to take exactly the step of the state machine. `Runs`
  proves what holds in every run against any peer and any stream.
* **Two endpoints** (`TwoParty.dfy`, `Completion.dfy`). A client and a server joined by two byte channels. Steps of the
  two sides interleave in every way, octets arrive in pieces of any size, and the end of a stream is seen any time
  after it was shut down, or never. One invariant ties octets in flight, queued frames, connection states, delivered
  messages and reports together.
* **Text** (`Utf8.dfy`, `Collector.dfy`, `Message.dfy`, `Fragmentation.dfy`). The four-octet carry buffer, the text
  collector over it, reassembly and its size limits, and the invisibility of fragmentation.
* **Frames** (`Coding.dfy`, `Mask.dfy`, `Frame.dfy`, `Decode.dfy`, `Buffers.dfy`, `Sender.dfy`, `FrameCodec.dfy`).
  Headers, masking a word at a time, the resumable decoder, the encoder, and the buffered sender.
* **What is on the wire, and what is answered** (`Wire.dfy`, `Verdicts.dfy`). Headers, masking, whole frames and close
  codes in the numbers of RFC 6455, defined without the functions that write and read them; every refusal, the end and
  the loss of a stream, and late calls, case by case.

Conventions. A byte is a `bv8`; lengths are natural numbers and 64-bit limits are written out. Every awaited call is one
step that succeeds or fails. A stream lists its failures in `faults`; the ghost results `io`, `outcome` and `arrival`
of a call are tied to them: they name exactly the failures the stream had during the call, and its end only when
nothing is left to arrive. The key of a masked frame, which the source draws at random, is a parameter. The validator
`simdutf8::compat::from_utf8` lies outside the repository and is modelled by the contract of `std::str::from_utf8`:
`valid_up_to` is the longest well-formed prefix, and `error_len` is absent exactly when the rest is an unfinished
character. `hide` statements in proofs only leave definitions out of a proof that does not need them.

Where the code and its documentation differ, the model follows the code:

* `write_buffer_size` 0 is documented to write every message at once (`src/protocol/websocket.rs:35-36`); the code
  never writes the frame just sent (`Sender.NotEagerAtZero`; `Sender.SendIsNotEager` says exactly when earlier octets
  are written).
* Ping and Pong payloads are documented to be "less than 125 bytes" (`src/protocol/message.rs:184-191`); writing checks
  nothing, so that 126 octets are queued and then refused by the peer (`Fragmentation.OversizedPing`), and receiving
  accepts exactly 125 and less (`Fragmentation.ControlAcceptedIffSmall`).
* A close code arrives as it was sent exactly when it is one a number converts to (`Coding.CodeSurvivesIffCanonical`);
  `Iana(1000)` arrives as `Normal` (`Coding.CodeThatChanges`).
* A frame that is too long loses its header but not its payload, and an invalid opcode stays in front of the buffer
  for ever (`Decode.AfterFailure`); a rejected continuation leaves the message open exactly when the octets so far are
  too many or no text begins with them (`Fragmentation.RejectedContinuation`, `Fragmentation.StuckAfterRejection`).
* `read` on a server that has received a Close reports `ConnectionClosed` without shutting the stream down
  (`src/protocol/websocket.rs:225-228`); only `flush` and `close` do, and until then the client waits
  (`Runs.ReadStep`, `Completion.EveryFairRunEnds`).

## Model

| member | source | states |
|---|---|---|
| TwoParty.EveryRunKeepsInv | src/protocol/websocket.rs:221-498 | over every interleaving of reads, writes, closes, flushes and arrivals of any number of octets, on both sides, with the end of a stream seen late or never, the joint invariant holds: the octets not yet decoded are exactly the encodings of the frames queued and not yet delivered, each side can read exactly until it has been given a Close, no octet is buffered once a side has closed, and a client terminates only after the server has shut down its stream |
| TwoParty.TwoPartySafety | src/protocol/websocket.rs:221-365 | in every such run of two new endpoints a Close is the last frame of its direction and is there exactly when its sender has closed; what a side has been given is a prefix, in order, of the messages its peer has sent, only a Close changing on its way, and all of them once the side reads no more; no call reports anything but success, `ConnectionClosed`, `AlreadyClosed` or `SendAfterClosing`, and a terminated side has been told `ConnectionClosed`; the server ends first, with its stream shut down, nothing left to write and everything delivered both ways |
| TwoParty.WrittenIsRead | src/protocol/websocket.rs:221-299 | end to end: the text and binary messages one user has read are a prefix, in order and octet for octet, of those the other user passed to `write` in that run, and all of them once the reader reads no more |
| TwoParty.WriteRefusedIffClosed | src/protocol/websocket.rs:248-255 | in every reachable state `write` is refused exactly when a Close has been queued, by the user or as a reply |
| TwoParty.NextKeepsInv | src/protocol/websocket.rs:221-498 | one step of either side, with every frame it queues, every octet it flushes and every frame it reads or has to wait for, keeps the joint invariant and both configurations |
| TwoParty.FreshNetInv | src/protocol/websocket.rs:150-168 | two new endpoints, with any limits that let control frames through, start in the invariant |
| TwoParty.ReadCallIsStep | src/protocol/websocket.rs:221-242 | in every reachable state a whole call of `read`, loop and all, on a stream that does not fail is a step of this system after what it reads has arrived |
| TwoParty.DefaultIsUsable | src/protocol/websocket.rs:63-72 | the default limits are among those the two-party theorems cover |
| TwoParty.WrittenIsQueued | src/protocol/websocket.rs:248-283 | a message written while active is queued as one frame that shows the peer that very message; a Close shows the code as it crosses the wire, replaced by 1002 when the peer was still active and the code must not be sent |
| TwoParty.ShownIsReceived | src/protocol/websocket.rs:332-455 | a frame that carries a message is shown to its receiver as that message |
| TwoParty.HandlePending | src/protocol/websocket.rs:332-455 | a frame queued by a polite peer passes every check of the receiver, is shown as what was queued, and is answered by a Pong or a Close exactly when the receiver is active |
| TwoParty.BytesAppend | src/protocol/frame/codec.rs:145-153 | appending an encoded frame behind octets that are partly decoded, buffered, in flight or still unwritten appends that frame to what will be decoded |
| TwoParty.BytesDecode | src/protocol/frame/codec/decode.rs:41-98 | on such octets decoding never fails, hands over the next pending frame, loses nothing when it has to wait, and waits at the end of the stream only when nothing is pending |
| TwoParty.ReadMoves | src/protocol/websocket.rs:221-365 | a read in the joint invariant hands over the next pending frame or waits; the end of the stream, whenever it is seen, comes only after the peer has shut down, and is then `ConnectionClosed` |
| Completion.EveryFairRunEnds | src/protocol/websocket.rs:221-322 | every fair run ends cleanly: once both sides have closed and their octets have arrived, it is enough that each reads as often as it has messages pending, that the server then flushes, and that the client then reads and sees the end of the stream, whatever else either side does in between |
| Completion.ClosingCompletes | src/protocol/websocket.rs:221-322 | no run gets stuck: from every reachable state of the two endpoints there are steps after which both have terminated and both users have been told `ConnectionClosed`; the server's flush shuts the stream down, and only then does the client see its end |
| Completion.EveryRunCanEnd | src/protocol/websocket.rs:221-322 | every run of two new endpoints can be carried on to such an end, with every message either side ever sent delivered to the other |
| Completion.DrainAll | src/protocol/websocket.rs:221-242 | once its peer has closed and everything has arrived, a side that keeps reading is given every pending message, the Close last: as many reads as there are messages are enough in every run, whatever either side does in between |
| Completion.LaterRun | src/protocol/websocket.rs:221-322 | in every run, what has been drained stays drained, a stream that was shut down stays so, and a terminated client stays terminated |
| Completion.ClosedIsSilent | src/protocol/websocket.rs:248-283 | a side that has closed queues nothing and sends nothing, whatever call its user may make |
| Wire.ParsesHeaders | src/protocol/frame/frame.rs:76-205 | the parser finds a header exactly when octets that are one, by the bits and numbers of section 5.2 of RFC 6455, stand in front, and it is that one: opcodes 0, 1, 2, 8, 9 and 10 in the low four bits, FIN 0x80, RSV 0x40, 0x20 and 0x10, MASK 0x80, and a length in one, two or eight octets, the most significant first |
| Wire.ParseVerdict | src/protocol/frame/frame.rs:139-205 | otherwise octets are missing, by the count the second one announces, or the opcode number is one of 3 to 7 and 11 to 15 |
| Wire.EncodedIsHeader | src/protocol/frame/frame.rs:94-124 | what is written is such a header, with the length in the shortest of its three forms |
| Wire.EncodedIsFrame | src/protocol/frame/codec/encode.rs:15-61 | what is written for a frame is that header and the payload, bit by bit XORed with its key octet if masked |
| Wire.FrameIsDecoded | src/protocol/frame/codec/decode.rs:41-98 | every such frame, its length in any form, is decoded as the size limit and the masking rules of the side demand: handed over without masking by a server, too long refused, unmasked refused exactly by a server that does not accept it |
| Wire.MaskingIsXor | src/protocol/frame/mask.rs:15-42 | the result of masking is the one whose bit `k` of octet `i` is set exactly when those of the input and of key octet `i mod 4` differ |
| Wire.ZeroKeyMasksNothing | src/protocol/frame/mask.rs:15-19 | the key of zeros changes nothing |
| Wire.MaskedZerosAreTheKey | src/protocol/frame/mask.rs:15-19 | zeros become the key, over and over |
| Wire.AllowedNumbers | src/protocol/frame/coding.rs:194-198 | the codes allowed in a Close are 1000 to 1003, 1007 to 1013 and 3000 to 4999, and no other number |
| Wire.NamedCodes | src/protocol/frame/coding.rs:208-233 | the numbers of the named codes are those of section 7.4.1 of RFC 6455 |
| Wire.CloseInNumbers | src/protocol/frame/frame.rs:331-353 | the payload of a Close is the number of its code, the more significant octet first, and its reason |
| Wire.ParsedCloseInNumbers | src/protocol/frame/frame.rs:284-294 | a payload is read as that number and the rest as reason |
| Wire.Examples | src/protocol/frame/codec/encode.rs:15-61 | the frames printed in section 5.7 of RFC 6455 are written octet for octet as there |
| Verdicts.FrameVerdict | src/protocol/websocket.rs:332-455 | of every frame, the checks accept exactly those that break no rule and refuse the others with the error of the first rule broken: reading after a Close, reserved bits, masking by a server, fragmented, long or unknown control frames, bad Close payloads, stray continuations, interleaved messages, unknown data frames, size and UTF-8; only a refused continuation changes anything |
| Verdicts.AcceptedIsShown | src/protocol/websocket.rs:367-455 | a whole frame that is accepted shows its payload as the kind of message its opcode names, and only a Ping while active is answered, by its own payload |
| Verdicts.FirstRead | src/protocol/websocket.rs:130-242 | from octets to messages: a new socket that finds a frame in front of it, in any form, refuses it as its configuration and that table say, and otherwise hands over what it shows |
| Verdicts.CloseIsAnswered | src/protocol/websocket.rs:462-498 | in octets: while active a Close is shown, and answered, with its own payload if its number may be sent, and as 1002 "Protocol violation" if not; after an own Close it is shown as it came and not answered |
| Verdicts.MessageOctets | src/protocol/websocket.rs:248-299 | a written message is one frame that starts with 0x81, 0x82, 0x88, 0x89 or 0x8A by its kind, then its length, and its payload, masked with the key by clients only |
| Verdicts.ServerReadsNoMore | src/protocol/websocket.rs:221-228 | in every run of a server, once a Close has been handed over or handled, the next read says `ConnectionClosed` and all later ones `AlreadyClosed`, whatever is buffered, arrives or fails, and touches nothing but the state |
| Verdicts.EndVerdict | src/protocol/websocket.rs:354-363 | the end of the stream is the normal end after a Close was received, `ResetWithoutClosingHandshake` before, and an I/O error inside a frame |
| Verdicts.ReadLoss | src/protocol/websocket.rs:561-576 | a stream lost while reading is `ConnectionClosed` exactly when it was reset after a Close was received, and that I/O error otherwise |
| Verdicts.WriteLoss | src/protocol/websocket.rs:561-576 | a stream lost while writing a message or an own Close is that I/O error; nothing is queued, and closing counts all the same |
| Verdicts.ReplyLoss | src/protocol/websocket.rs:231-236 | a stream lost while a reply is written is `ConnectionClosed` exactly when it was reset and the reply answers a Close; nothing is handed over |
| Verdicts.RepliesAreFlushed | src/protocol/websocket.rs:231-236 | a message that is answered is handed over only when the answer, and everything buffered before it, is on the wire |
| Verdicts.LateCalls | src/protocol/websocket.rs:248-283 | after closing a write is told `SendAfterClosing`, after the end `AlreadyClosed`, and changes nothing; a `close` is then a flush |
| Verdicts.CloseMessageCloses | src/protocol/websocket.rs:263-283 | writing a Close message is calling `close` with it, and a raw frame is queued as it was given, masked by clients |
| Verdicts.FlushVerdict | src/protocol/websocket.rs:306-322 | a flush of a connection that goes on succeeds exactly when everything is written, and changes nothing else |
| Verdicts.LastFlushVerdict | src/protocol/websocket.rs:306-319 | a flush on a server that has received a Close, or has ended, ends the connection, shuts the stream down when all is written, and says `ConnectionClosed` exactly when nothing has failed |
| Verdicts.DefaultLimits | src/protocol/websocket.rs:63-72 | the default limits in numbers |
| Completion.ServerStopsReading | src/protocol/websocket.rs:225-228 | a server that has been given the client's Close terminates at its next read, which touches nothing else |
| Runs.RunIsDisciplined | src/protocol/websocket.rs:248-498 | against any octets, any calls and any stream failures, once a Close is queued, by the user or as a reply, no frame follows it; every queued frame carries the message that was sent in its place; automatic replies are allowed ones; states only move forward; nothing over the size limit is handed over; queued and delivered only grow |
| Runs.EveryRunIsDisciplined | src/protocol/websocket.rs:248-498 | the same in plain terms for every run of a new endpoint: at most one Close, the last frame queued; nothing delivered or under reassembly over `max_message_size`; every delivery and every reply stems from a frame without reserved bits, and unmasked if a server sent it; whatever the stream does, every automatic reply is a Pong of at most 125 octets or a Close of at most 125 octets that is empty or carries an allowed code and parses back to its frame; each Ping and Close handed over while active has its own reply queued, in order, and while replies can be written nothing else is replied |
| Runs.EveryStepOk | src/protocol/websocket.rs:221-498 | every call queues at most one frame and only while active, that frame carries the message of the call or an allowed reply, queueing a Close ends that, reassembly stays valid and within its limit, and nothing is written behind a shut-down stream |
| Runs.NewHistoryInv | src/protocol/websocket.rs:150-168 | every endpoint starts in the invariant of these runs |
| Runs.RepliesAreDue | src/protocol/websocket.rs:381-395 | while replies can be written, the replies `read` sends are exactly those due to what it handed over while active, one each and in order: for a Ping a Pong with its payload, for a Close the very frame shown to the user |
| Runs.SanitisedReply | src/protocol/websocket.rs:466-483 | the reply to a Close has at most 125 octets, is empty or carries an allowed code, and parses back to exactly the frame shown to the user |
| Runs.ReadStep | src/protocol/websocket.rs:221-242 | what a read sends by itself, for every outcome of the stream: nothing but allowed replies, and a Ping or Close is handed over while active only with its own reply queued; and a read never shuts the stream down |
| Runs.FrameHandledWell | src/protocol/websocket.rs:367-498 | a frame that may be read moves the state forward only; a Ping or Close is shown as it arrived, with a code that must not be sent replaced while active, and the reply is the one due to what is shown; the loop is told to go on only for a non-final data frame, so an accepted Close is never swallowed and the already-closed branch of `do_close` is never taken |
| Runs.FrameSizes | src/protocol/websocket.rs:401-454 | neither a message under reassembly nor a text or binary message handed over exceeds `max_message_size` |
| Runs.NextTurnIsFragment | src/protocol/websocket.rs:230-241 | each turn of the loop in `read` that does not return consumes one whole non-final data frame, changes nothing else but reassembly, and leaves strictly less to decode |
| Runs.ReadReturnsAtEnd | src/protocol/websocket.rs:221-242 | with the stream ended or lost, `read` always returns a message or an error |
| Runs.ReadCallIsTurns | src/protocol/websocket.rs:221-242 | a call of `read` is a run of single turns: repeating the checks made on entry before each of them changes nothing |
| Runs.TerminatedIsFinal | src/protocol/websocket.rs:221-322 | once terminated, a run of any calls leaves state, queued and delivered as they are, and tells exactly the reads and writes `AlreadyClosed` |
| WebSocket.WebSocket.constructor | src/protocol/websocket.rs:130-168 | a new socket, with whatever was read behind the handshake in its buffer, is the initial state of the machine, with the decoder configured for its role |
| WebSocket.WebSocket.SetConfig | src/protocol/websocket.rs:171-182 | a new configuration reaches the decoder, the sender and the size limit, and nothing else changes |
| WebSocket.WebSocket.Read | src/protocol/websocket.rs:221-242 | `read` returns, ends in the state, queues the frames and writes the octets the state machine says, as if all octets that arrived meanwhile, in any chunks, had been buffered at once; it meets exactly the failures the stream had, and the end of the stream only when nothing is left to arrive; a server that has received a Close, and any socket that has terminated, answers without touching stream or buffers |
| WebSocket.WebSocket.FaultFreeCall | src/protocol/websocket.rs:221-322 | a call during which the stream has not failed is one of the calls the two-party theorems are about |
| WebSocket.WebSocket.Turns | src/protocol/websocket.rs:230-241 | the loop of `read` terminates and comes to the machine's turns taken on everything that arrived, with exactly the failures the stream had |
| WebSocket.WebSocket.Turn | src/protocol/websocket.rs:231-240 | one turn of that loop, with its reply sent and flushed before the message is returned; it goes round only when nothing has failed or ended |
| WebSocket.WebSocket.ReadMessageFrame | src/protocol/websocket.rs:324-365 | the next frame is awaited, checked and handled as in a turn of the machine whatever reply is still to be sent; a loss is reported exactly when the stream failed, its end only when nothing is left to arrive |
| WebSocket.WebSocket.Write | src/protocol/websocket.rs:248-268 | `write` takes the machine's step, refusal, close or one queued frame, for exactly the failures the stream had |
| WebSocket.WebSocket.Close | src/protocol/websocket.rs:275-283 | `close` takes the machine's step, a Close queued and flushed when active and otherwise a flush, for exactly the failures the stream had |
| WebSocket.WebSocket.Flush | src/protocol/websocket.rs:306-322 | `flush` takes the machine's step for exactly the failures the stream had; on a server with nothing left to read it ends the connection, and shuts the stream down exactly when everything was written |
| WebSocket.WebSocket.WriteFrame | src/protocol/websocket.rs:286-299 | a frame is masked by clients only, handed to the sender, and a reset after closing is reported as `ConnectionClosed`; it fails exactly when the stream did |
| WebSocket.WebSocket.HandleFrame | src/protocol/websocket.rs:367-455 | handling changes state and reassembly in place exactly as the machine's function does, and touches no buffer |
| WebSocket.WebSocket.HandleContinue | src/protocol/websocket.rs:405-417 | a continuation extends the message in place, takes it out when final, and keeps it when the extension fails |
| WebSocket.WebSocket.DoClose | src/protocol/websocket.rs:462-498 | the reply and the next state for a received Close; `unreachable!` is ruled out at every call |
| WebSocket.TurnExtends | src/protocol/websocket.rs:230-241 | a turn that goes round again does the same when more octets are already buffered |
| Fragmentation.FragmentationIsTransparent | src/protocol/websocket.rs:367-455 | a message cut into an initial frame and any continuations, with Pings and Pongs anywhere between, is accepted exactly when the same octets in one frame are, and then gives the same message and state, the control messages first and in order with their usual replies; when rejected it never gives a data message |
| Fragmentation.TakePieces | src/protocol/websocket.rs:405-417 | from any point of the reassembly on, the remaining frames succeed exactly when the whole is within the limit and, if text, well-formed |
| Fragmentation.ControlAcceptedIffSmall | src/protocol/websocket.rs:369-398 | Pings, Pongs and Closes built by the library are accepted exactly up to 125 octets, and otherwise refused as `ControlFrameTooBig` without any change |
| Fragmentation.RejectedContinuation | src/protocol/websocket.rs:405-421 | a continuation is refused exactly when the octets so far are too many, or begin no text, or are final and not text; the message stays open, and every new text or binary frame is refused, exactly in the first two cases |
| Fragmentation.OversizedPing | src/protocol/websocket.rs:248-266 | a Ping of 126 octets is queued without complaint and refused by its receiver |
| Collector.FragmentIndependence | src/protocol/message.rs:34-93 | for every way of cutting text into fragments, collecting succeeds exactly when the whole is well-formed UTF-8, and then yields exactly the whole |
| Collector.RejectedIffHopeless | src/protocol/message.rs:34-82 | a fragment is rejected at once exactly when no further octets could make the text well-formed |
| Collector.RejectedKeepsPrefix | src/protocol/message.rs:57-72 | a rejected fragment leaves behind the longest well-formed text that carry and fragment begin with, and no carry |
| Collector.EveryReachableCollectorIsValid | src/protocol/message.rs:34-82 | in every reachable state, even after errors, the text is well-formed and the carry is empty or an unfinished character of at most three octets |
| Collector.FeedKeepsValid | src/protocol/message.rs:34-82 | every fragment leaves text and carry valid, and an accepted one loses, adds and reorders no octet |
| Collector.SpliceDecides | src/protocol/frame/utf8/decode.rs:85-114 | looking at no more than four spliced octets decides as looking at all of them would, and both `checked_sub(..).unwrap()` have something to subtract from |
| Collector.Incomplete.FromBytes | src/protocol/frame/utf8/decode.rs:20-29 | the carry buffer holds the given octets, for which four places are enough |
| Collector.Incomplete.TakeBuffer | src/protocol/frame/utf8/decode.rs:65-69 | hands out what is carried and leaves nothing |
| Collector.Incomplete.TryCompleteOffsets | src/protocol/frame/utf8/decode.rs:75-116 | the buffer ends up with the carry and exactly the consumed input, and the answer says which it is: well-formed text past the carry, the maximal ill-formed subpart, or a still unfinished character with all input used |
| Collector.Incomplete.TryComplete | src/protocol/frame/utf8/decode.rs:49-62 | the text or error octets followed by the remaining input are the carry followed by the input, and what is declared text is well-formed |
| Collector.StringCollector.Extend | src/protocol/message.rs:34-82 | the two-stage extension over the carry buffer equals validating the carried octets together with the new ones in one go |
| Utf8.CharMatchesRules | src/protocol/frame/utf8/decode.rs:86-86 | the table of lead and second octets is the grammar of section 4 of RFC 3629 |
| Utf8.PartialIsProperPrefix | src/protocol/frame/utf8/decode.rs:108-111 | an unfinished character is exactly a non-empty proper prefix of a character |
| Utf8.ValidPrefixIsWellFormed | src/protocol/message.rs:61-64 | the prefix up to `valid_up_to` is well-formed, which justifies `from_utf8_unchecked` |
| Utf8.WellFormedPrefixBound | src/protocol/message.rs:61-62 | no longer prefix is well-formed |
| Utf8.ErrorLenContract | src/protocol/message.rs:66-75 | `error_len` is absent exactly for an unfinished character and otherwise measures the maximal ill-formed subpart |
| Utf8.WellFormedConcat | src/protocol/message.rs:40-40 | appending to well-formed text moves the first error by exactly its length |
| Message.CloseRoundTrip | src/protocol/frame/frame.rs:284-353 | parsing the payload of a Close gives back its reason and its code as it crosses the wire |
| Message.ParsedCloseIsStable | src/protocol/frame/frame.rs:284-294 | a Close that was parsed crosses the wire unchanged |
| Message.ClosePayloadVerdict | src/protocol/frame/frame.rs:284-294 | a Close payload is accepted exactly when it is empty or a code followed by well-formed text, says which error otherwise, and is given back unchanged when the parsed Close is sent on |
| Message.ExtendAccounting | src/protocol/message.rs:127-156 | `len` is the sum of the fragment lengths, carried octets included; an extension is refused for size exactly when the sum would exceed the limit in force, the error names sum and limit, and the saturating sum never saturates |
| Message.ReassemblyAccounting | src/protocol/message.rs:127-156 | over any fragments, each with the limit in force when it arrives: without an error `len` is the sum of their lengths and within the last limit; the size named in an error exceeds the limit named with it and fits a word if the fragments together do |
| Message.IncompleteMessage.Extend | src/protocol/message.rs:135-156 | the in-place extension of either kind of message equals the specification, error and all |
| Message.IncompleteMessage.Complete | src/protocol/message.rs:159-167 | completion yields the text or the bytes, or an error for an unfinished character |
| Message.IncompleteMessage.Len | src/protocol/message.rs:127-132 | the length reported is that of text and carry together |
| Decode.ChunkingIndependence | src/protocol/frame/codec/decode.rs:41-98 | however a stream is cut into arriving chunks, decoding yields the frames, and the first error if any, of decoding it whole, and without an error ends in the same state |
| Decode.PumpExtends | src/protocol/frame/codec/decode.rs:41-98 | decoding may stop wherever input runs out and go on later, and an error once found is not changed by later octets |
| Decode.DecodeExtends | src/protocol/frame/codec/decode.rs:41-98 | octets that arrive later change nothing one call has decided; a call that had to wait and its leftovers decode alike |
| Decode.DecodeKeeps | src/protocol/frame/codec/decode.rs:41-77 | a call leaves a suffix of the buffer; when it has to wait it has taken nothing, or exactly a complete header that it remembers |
| Decode.CodecRoundTrip | src/protocol/frame/codec/encode.rs:15-61 | decoding the encodings of any list of acceptable frames gives the list with masks removed and leaves exactly what follows |
| Decode.WholeStreamRoundTrip | src/protocol/frame/codec/encode.rs:15-61 | the same for a whole stream: every octet is consumed |
| Decode.DecodedWithinLimit | src/protocol/frame/codec/decode.rs:50-59 | no frame handed on exceeds `max_frame_size` |
| Decode.DecodedIsKnown | src/protocol/frame/frame.rs:187-193 | no frame handed on has a reserved opcode |
| Decode.AfterFailure | src/protocol/frame/codec/decode.rs:45-95 | what each failure leaves behind: a bad opcode fails again for ever, a frame that is too long has lost its header only, an unmasked frame that is not accepted is gone as a whole; there are no other failures |
| Decode.DecodeMakesProgress | src/protocol/frame/codec/decode.rs:72-97 | every frame decoded makes what is left smaller, also after a header taken earlier |
| Frame.ParseIsPrefixStable | src/protocol/frame/frame.rs:76-85 | no strict prefix of a complete header is enough, a header takes at most 14 octets, and nothing after it changes how it is read |
| Frame.ParseOfEncode | src/protocol/frame/frame.rs:94-205 | parsing undoes formatting in all three length formats, with or without a mask, and consumes exactly `FrameHeader::len` octets |
| Frame.ParsedIsCanonicalisable | src/protocol/frame/frame.rs:139-205 | however wastefully a length was encoded, formatting the parsed header again is never longer and parses to the same header and length |
| Frame.ReformatsIffMinimal | src/protocol/frame/frame.rs:94-205 | formatting a parsed header gives back the very octets that were read exactly when the length was written in its shortest format |
| Frame.LengthByteRoundTrip | src/protocol/frame/frame.rs:414-456 | the length byte tells the format and, below 126, the length, whatever the mask bit |
| Frame.OpCodeRoundTrip | src/protocol/frame/coding.rs:74-118 | every opcode that is not reserved survives its conversion to a byte of at most 10 and back |
| Frame.ParseInternal | src/protocol/frame/frame.rs:139-205 | reading through the cursor gives the header at its position, or asks for more, and consumes exactly the header |
| Frame.Parse | src/protocol/frame/frame.rs:76-85 | the same, and puts the cursor back when input is missing |
| Mask.ApplyMaskFast32 | src/protocol/frame/mask.rs:23-42 | for every split into prefix, words and suffix and both byte orders the result is octet `i` XOR key octet `i mod 4`, and nothing outside the slice changes |
| Mask.ApplyMaskFallback | src/protocol/frame/mask.rs:15-19 | the octet-by-octet form has the same result |
| Mask.ApplyMask | src/protocol/frame/mask.rs:9-11 | so has masking with whatever split and byte order the machine has |
| Mask.MaskedTwice | src/protocol/frame/mask.rs:15-19 | masking twice with one key restores the octets |
| Mask.MaskedSplit | src/protocol/frame/mask.rs:26-41 | masking in two pieces needs the key rotated by the length of the first |
| Mask.RotateIsRotated | src/protocol/frame/mask.rs:28-37 | rotating the 32-bit key by 8 bits per prefix octet, left or right by byte order, moves the key on by that many octets |
| Mask.XorOfWords | src/protocol/frame/mask.rs:38-40 | XOR of words is XOR of octets in memory order, in both byte orders |
| Buffers.WriteHeader | src/protocol/frame/codec/encode.rs:15-43 | appends exactly the encoded header |
| Buffers.Encode | src/protocol/frame/codec/encode.rs:49-61 | masking the tail of the buffer in place appends exactly the encoded frame and leaves earlier octets alone |
| Buffers.Format | src/protocol/frame/frame.rs:361-373 | formatting through a masked copy appends the same octets as the encoder |
| Buffers.FormatHeader | src/protocol/frame/frame.rs:94-124 | writes exactly the encoded header, the one the encoder writes |
| Buffers.FrameDecoder.Decode | src/protocol/frame/codec/decode.rs:41-98 | one call on the mutable buffer, with its remembered header and in-place unmasking, is one step of the decoding function |
| Sender.WireHoldsWhatWasSent | src/protocol/frame/codec.rs:120-164 | whatever is sent, flushed or reconfigured and however the stream behaves, until a write fails the wire followed by the buffer is the concatenation of the encodings of the accepted frames |
| Sender.WriteConservation | src/protocol/frame/codec.rs:120-164 | every sequence of calls keeps that |
| Sender.Retried | src/protocol/frame/codec.rs:120-136 | after a failed write the whole buffer is written again by the next flush, after a failed flush nothing is |
| Sender.BufferBound | src/protocol/frame/codec.rs:120-153 | after a successful send at most the limit plus that frame is buffered; after a successful flush nothing |
| Sender.SendIsNotEager | src/protocol/frame/codec.rs:145-153 | the frame just sent always stays buffered, and earlier octets are written exactly when they exceed the limit, whatever the limit |
| Sender.NotEagerAtZero | src/protocol/websocket.rs:35-36 | with a limit of 0 a frame sent on an empty buffer is not written |
| FrameCodec.FrameCodec.Flush | src/protocol/frame/codec.rs:120-136 | swapping the buffer out and back implements the specified flush: everything is written and the stream told to pass it on, or the one operation that failed is the outcome, and a failed write keeps the whole buffer |
| FrameCodec.FrameCodec.Send | src/protocol/frame/codec.rs:145-153 | sends as specified, keeps conservation, counts the frame as accepted exactly on success, and fails exactly when the stream did |
| FrameCodec.FrameCodec.Close | src/protocol/frame/codec.rs:160-164 | flushes, and the stream is shut down afterwards exactly when both that and the shutdown succeeded or it was before; an error is reported exactly when one of them failed on the stream |
| FrameCodec.FrameCodec.Next | src/protocol/frame/codec.rs:173-175 | the answer is the one decoding the buffer together with everything that arrived gives, in however many chunks it came; nothing is read while what is buffered is enough, a loss is one the stream had, and its end is met with nothing left to arrive |
| Coding.CodeSurvivesIffCanonical | src/protocol/frame/coding.rs:208-263 | a close code survives its conversion to a number and back exactly when it is canonical, and every code becomes canonical by it |
| Coding.CodeThatChanges | src/protocol/frame/coding.rs:208-263 | `Iana(1000)` arrives as `Normal` |
| Coding.OnTheWireIsStable | src/protocol/frame/coding.rs:208-263 | every 16-bit number survives its conversion to a close code and back |

## Left out

- TLS, connectors, stream wrappers and TCP: plumbing over libraries that are not part of this model.
- The HTTP handshake: header parsing and hashing lie in other libraries; what remains is comparisons.
- Async execution and cancellation: each awaited call is one step; a call cancelled half-way is not modelled.
- `FramedRead` of `monoio_codec` is not part of this model; `FrameCodec.FrameCodec.Next` replaces it by the plain loop that appends a chunk and decodes. A stream that ends inside a frame is reported as an I/O error there, which is a choice of the model.
- Random key generation: a key is any four octets.
- Capacities, `reserve` and allocation failure; `usize` has 64 bits, so the conversion from a 64-bit length is the identity.
- Dropping a socket: a stream ends only by the shutdown in `flush` and `close`, not by being dropped after `read` reported the end.
- Raw frames in runs: `Message::Frame` is modelled as a call but excluded from the run and two-party theorems, because it bypasses every check.
- `set_config` in the middle of a run: the method is modelled, the run theorems keep one configuration.
- Error texts, `Display`, `Debug`, `Hash`, `Ord` and the conversions between string and byte types.
- The alternative `Stream` and `Sink` front ends of `WebSocket`, which only rename results, and `send_with` and `next_with`.
