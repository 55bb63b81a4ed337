# A verified model of the simple_doip stack

This project models the connected parts of a DoIP (Diagnostics over IP, ISO 13400-2) stack and
proves what they promise to each other and to their users:

- **Wire format** (`Wire`, `Codes`, `Messages`, `RoundTrip`, `Encoder`, `Golden`): the 8-byte header,
  fourteen payload variants, their parsers, the encoders that write them field by field into a fixed
  buffer, and which values and which bytes survive a trip over the wire.
- **Framing and the stream codec** (`Framer`, `Codec`): delimiting frames in a growing buffer, and the
  decoder loop that skips frames of unsupported type and stops at the first it cannot trust.
- **The bare-metal entity** (`EntitySpec`, `BareMetal`, `EntityTrace`, `EntityRuns`,
  `EntityRefinement`, `EntityStream`, `EntityConservation`, `EntityCauses`): a server with a 2048-byte
  reassembly buffer compacted in place, a 1036-byte transmit buffer, one routing-activation slot and a
  UDS callback.
- **The client's request loop** (`ClientSpec`, `ClientInner`, `ClientRuns`, `ClientTheorems`,
  `ClientOutcomes`): a loop over deadline, control and socket events with at most one waiting request.
- **Both on one wire** (`Hearing`, `EndToEnd`, `Correlation`, `ClientPending`, `OneConnection`): what
  the client's callers learn from the entity's replies, and whose reply it is, over every interleaving
  of the two.

## How it is built

The imperative parts are classes and methods with the source's own fields and buffers
(`BareMetal.Entity`, `ClientInner.Inner`, `Codec.Decode`, `Encoder.SliceWriter`). Each method is
proved equal to a function on values, and the theorems are about those functions, over every input,
every chunking or every run.

Two monitors carry the run-level safety results. Each reads only what can be observed: the entity's
trace, in raw bytes, and the client's log. From that alone it knows which event may come next.
`EntityRuns.EveryRunIsLawful` and `ClientRuns.EveryScriptIsLawful` show that every reachable trace and
log is accepted; the consequences (dispatch safety, pairing of acks and calls, reply
accounting, exactly-once answers, deadlines) are read off the monitors.

Modelling choices:

- Bytes are integers from 0 to 255; `u16`, `u32` and `i32` are ranges; lengths are unbounded, with the
  `u32` limit of the header's length field explicit.
- The byte helpers of the foreign wire crate are modelled from their use: big-endian reads and fixed
  arrays fail with `Incomplete` when short, an optional four-byte tail is present exactly when four
  bytes are left, and a slice writer fills up and fails.
- The UDS callback is any function of everything that happened before, the request and the response
  buffer, leaving any buffer contents and returning any 32-bit value. The trace it may consult also
  marks every complete frame handed to the session. Results that compare two runs need the callback
  to answer alike in both (`EntityRefinement.Blind`): for datagram non-interference it must not look
  at the datagrams sent, for reassembly not at those and not at the verdicts handed back after each
  chunk. All others hold for any callback.
- The client's events carry the outcome of everything outside the loop: the time, whether a bind or a
  send works, whether the caller or the update channel is gone. A request's `id` stands for its reply
  channel; a recorded answer is an attempt to send into it.
- In the joined runs of client and entity (`OneConnection`) a connection is opened by a bind that works
  once the entity has dropped the last one, and ends with a disconnect, a start or a stop. The
  platform hands the entity no bytes after a verdict to close. The client hears the replies one by
  one; that its codec reads exactly those, however they are chunked, is `Correlation.RepliesAreRead`.
- Client requests enter the loop only in the five forms its builders create
  (src/client_inner.rs:51-83).

Results that differ from what one might expect:

- The law stated in tests/property.rs:220-244, that every identification body round-trips, fails for the
  two group ids that mean "not set"; `RoundTrip.IdentificationRoundTrip` gives the exact condition and
  `RoundTrip.SentinelGroupIdIsLost` the failing values.
- Cutting a stream into chunks is harmless exactly when every chunk finds room behind the bytes still
  waiting (`EntityStream.RefinementIsExact`); a chunk longer than the buffer is refused even when each
  of its frames would have been served (`EntityStream.LongChunkIsRefused`).
- An alive check request is answered but also fails a request waiting for a response
  (`ClientTheorems.AliveCheckFailsTheWait`); while an ack is awaited, every message that is not an
  ack is dropped, so a response that overtakes its ack is lost (`ClientTheorems.WaitEndsIff`).
- A receive waiting for a response takes every rejection for one, and reports it as a success:
  `ClientTheorems.RejectionArrivesAsSuccess` gives exactly the messages it takes. The comment in
  src/client_inner.rs:429-445 describes this for negative acks under type 0x8002 and expects that
  under 0x8003 the caller would see an error. It would not: `is_response` accepts 0x8003 as well
  (src/messages/mod.rs:90-115), and 0x8003 is what this stack's own entity sends for every refusal
  (`EndToEnd.ReceiveTakesRefusals`). A pending send is not told of such a refusal at all. It ends at
  its deadline or with the connection, which the entity closes exactly when the refused message does
  not come from the active tester (`EndToEnd.VerdictMeetsSend`, `EndToEnd.RefusalCloses`).
- The success of a send need not be about its own message. Acks carry no mark of what they acknowledge
  and the client keeps no count, so the late ack of a superseded send is reported as the success of
  its successor (`ClientPending.StaleAckIsSuccess`). Over one connection the ack that completes a send,
  and likewise the answer that completes an activation, is its own exactly when the replies of that
  kind received before it was armed are as many as the frames sent before its own have earned; else it
  belongs to an older frame, never to a younger one (`OneConnection.AnswerIsOwnIff`). A caller can see
  to this by sending only when everything asked for before has been answered
  (`OneConnection.AnsweredSoFarIsOwn`).
- An activation that gets no answer in time proceeds as if granted (src/client.rs:175-188), when the
  outer timeout fires before the loop's own deadline of the same length; otherwise it fails
  (`EndToEnd.VerdictMeetsActivation`).
- A verdict to close does not depend on the platform acting on it: the refused frame stays at the
  front of the buffer, so every later chunk is answered the same way and the diagnostic application is
  not called until a reset (`EntityConservation.ClosedUntilReset`). The exception is a chunk refused
  for lack of room: it alone is lost, and the rest of the run goes on as if it had never been sent
  (`EntityConservation.RefusedChunkIsLost`).

## Model

| member | source | states |
|---|---|---|
| Wire.ReadU16Splits | src/messages/alive_check_response.rs:25-33 | a big-endian read succeeds exactly when two bytes are there and splits the input into their printed form and the rest, else `Incomplete` |
| Wire.ReadU32Splits | src/messages/header.rs:242-257 | the same for four bytes |
| Wire.ReadOptional4 | src/messages/routing_activation_request.rs:112-125 | the optional tail is present exactly when four bytes remain; nothing is lost |
| Codes.VersionOf | src/messages/header.rs:48-72 | every version byte is remembered and yields a canonical value |
| Codes.VersionBack | src/messages/header.rs:48-72 | a version survives its byte exactly when it is canonical |
| Codes.ProtocolVersion.Inverse | src/messages/header.rs:32-46 | version byte and inverse are complements |
| Codes.PayloadTypeOf | src/messages/header.rs:125-172 | every 16-bit type is remembered and yields a canonical value |
| Codes.PayloadTypeBack | src/messages/header.rs:125-172 | a type survives its word exactly when it is canonical |
| Codes.NackCodeOf | src/messages/nack.rs:41-65 | every NACK byte is remembered |
| Codes.DiagnosticAckCodeOf | src/messages/diagnostic_message_ack.rs:45-89 | every ack byte is remembered; positive exactly for zero |
| Codes.NodeTypeOf | src/messages/entity_status_response.rs:20-37 | every node type byte is remembered |
| Codes.PowerModeOf | src/messages/power_mode_info_response.rs:20-39 | every power mode byte is remembered |
| Codes.ActivationTypeOf | src/messages/routing_activation_request.rs:30-52 | every activation type byte is remembered |
| Codes.ActivationCodeOf | src/messages/routing_activation_response.rs:53-89 | every activation response byte is remembered |
| Codes.FurtherActionOf | src/messages/vehicle_identification_response.rs:24-44 | every further-action byte is remembered |
| Codes.SyncStatusOf | src/messages/vehicle_identification_response.rs:59-78 | every sync status byte is remembered |
| Messages.DiagnosticBodyReprints | src/messages/diagnostic_message.rs:71-86 | accepts exactly four bytes or more, takes them all, and the body reprints to the whole input; else `Incomplete` |
| Messages.AckBodyReprints | src/messages/diagnostic_message_ack.rs:170-187 | accepts exactly five bytes or more, takes them all, and the body reprints to the whole input; else `Incomplete` |
| Messages.EntityStatusReprints | src/messages/entity_status_response.rs:62-77 | accepts exactly seven bytes or more and reprints to the input minus the rest; else `Incomplete` |
| Messages.ActivationRequestReprints | src/messages/routing_activation_request.rs:107-125 | accepts exactly seven bytes or more and reprints to the input minus the rest; the tail is there exactly from eleven bytes on; else `Incomplete` |
| Messages.ActivationResponseReprints | src/messages/routing_activation_response.rs:120-141 | accepts exactly nine bytes or more and reprints to the input minus the rest; the tail is there exactly from thirteen bytes on; else `Incomplete` |
| Messages.DecodeIdentification | src/messages/vehicle_identification_response.rs:106-139 | accepts exactly 33 bytes or more; every field is read from its own place, a sentinel group id as absent, and the rest is left; else `Incomplete` |
| Messages.EncodedSize | src/messages/payload.rs:251-283 | the closed-form size is the number of bytes printed, for every payload |
| Messages.PrintedByBytes | src/messages/mod.rs:299-332 | stated on the bytes: encoding fails exactly when the size exceeds the length field, with that size; otherwise version, complement, type and size stand in their places and the printed payload follows |
| RoundTrip.DecodedPayload | src/messages/payload.rs:201-245 | a parsed payload is of the variant its type announces, canonical, and no longer than its body |
| RoundTrip.DecodePayloadErrors | src/messages/payload.rs:201-245 | the only errors are a truncated body and an unsupported type, the latter exactly for the types without a decoder |
| RoundTrip.AcceptedBodies | src/messages/payload.rs:201-245 | what becomes of a body, by type number and length alone: unsupported, incomplete below that number's shortest length, else parsed |
| RoundTrip.PayloadBack | src/messages/payload.rs:201-321 | under its own type a printed payload parses to its canonical form |
| RoundTrip.DecodedPayloadBytes | src/messages/payload.rs:201-321 | reprinting a parsed body gives its own bytes unless an all-ones group id was folded away |
| RoundTrip.PayloadRoundTrip | src/messages/payload.rs:201-321 | a payload survives the wire under a type exactly when the type carries it and it is canonical |
| RoundTrip.IdentificationRoundTrip | src/messages/vehicle_identification_response.rs:106-165 | an identification body survives exactly when its codes are canonical and its group id is not a sentinel |
| RoundTrip.SentinelGroupIdIsLost | src/messages/vehicle_identification_response.rs:115-120 | both sentinel group ids come back as absent |
| RoundTrip.DecodedHeaderBytes | src/messages/header.rs:242-277 | an accepted header reprints byte for byte, is canonical and carries the right inverse |
| RoundTrip.MessageRoundTrip | src/messages/mod.rs:288-332 | a printed message, followed by anything, is read back as itself with its derived length exactly when it is canonical |
| RoundTrip.NormalForm | src/messages/mod.rs:288-332 | what was accepted can be printed in no more bytes, is accepted whole as the same payload, and printing again changes nothing |
| RoundTrip.ByteExact | src/messages/mod.rs:299-332 | the bytes survive exactly when the declared length is the payload's size and no all-ones group id was present |
| Golden.GoldenFixtures | tests/golden_vectors.rs:95-354 | every golden fixture of a header, a code or a body is what the model prints |
| Encoder.SliceWriter.WriteAll | src/bare_metal_entity.rs:290-293 | a slice writer writes all bytes or fills up and fails |
| Encoder.WriteHeader | src/messages/header.rs:271-277 | writes the printed header, or fails exactly when it does not fit |
| Encoder.WriteDiagnosticBody | src/messages/diagnostic_message.rs:104-110 | writes the printed body, or fails exactly when it does not fit |
| Encoder.WriteAckBody | src/messages/diagnostic_message_ack.rs:206-213 | the same for acks |
| Encoder.WriteEntityStatus | src/messages/entity_status_response.rs:91-97 | the same for entity status |
| Encoder.WriteActivationRequest | src/messages/routing_activation_request.rs:148-157 | the same for activation requests, with or without the tail |
| Encoder.WriteActivationResponse | src/messages/routing_activation_response.rs:160-169 | the same for activation responses, with or without the tail |
| Encoder.WriteIdentification | src/messages/vehicle_identification_response.rs:153-165 | the same for identification bodies; an absent group id is written as zeros |
| Encoder.WritePayload | src/messages/payload.rs:289-321 | writes the printed payload and reports its size, or fails exactly when it does not fit |
| Encoder.WriteMessage | src/messages/mod.rs:321-332 | writes the printed message, fails before writing when it has no wire form, or fails exactly when it does not fit |
| Encoder.EncodeInto | src/bare_metal_entity.rs:290-293 | the buffer's prefix is the printed message exactly when it has a wire form and fits |
| Encoder.EncodeFrame | src/message_codec.rs:74-81 | appends exactly the printed message, or leaves the buffer alone and reports why |
| Framer.FramingByBytes | src/framer.rs:47-66 | stated on the bytes: an error exactly when a header is there and its second byte is not the complement of the first; a frame exactly when they agree and the declared length is there; its payload and its header's printed form are the bytes in place |
| Framer.FramingIsStable | src/framer.rs:47-66 | a frame or an error found is unchanged by any appended bytes |
| Framer.PrefixNeedsMore | src/framer.rs:47-57 | every proper prefix of a frame asks for more |
| Framer.FrameStandsAlone | src/framer.rs:47-66 | the delimited bytes are one frame by themselves and reprint from header and payload |
| Framer.FusedDecodeAgrees | src/messages/mod.rs:288-293 | the fused decoder is framing followed by body parsing on every buffer; asking for more is `Incomplete` |
| Framer.CanonicalMessageFrames | src/messages/mod.rs:321-332 | a canonical message is printed as its own frame, whatever follows |
| Codec.Decode | src/message_codec.rs:42-69 | the loop returns and leaves exactly what `Codec.DecodeOnce` says, which is built on the policy of `Codec.PolicyByBytes` |
| Codec.PolicyByBytes | src/message_codec.rs:42-69 | by the bytes: a complement mismatch and a body too short for its type number are fatal, with these errors; a number without a decoder is skipped whole; everything else complete is delivered; the rest waits |
| Codec.DecodeOncePeels | src/message_codec.rs:42-69 | one call peels the first message off the whole-stream parse |
| Codec.FatalIsSticky | src/message_codec.rs:55-60 | a fatal error repeats and consumes nothing, whatever bytes arrive after it |
| Codec.ReadMessagesAreTyped | src/message_codec.rs:47-59 | every delivered message is of the variant its type announces, and canonical |
| Codec.ParseResumes | src/message_codec.rs:42-69 | parsing may stop anywhere and resume on the rest |
| Codec.ChunkedDecodeIsParse | src/message_codec.rs:42-69 | for every chunking, messages, leftover bytes and error are those of one parse of the whole stream |
| Codec.SegmentsDetermineParse | src/message_codec.rs:42-69 | any cut of a stream into consumable frames and a residue determines the parse |
| Codec.ParseSegments | src/message_codec.rs:42-69 | the bytes removed are exactly the delivered and the skipped frames |
| Codec.SentMessagesAreReceived | src/message_codec.rs:42-81 | printed canonical messages, however chunked, are read back as exactly those messages with nothing left |
| Codec.EncodingIsInjective | src/message_codec.rs:72-81 | two lists of canonical messages with the same bytes are the same list up to the derived header fields |
| BareMetal.Entity.constructor | src/bare_metal_entity.rs:139-152 | a new entity is uninitialised |
| BareMetal.Entity.Init | src/bare_metal_entity.rs:156-163 | adopts identity and callbacks and drops the session |
| BareMetal.Entity.Deinit | src/bare_metal_entity.rs:166-169 | stops serving and drops the session |
| BareMetal.Entity.OnUdpRx | src/bare_metal_entity.rs:173-210 | the new state is that of `EntitySpec.Apply` for a datagram |
| BareMetal.Entity.OnTcpRx | src/bare_metal_entity.rs:213-228 | the new state and the verdict are those of `EntitySpec.Apply` for a chunk |
| BareMetal.Entity.OnTcpDisconnect | src/bare_metal_entity.rs:231-234 | empties slot and buffer and nothing else |
| BareMetal.Entity.VehicleAnnouncementReply | src/bare_metal_entity.rs:236-254 | announces the configured identity |
| BareMetal.Entity.EntityStatusReply | src/bare_metal_entity.rs:256-267 | reports the one socket and the advertised size |
| BareMetal.Entity.SendUdpMsg | src/bare_metal_entity.rs:295-305 | sends exactly the staged bytes, or nothing when they do not fit |
| BareMetal.Entity.SendTcpMsg | src/bare_metal_entity.rs:307-311 | sends exactly the staged bytes, or nothing when they do not fit |
| BareMetal.Entity.SendTcpNack | src/bare_metal_entity.rs:313-317 | sends a generic NACK |
| BareMetal.Entity.SendDiagAck | src/bare_metal_entity.rs:319-334 | sends an ack body under the given type |
| BareMetal.Entity.HandleRoutingActivation | src/bare_metal_entity.rs:336-374 | slot, reply and verdict are those of `EntitySpec.HandleActivation` |
| BareMetal.Entity.DispatchUds | src/bare_metal_entity.rs:414-428 | one callback call, buffer updated, response of the reported length cut to the buffer |
| BareMetal.Entity.HandleDiagnosticMessage | src/bare_metal_entity.rs:376-429 | replies, dispatch and verdict are those of `EntitySpec.HandleDiagnostic` |
| BareMetal.Entity.HandleTcpFrame | src/bare_metal_entity.rs:431-442 | dispatch on the parsed payload as `EntitySpec.HandleFrame` |
| BareMetal.Entity.Compact | src/bare_metal_entity.rs:483-484 | the unread bytes move to the front unchanged |
| BareMetal.Entity.HeaderTooLarge | src/bare_metal_entity.rs:460-463 | true exactly when a valid header announces more than can be reassembled |
| BareMetal.Entity.DrainBuffer | src/bare_metal_entity.rs:457-486 | the in-place loop ends in the session, residue and verdict of the stream parser |
| BareMetal.Entity.HandleTcpBytes | src/bare_metal_entity.rs:444-486 | refuses a chunk that does not fit, else appends it and drains |
| EntityTrace.NackIsSent | src/bare_metal_entity.rs:313-317 | a NACK always goes out, as these nine bytes |
| EntityTrace.AckIsSent | src/bare_metal_entity.rs:319-334 | an ack always goes out, as these thirteen bytes, under any type and with any code |
| EntityTrace.ActivationIsSent | src/bare_metal_entity.rs:364-372 | an activation response always goes out, as these seventeen bytes |
| EntityTrace.DiagnosticIsSent | src/bare_metal_entity.rs:418-427 | a UDS response of up to 1024 bytes always goes out |
| EntityTrace.ResponseIsReported | src/bare_metal_entity.rs:418-424 | the part of the buffer that is sent is the reported length, at most 1024 bytes, none when not positive |
| EntityTrace.HandledActivation | src/bare_metal_entity.rs:336-374 | slot, reply bytes and verdict follow the decision table on the raw frame |
| EntityTrace.HandledDiagnostic | src/bare_metal_entity.rs:376-429 | reply bytes, dispatch and verdict follow the decision table on the raw frame |
| EntityTrace.HandledOther | src/bare_metal_entity.rs:431-442 | every other frame is answered with NACK 0x01 and the connection stays |
| EntityTrace.ProcessInStep | src/bare_metal_entity.rs:444-486 | handling any stream keeps the trace lawful and the slot equal to what the wire last granted |
| EntityRuns.EveryRunIsLawful | src/bare_metal_entity.rs:136-486 | every run from power-up is accepted by the byte-level monitor, which knows address and tester from the trace alone |
| EntityRuns.DispatchIsAuthorised | src/bare_metal_entity.rs:336-429 | every UDS call follows a start, a success response to a tester since the last reset, that tester's frame to this address with this request, and directly the positive ack |
| EntityRuns.AcksAndCallsPair | src/bare_metal_entity.rs:407-417 | positive acks and UDS calls are adjacent pairs, in both directions |
| EntityRuns.FramesAreAnswered | src/bare_metal_entity.rs:336-442 | every complete frame is answered at once by the table's bytes; accepted ones are dispatched and answered with the reported length of the buffer, at most 1024 bytes; refused ones close |
| EntityRuns.SendsAreAccountedFor | src/bare_metal_entity.rs:295-486 | every send is a reply, a UDS response, or a framing refusal followed by the verdict to close |
| EntityCauses.CloseHasOneCause | src/bare_metal_entity.rs:444-486 | a running entity closes only for the chunk that did not fit into 2048 bytes (NACK 0x03), or with the broken header (0x00), the header announcing more than 2040 bytes (0x02) or the refused frame at the front of the buffer that the refusal sent right before names |
| EntityCauses.RefusalExplains | src/bare_metal_entity.rs:457-486 | handling any stream to a close ends with the refusal that the bytes at its front call for |
| EntityCauses.CallsReachTheCallback | src/bare_metal_entity.rs:414-418 | every UDS call of every run is the callback of the last start, given the past, the request and the buffer as the last call left it |
| EntityCauses.ReportedBytesAreSent | src/bare_metal_entity.rs:418-427 | whenever the callback reports a length, the next send is the response to the acknowledged tester, byte by byte what the callback left, at most 1024 bytes |
| EntityCauses.StartIsAdopted | src/bare_metal_entity.rs:156-169 | an entity runs exactly between a start and a stop, under the whole identity and the callback of that start |
| EntityCauses.DatagramsAreAnswered | src/bare_metal_entity.rs:173-210 | over runs, a datagram is answered under the identity of the last start, back to its source, and not at all when stopped |
| EntityRuns.RepliesAreWellFormed | src/bare_metal_entity.rs:282-334 | everything sent on either socket is one whole frame of the deployed version that the parser accepts |
| EntityRuns.SlotIsATesterAddress | src/bare_metal_entity.rs:336-362 | in every reachable state the slot is empty or in the tester range, and empty when stopped |
| EntityRuns.SlotIsSticky | src/bare_metal_entity.rs:156-234 | no datagram and no stream chunk changes a taken slot |
| EntityRuns.SecondTesterIsDenied | src/bare_metal_entity.rs:336-374 | at any point of any run an activation from another address is denied, closes, and leaves the slot |
| EntityRuns.DatagramReplies | src/bare_metal_entity.rs:173-210 | every datagram to a running entity adds exactly one send, to the address and port it came from, of the answer its bytes call for, or nothing: nothing while incomplete, NACK 0x00 for a bad header, NACK 0x01 for an undecodable type number or a body too short for it, announcement or status bytes for the requests, silence for the rest |
| EntityRuns.AnnouncementIsSent | src/bare_metal_entity.rs:236-254 | the announcement's bytes: the configured identity as it stands |
| EntityRuns.AnnouncementIsHeard | src/bare_metal_entity.rs:236-254 | a tester reads the configured identity, with an all-zero or all-ones group id absent |
| EntityRuns.StatusIsReported | src/bare_metal_entity.rs:256-267 | the status report's bytes: one socket, open exactly when the slot is taken, 2040 bytes of payload |
| EntityRefinement.SameProcess | src/bare_metal_entity.rs:444-486 | sessions that differ only in events the callback does not look at do exactly the same things with the same bytes |
| EntityRefinement.ProcessResumes | src/bare_metal_entity.rs:457-486 | a stream may be handled in two goes |
| EntityRefinement.SettledLeavesRoom | src/bare_metal_entity.rs:450-469 | a residue is shorter than the buffer, so a one-byte chunk is never refused |
| EntityRefinement.ReassemblyRefines | src/bare_metal_entity.rs:444-486 | if every chunk finds room the bounded entity does what the unbounded whole-stream parser does |
| EntityRefinement.ReassemblyDecides | src/bare_metal_entity.rs:444-486 | for every callback, verdict, slot and unread bytes are those of the whole-stream parser |
| EntityRefinement.FeedIsARun | src/bare_metal_entity.rs:213-228 | feeding chunks is the run of those inputs up to the first answered by closing |
| EntityRefinement.ChunkingDoesNotMatter | src/bare_metal_entity.rs:444-486 | two such chunkings of the same bytes agree on everything |
| EntityStream.RefinementIsExact | src/bare_metal_entity.rs:450-453 | the two agree exactly when every chunk finds room |
| EntityStream.LongChunkIsRefused | src/bare_metal_entity.rs:450-453 | a chunk longer than the buffer breaks the agreement |
| EntityStream.ShortStreamsFit | src/bare_metal_entity.rs:450-455 | a stream no longer than the buffer fits however it is cut |
| EntityConservation.BytesAreConserved | src/bare_metal_entity.rs:450-485 | in every reachable state, unless the connection was given up since the last reset, the bytes received since then are the frames handled since then, in order, plus an incomplete residue |
| EntityConservation.OpenLeavesRoom | src/bare_metal_entity.rs:450-469 | in every such state one more byte fits |
| EntityConservation.RunsRefine | src/bare_metal_entity.rs:213-228 | from every such state, chunks that follow are served as by the unbounded parser exactly when they all fit |
| EntityConservation.StuckCloses | src/bare_metal_entity.rs:457-486 | an oversize header, a bad header or a refused frame at the front is met again by every later chunk, without a call |
| EntityConservation.ClosedUntilReset | src/bare_metal_entity.rs:213-234 | after a fitting chunk was answered by closing, every later chunk is, with no UDS call, whatever datagrams come, until a reset |
| EntityConservation.RefusedChunkIsLost | src/bare_metal_entity.rs:450-453 | a chunk refused for lack of room is lost: over any later inputs, configuration, slot, buffer and every verdict are as if it had never been sent |
| EntityStream.AdvertisedSizeCompletes | src/bare_metal_entity.rs:50-54 | any frame of up to the advertised payload size, of any type and with any body, completes however it is cut and is handled as that frame |
| EntityStream.DatagramsDoNotInterfere | src/bare_metal_entity.rs:173-228 | dropping all datagrams from a run changes no send, call, verdict or state of the connection, for every callback that does not look at the datagrams sent |
| EntityStream.TesterMessagesAreServed | src/bare_metal_entity.rs:431-486 | printed messages, concatenated and chunked, are handled one by one as those messages |
| EntityStream.RepliesReachTheClient | src/message_codec.rs:42-69 | whatever any run sends, however chunked, the codec delivers one message per send and nothing else |
| ClientInner.Inner.constructor | src/client_inner.rs:133-149 | the loop starts with nothing pending, buffered or bound |
| ClientInner.Inner.BindSocket | src/client_inner.rs:154-169 | a bind replaces the socket, or loses it when it fails |
| ClientInner.Inner.UnbindSocket | src/client_inner.rs:173-183 | an unbind drops the socket or reports that there was none |
| ClientInner.Inner.SendToSocket | src/client_inner.rs:189-195 | hands the message over or says why not |
| ClientInner.Inner.HandleControlMessage | src/client_inner.rs:218-316 | the new state is that of `ClientSpec.HandleControl` |
| ClientInner.Inner.TakeAwaitAck | src/client_inner.rs:323-331 | takes the request exactly when it awaits an ack, else leaves it untouched |
| ClientInner.Inner.TakeAwaitResponse | src/client_inner.rs:337-349 | takes the request exactly when it awaits a response, else leaves it untouched |
| ClientInner.Inner.SupersedeActiveRequest | src/client_inner.rs:356-391 | a pending request is told it was superseded and its deadline is cleared |
| ClientInner.Inner.ProcessReceivedMessage | src/client_inner.rs:394-492 | the new state and exit flag are those of `ClientSpec.ProcessMessage` |
| ClientInner.Inner.ProcessSocketError | src/client_inner.rs:493-512 | socket and deadline are dropped and a waiting request is told |
| ClientInner.Inner.DeadlineElapsed | src/client_inner.rs:537-553 | a waiting request is told it timed out; any other is put back |
| ClientInner.Inner.Turn | src/client_inner.rs:521-585 | one iteration of the loop |
| ClientInner.Inner.RunLoop | src/client_inner.rs:518-587 | the loop over any script of events it could see |
| ClientRuns.IterationKeepsStep | src/client_inner.rs:521-585 | every iteration keeps the log lawful and the stored request equal to what the log says is waiting |
| ClientRuns.EveryScriptIsLawful | src/client_inner.rs:518-587 | every run is accepted by the monitor; between iterations only a waiting request is pending |
| ClientTheorems.ExactlyOnceInOrder | src/client_inner.rs:218-587 | channels are answered once each, in order of acceptance, all but the last exactly when one is pending, which then awaits an ack or a response |
| ClientTheorems.AnswersHaveCauses | src/client_inner.rs:388-512 | every answer to a waiting request has the one cause it reports, after that very request was armed with its own timeout; timeouts are never early |
| ClientTheorems.ImmediateAnswers | src/client_inner.rs:218-316 | every other answer is given while its request is taken in and says how that went |
| ClientTheorems.PendingHasItsOwnDeadline | src/client_inner.rs:243-310 | a pending request always has the deadline set for itself; no stale one can fire |
| ClientTheorems.SuccessIsEarned | src/client_inner.rs:410-472 | a send succeeds only by a positive ack received while it was pending, an activation only by a message that answers it, a receive only by a counting message received while it was pending or by a diagnostic message received and kept before it, neither replaced nor asked for in between |
| ClientTheorems.BufferStory | src/client_inner.rs:473-480 | a kept message was received, kept at once, not replaced since, and asked for at most by the receive being taken in |
| ClientTheorems.CodecScriptsAreTyped | src/message_codec.rs:42-69 | messages that came out of the codec are of the variant their type announces |
| ClientTheorems.ActivationMismatchIsDead | src/client.rs:191-241 | with messages delivered by the codec a successful activation carries an activation response, so the mismatch branch is dead and only the two success codes proceed |
| ClientTheorems.ResponseTypes | src/messages/mod.rs:90-115 | which type answers which, stated on the type numbers |
| ClientTheorems.WaitEndsIff | src/client_inner.rs:394-492 | exactly which messages end which wait, and that all others change nothing |
| ClientTheorems.AliveCheckFailsTheWait | src/client_inner.rs:398-472 | an alive check request fails the request waiting for a response |
| ClientTheorems.RejectionArrivesAsSuccess | src/client_inner.rs:424-464 | a waiting receive is answered with success exactly by diagnostic messages and by rejections, under either ack type |
| ClientTheorems.BufferStep | src/client_inner.rs:284-295 | the response buffer changes only by a receive or by an unclaimed diagnostic message |
| ClientTheorems.BufferedResponseIsDelivered | src/client_inner.rs:284-295 | a kept response reaches the next receive across any errors, unbinds and rebinds unless replaced |
| ClientOutcomes.RequestsHaveOutcomes | src/client_inner.rs:218-391 | what every request leads to, by socket, kept response and the outcome of bind and send: the entries logged, the answer or the deadline, the socket after it |
| ClientOutcomes.PendingMessages | src/client_inner.rs:394-472 | how every message answers a pending send or a pending wait, with which error, and that all others leave it waiting |
| ClientOutcomes.UnclaimedMessages | src/client_inner.rs:473-490 | a message nobody waits for is kept, dropped or handed to the update channel, by its kind |
| ClientOutcomes.AliveChecksAreAnswered | src/client_inner.rs:398-409 | an alive check request is answered on every connection that can send, whatever is pending, with these ten bytes |
| ClientOutcomes.LoopEndsIff | src/client_inner.rs:447-585 | the loop ends exactly when the control channel closes, the caller of a completed wait is gone, or the update channel is |
| ClientOutcomes.ProceedsIff | src/client.rs:171-241 | the outer client proceeds exactly without an answer or with one of the two success codes, under its own port, and passes every error on |
| ClientOutcomes.ActivationRequestByBytes | src/client.rs:157-163 | the activation request, byte by byte |
| Hearing.NegativeAckIsHeard | src/messages/payload.rs:201-245 | a refusal is delivered as a bodyless negative ack; its code is lost |
| Hearing.VerdictIsHeard | src/bare_metal_entity.rs:376-429 | the client hears a positive ack exactly for a forwarded message, else a bodyless negative ack |
| EndToEnd.VerdictMeetsSend | src/client_inner.rs:394-512 | the verdict on any diagnostic frame, heard while any send is pending: forwarded, it completes the send; refused, the send waits on and ends at its deadline or with the socket |
| EndToEnd.RefusalCloses | src/bare_metal_entity.rs:376-404 | the verdict on a diagnostic frame closes the connection exactly when its source is not the active tester |
| EndToEnd.ReceiveTakesRefusals | src/client_inner.rs:424-464 | the verdict heard while a receive is pending: a refusal is taken for the response, a positive ack is passed over |
| EndToEnd.ResponseReachesTheCaller | src/bare_metal_entity.rs:407-428 | a response heard while a receive is pending hands the caller, byte by byte, what the callback left in its buffer up to the reported length, at most 1024 bytes |
| EndToEnd.ResponseWaitsForTheCaller | src/client_inner.rs:284-295 | a response heard while nothing is pending hands the same bytes to the next receive, across any spared script |
| EndToEnd.VerdictMeetsActivation | src/client.rs:157-241 | the answer to any activation request, heard while any activation is pending, completes it and lets the outer client proceed exactly when it grants the slot; without an answer it proceeds too |
| ClientPending.PendingIsTracked | src/client_inner.rs:218-316 | in every run a pending request was accepted, its message sent, and armed directly after; since then only messages that do not end its wait have passed |
| ClientPending.IterationTraffic | src/client_inner.rs:394-492 | an iteration receives exactly the message it was given and never takes back a sent frame |
| ClientPending.StaleAckIsSuccess | src/client_inner.rs:410-423 | a positive ack arriving after a send was superseded is reported as the success of the send that superseded it, for all messages |
| Correlation.SendKind | src/bare_metal_entity.rs:282-486 | every send is heard, is an ack exactly when it answers a forwarded frame and an activation answer exactly when it answers an activation request |
| Correlation.RepliesAreAttributed | src/bare_metal_entity.rs:336-442 | in every lawful trace the n-th reply of a kind belongs to the n-th frame that earns one |
| Correlation.CountingDecides | src/bare_metal_entity.rs:336-442 | a reply answers a given frame, not being younger than it, exactly when the counts before it agree |
| Correlation.RepliesAreRead | src/message_codec.rs:42-69 | however the first sends of a connection are chunked, the codec reads exactly the first replies from them |
| OneConnection.FramesAreUnique | src/framer.rs:47-66 | there is one way only to cut a stream into frames |
| OneConnection.EveryWorldIsLinked | src/client_inner.rs:518-587 | over every interleaving of client and entity: what was received is a prefix of what was replied, what was taken in is a prefix of what was sent |
| OneConnection.AnswerIsOwnIff | src/client_inner.rs:410-464 | the reply that ends a pending request answers a frame not younger than its own, and its own exactly when the replies received before it was armed match the frames before it that earned one |
| OneConnection.AnsweredSoFarIsOwn | src/client_inner.rs:410-464 | if every earlier frame that asked for such a reply had got it, the reply is the request's own and its own frame earned it |
| OneConnection.HearingAnswers | src/client_inner.rs:410-464 | hearing that reply answers the request: a send with success, an activation with the reply |

## Left out

- Sockets, channels and connectors (src/socket_manager.rs, src/connection.rs): they appear only as events and outcomes; capacity, backpressure and real time beyond deadline values are not modelled.
- The tokio server (src/server.rs): its accept loop and handlers are I/O and user callbacks.
- Borrowed and owned message types are one datatype here; the conversions between them are identities on sequences.
- Formatting, logging and the fields that are written but never read.
- The type stamped by the diagnostic ack constructor (src/messages/mod.rs:188-210): a documented open gap; no property depends on it.
- Return codes of the entity's send callbacks: the entity ignores them, so the trace records attempts.
- End-of-stream handling around the codec: it belongs to the foreign framing layer.
- The growable byte vector inside the codec's encoder is a slice of exactly the computed size; that it is filled exactly is proved.
- Integer overflow of buffer lengths on 32-bit targets: lengths are unbounded here.
- Encoder.WriteHeader: on failure the contents of the buffer are left open, as no caller reads them; the same holds for the other body encoders.
