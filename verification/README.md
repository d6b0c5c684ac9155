# Verification of the ruq MQTT v5 client

ruq is an MQTT v5 client. This project models its three stateful parts and proves what they are for:

- **Packet Identifiers** (`PktIds.dfy`, `RangeList.dfy`). The allocator keeps the free identifiers as
  an index-linked list of ranges in a vector of slots. The class `Allocator` works on the slots as the
  program does and is proved to carry out `Next` and `Insert` on the plain list of ranges, for every
  identifier given back, legal or not. Those two are proved to be "hand out the least free identifier"
  and "add exactly this one", with the exact conditions under which the 16-bit sums panic and under
  which giving an identifier back is sound.
- **The wire codec** (`Vbi.dfy`, `Fields.dfy`, `Properties.dfy`, `Publish.dfy`, `Puback.dfy`,
  `Packets.dfy`, `Codec.dfy`). Parsers return a value with the bytes they report as consumed, an error,
  or `Fault`, which is a panic. Round trips are stated with both directions: what reads back as itself,
  and what re-encodes to the bytes it came from, is characterised exactly. The incremental decoder gives
  the same result for every split of a stream into chunks. `Format.dfy` writes the packets out byte by
  byte, as in MQTT v5.0 and with the program's own deviations, without reference to encoders and parsers;
  the decoder is proved to accept exactly those frames and `Wire.dfy` proves the encoders write them.
  `Utf8.dfy` does the same for strings.
- **The event loop** (`EventLoop.dfy`, `Connection.dfy`). Ticks, incoming packets and commands arrive in any order. Over
  whole runs, the log of what was sent and received decides which identifiers are in use, what waits in
  the queue, and when the loop times out or panics. Bytes that arrive in any chunks, at any time between the
  other events, give the packets of the whole stream. Every command is answered by one packet that carries it
  out, and every way for a run to end has its exact condition.

Functions give the meaning of each operation; the methods beside them keep the program's loops, counters
and in-place updates and are proved to compute those functions. Strings are their bytes, under the
well-formedness rule of UTF-8. Sums and products that leave their machine type are modelled as panics.

## What the code does not meet

- Giving back an identifier that is free or above the maximum corrupts the free list
  (`RangeList.InsertExactly`, with a run that issues one identifier twice in
  `RangeList.ReturnedTwiceIsIssuedTwice`), or panics in the sum behind the last range: exactly when all
  65535 identifiers are managed and the one given back is not below the last free range
  (`RangeList.InsertOverflowExactly`), and on a list that is corrupted already, exactly when no range
  starts above it (`RangeList.InsertFull`). The event loop never checks. One stray SUBACK, UNSUBACK or
  PUBACK with any identifier panics a new loop (`EventLoops.StrayAckPanics`), and in general the ledger
  survives an acknowledgement exactly when that answers an outstanding request of its kind
  (`EventLoops.AckExactly`).
- The last identifier of a full allocator cannot be issued: the sum behind it panics
  (`RangeList.RunOverflow`, `EventLoops.RunPanicsExactly`), as it does on the 65535th of a row of
  unanswered SUBSCRIBEs (`EventLoops.LastSubscribePanics`). So "no identifier left" is never reported in
  any run of the event loop, whatever the server does (`EventLoops.NeverRefused`).
- A property list with a MessageExpiryInterval never reads back as itself, because the parser counts one
  byte too few (`Properties.ListRoundTrip`).
- A PUBACK with properties never reads back as itself (`Pubacks.RoundTrip`).
- A property list that is cut short in one of three ways panics instead of being refused, and exactly
  those do (`Properties.ListFaultExactly`, with witnesses in `Properties.ListFaults`); so does a fifth
  length byte of 16 or more (`Vbi.Outcomes`). `Packets.FrameFault` says which frames of each packet type
  panic their parser, and `Codec.CrashExactly` which buffers panic the decoder.
- A DISCONNECT is written without its reason, and is decoded as itself only with reason 0 and no
  properties (`Wires.GoodbyeReadsBack`).
- Packets whose length does not survive the cast to 32 bits can be written ambiguously
  (`Codec.LongFramesNotUnique`).
- An incoming PUBLISH above QoS 0 ends the loop in a panic: the PUBACK that is sent has no encoder, and
  the QoS 2 handshake is not implemented (`EventLoops.PanicExactly`).

## Model

| member | source | states |
|---|---|---|
| RangeList.NextRefines | src/pktids.rs:35-87 | a request issues the least free identifier and removes exactly it; it is refused only when none is free; it panics if and only if 65535 is the only one free, or none is free and the refusals so far have used up the numbers behind the maximum |
| RangeList.InsertExactly | src/pktids.rs:89-172 | giving an identifier back keeps the list sorted, disjoint and undrifted and adds exactly that identifier, through all of the cases, if and only if it is at most the maximum and not free |
| RangeList.InsertOverflowExactly | src/pktids.rs:189-198 | on a sorted list the sum behind a range panics if and only if the maximum is 65535 and the identifier given back is not below the last range; it is then free |
| RangeList.ReturnedTwiceIsIssuedTwice | src/pktids.rs:89-172 | a run of the allocator in which an identifier that was never taken is given back and then issued twice, the second time while it is held |
| RangeList.RangesAtMost | src/pktids.rs:18-33 | a valid list holds only identifiers up to the maximum and never more than the maximum plus one ranges |
| RangeList.RangesBound | src/pktids.rs:113-170 | there is at most one range more than there are free identifiers |
| RangeList.RunsPartition | src/pktids.rs:35-172 | in every legal sequence of calls, free and held identifiers partition 1..max after each call; an identifier is issued only when it is not held, and is then the least such; a refusal happens only when all are held |
| RangeList.RunOverflow | src/pktids.rs:54-69 | after any legal sequence of calls, the next request panics if and only if all but 65535 are held and either the maximum is 65535 or exactly 65534 - max requests were refused |
| RangeList.RunGivesBack | src/pktids.rs:89-172 | after any legal sequence of calls, giving back a held identifier never panics and keeps the partition |
| RangeList.NextFull | src/pktids.rs:35-87 | as long as the last range, and no other, ends at 65535, sorted or not: a request is never refused, panics if and only if only the range 65535 is left, and keeps the list so |
| RangeList.InsertFull | src/pktids.rs:89-203 | on such a list, giving back any identifier panics if and only if no range starts above it, and otherwise keeps the list so |
| RangeList.NextLastStart | src/pktids.rs:43-81 | a request moves the start of the last range up by one exactly when it issues that start, and leaves it otherwise |
| RangeList.InsertLastStart | src/pktids.rs:102-171 | giving a taken identifier back makes it the start of the last range exactly when it is just below that and the one before it is not free; otherwise the start stays |
| RangeList.TwoFreeIsSafe | src/pktids.rs:19-21 | with all 65535 identifiers and two of them free, a request is always granted and never with 65535 |
| PktIds.Allocator.WithMax | src/pktids.rs:23-33 | a new allocator is valid and its free identifiers are 1..max |
| PktIds.Allocator.constructor | src/pktids.rs:19-21 | a new default allocator is valid and its free identifiers are 1..65535 |
| PktIds.Allocator.NextId | src/pktids.rs:35-87 | on the linked slots: the chain stays acyclic and without leaked slots, the list of ranges changes as specified, the vector does not grow; on a valid allocator the least free identifier is granted and removed, refused only when none is free, and the panic has its exact condition |
| PktIds.Allocator.TakeFirst | src/pktids.rs:43-81 | the first range loses its first identifier or is unlinked, the tail slot stays the tail unless the call panics, and the refusal is counted |
| PktIds.Allocator.ReturnId | src/pktids.rs:89-172 | for every identifier the links stay well-formed and the ranges change as specified, or the sum behind a range panics, on a valid allocator exactly for an identifier at or above the last range of a full-sized one; one that was taken never panics, becomes free and nothing else does, and the vector stays within max + 2 slots with slot 1 as tail |
| PktIds.Allocator.Merge | src/pktids.rs:102-171 | the neighbour that is extended, or the new range between its neighbours, is the one the position of the identifier calls for; the vector grows only when every slot is in use |
| PktIds.Allocator.FindPlace | src/pktids.rs:91-100 | the walk stops at the first range that starts above the identifier, with its predecessor in the chain, and terminates |
| PktIds.Allocator.MaybeExtendNext | src/pktids.rs:174-187 | a range is extended down exactly when it starts one above the identifier; otherwise nothing changes |
| PktIds.Allocator.MaybeExtendPrev | src/pktids.rs:189-203 | a range is extended up exactly when it ends one below the identifier; it panics exactly when it ends at 65535 |
| PktIds.Allocator.VacantSlot | src/pktids.rs:113-122 | the slot found is the first vacant one behind slot 0; a slot is pushed only when all of them are on the chain |
| PktIds.Allocator.InsertNode | src/pktids.rs:123-169 | relinking a vacant slot puts the new range between its neighbours, or at the head, and leaves every other range and link |
| Vbi.RoundTrip | src/protocol/mod.rs:252-301 | bytes that begin with an encoded number decode to it and its length up to 268435455; a larger number takes five bytes and is refused |
| Vbi.Thresholds | src/protocol/mod.rs:252-270 | the encoding has the minimal length, by the thresholds of section 1.5.5 of MQTT v5.0 |
| Vbi.Sound | src/protocol/mod.rs:272-301 | every accepted input is within the limit and at most four bytes, so the later limit check never fires; it is the encoder's output exactly when it is as short |
| Vbi.Outcomes | src/protocol/mod.rs:272-301 | which inputs are accepted, want more bytes, panic or are refused, decided by the number of continuation bytes and the fifth byte |
| Vbi.Local | src/protocol/mod.rs:272-301 | an outcome other than wanting bytes does not change when bytes are appended |
| Vbi.EncodeLoop | src/protocol/mod.rs:252-270 | the digit loop computes the encoding |
| Vbi.DecodeLoop | src/protocol/mod.rs:272-301 | the multiplier loop computes the decoded number, error or panic, with the 32-bit sum checked at every digit |
| Fields.StringRoundTrip | src/protocol/mod.rs:350-394 | a string reads back, whatever follows it, if and only if its length fits 16 bits |
| Fields.BinaryRoundTrip | src/protocol/mod.rs:361-414 | binary data reads back, whatever follows it, if and only if its length fits 16 bits |
| Fields.PktIdRoundTrip | src/protocol/mod.rs:418-444 | an identifier reads back, whatever follows it |
| Fields.StringSound | src/protocol/mod.rs:371-394 | a parsed string stays within the input and re-encodes to the bytes it came from |
| Fields.BinarySound | src/protocol/mod.rs:396-414 | parsed binary data stays within the input and re-encodes to the bytes it came from |
| Texts.ValidExactly | src/protocol/mod.rs:371-394 | the bytes taken for strings are exactly the encodings of sequences of Unicode scalar values |
| Properties.Sound | src/protocol/properties.rs:57-93 | every parsed property reports between 2 bytes and all of them, fits its prefixes, and re-encodes to a prefix of the input, one byte longer than reported exactly for MessageExpiryInterval |
| Properties.RoundTrip | src/protocol/properties.rs:32-93 | a property that fits and is no MessageExpiryInterval reads back, whatever follows it |
| Properties.FaultExactly | src/protocol/properties.rs:57-93 | the two kinds of input that make the property parser panic, and no others |
| Properties.ParseAllSound | src/protocol/properties.rs:116-124 | a parsed window is as long as the encoding of its properties less one byte for every MessageExpiryInterval, is that encoding when there is none, and holds at most half as many properties as bytes |
| Properties.ListRoundTrip | src/protocol/properties.rs:95-127 | an encoded list reads back as itself, whatever follows it, if and only if it has no MessageExpiryInterval and every length fits; it then consumes exactly its encoding |
| Properties.ListReencode | src/protocol/properties.rs:95-127 | a parsed list re-encodes to the bytes it consumed if and only if it has no MessageExpiryInterval and its length was written minimally |
| Properties.ListFaultExactly | src/protocol/properties.rs:110-127 | a list panics its parser if and only if its length overflows, or runs past the input, or the parse of its window comes to an offset that holds a format indicator without its value or binary data longer than what is left |
| Properties.ListFaults | src/protocol/properties.rs:60-116 | one list that panics for each of the ways of being cut short |
| Properties.EncodeListLoop | src/protocol/properties.rs:95-108 | the buffer loop computes the encoded list with its length |
| Properties.ParseListLoop | src/protocol/properties.rs:110-127 | the parsing loop terminates, never slices past its window, and computes the parsed list, error or panic |
| Publishing.FlagsInverse | src/protocol/publish.rs:17-50 | the low four bits and the flags determine each other, and no other bit matters; which bits they are is in `Formats.FlagsExactly` |
| Publishing.RoundTrip | src/protocol/publish.rs:172-256 | an encoded PUBLISH reads back, whatever follows it, if and only if the identifier is there just above QoS 0, the payload is text just when a PayloadFormatId(1) is there, no MessageExpiryInterval is there, and every length fits; it then consumes exactly its encoding |
| Publishing.Sound | src/protocol/publish.rs:198-256 | a parsed PUBLISH consumes exactly its fixed header and announced length, has an identifier just above QoS 0, and text just with a PayloadFormatId(1) |
| Publishing.Reencode | src/protocol/publish.rs:172-256 | a parsed PUBLISH re-encodes to the bytes it consumed if and only if they carry type 3, both lengths are minimal, and no MessageExpiryInterval is there |
| Publishing.NotCut | src/protocol/publish.rs:190-193 | a packet whose length was cut to 32 bits never reads back as itself from the shorter frame |
| Publishing.ExactFault | src/protocol/publish.rs:208-245 | on bytes as long as they announce, the payload length never goes below zero: the parser panics exactly when it comes to a property list that is cut short |
| Publishing.EncodeInto | src/protocol/publish.rs:172-196 | the buffer-extending encoder computes the encoding, and panics on a missing identifier |
| Publishing.ParseCounting | src/protocol/publish.rs:198-256 | the parser with its running counters computes the parsed packet, error or panic |
| Publishing.ParseBodyCounting | src/protocol/publish.rs:217-254 | the counter of the variable header gives the payload its exact bytes |
| Pubacks.ReasonInverse | src/protocol/puback.rs:99-132 | reason codes and reasons determine each other |
| Pubacks.RoundTrip | src/protocol/puback.rs:26-84 | an encoded PUBACK reads back, whatever follows it, if and only if it has no properties |
| Pubacks.WalkLoop | src/protocol/puback.rs:163-201 | the property loop, skipping a byte behind every property, terminates and computes the walk |
| Pubacks.ParseBodyCounting | src/protocol/puback.rs:57-82 | the parser with its running counter computes the parsed body, error or panic, with defaults for a short body |
| Pubacks.EncodeInto | src/protocol/puback.rs:26-43 | the buffer-extending encoder computes the encoding |
| Pubacks.EncodeExtrasLoop | src/protocol/puback.rs:143-161 | the printer of properties writes one identifier for all user properties and no length |
| Packets.EncodeShape | src/protocol/mod.rs:106-122 | every packet a client writes is a first byte with a type above 0 and a length-prefixed body; the others panic; the bytes are in `Wires.WritesExactly` |
| Packets.SubscribeLayout | src/protocol/subscribe.rs:34-56 | read back field by field, a SUBSCRIBE holds its identifier, no properties and its options, with the QoS as 0, 1 or 2 in the low two bits, and its filter if and only if that fits its length prefix |
| Packets.UnsubscribeLayout | src/protocol/unsubscribe.rs:15-38 | read back field by field, an UNSUBSCRIBE holds its identifier and no properties, and its filters in order if and only if each fits its length prefix |
| Packets.ConnectLayout | src/protocol/connect.rs:23-52 | read back field by field, a CONNECT holds protocol, version, flags, keep-alive and no properties, and the client identifier if and only if that fits its length prefix |
| Codec.CutStable | src/mqtt_codec.rs:24-64 | a frame, error or panic found at the front of a buffer does not change when bytes are appended |
| Codec.SelfFraming | src/mqtt_codec.rs:40-52 | what the client writes for any packet is cut as exactly that frame, whatever follows it, if and only if the body is within 268435455 bytes |
| Codec.PubackFraming | src/protocol/puback.rs:26-43 | the same for what the PUBACK encoder writes |
| Codec.UniqueFrames | src/protocol/mod.rs:106-122 | two lists of packets that give the same bytes are the same packets' bytes one by one, for every body whose length survives the cast to 32 bits |
| Codec.LongFramesNotUnique | src/protocol/publish.rs:190-193 | beyond that cast two lists of different length give the same bytes |
| Codec.DecodeStable | src/mqtt_codec.rs:24-65 | a decoded packet, error or panic does not change when bytes are appended |
| Codec.DrainExtends | src/mqtt_codec.rs:24-65 | more bytes behind a buffer only continue what the buffer alone gives |
| Codec.ChunkingIndependence | src/mqtt_codec.rs:24-65 | any split of a byte stream into chunks gives the same packets, the same first error and the same bytes left over as feeding it whole |
| Codec.StreamInverse | src/mqtt_codec.rs:68-76 | for any list of PUBLISH packets, their encodings one after the other decode to the same list with nothing left over if and only if each is encodable |
| Codec.ChunkedStreamInverse | src/mqtt_codec.rs:20-76 | the same under any split of the bytes into chunks |
| Codec.ExactFrame | src/mqtt_codec.rs:48-55 | a PUBLISH parsed from a cut frame is as long as the frame, and the frame panics the parser exactly when its property list is cut short |
| Packets.FrameFault | src/protocol/mod.rs:22-59 | a frame as long as it announces panics its parser if and only if its type has no parser, or it is a CONNACK, SUBACK or UNSUBACK without its flags or reason or with a property list that is cut short, a PUBLISH or DISCONNECT with such a list, or a PUBACK whose property length overflows |
| Codec.CrashExactly | src/mqtt_codec.rs:24-65 | the decoder panics if and only if the length of the packet overflows or the complete frame at the front of the buffer is one of those |
| Codec.DecodedReliable | src/lib.rs:213-213 | a decoded PUBLISH above QoS 0 has an identifier, so unwrapping it is safe |
| Codec.DrainReliable | src/protocol/publish.rs:221-226 | every packet that comes out of any stream satisfies that too |
| Codec.DecodeFrom | src/mqtt_codec.rs:24-65 | the decoder takes a whole frame off the buffer on a packet or a parse error, and nothing otherwise |
| Codec.EncodeTo | src/mqtt_codec.rs:71-75 | the encoder appends exactly the packet's bytes, and nothing when it panics |
| Codec.DrainFrom | src/mqtt_codec.rs:24-65 | decoding until more bytes are wanted or an error gives the packets in order and leaves the rest |
| Codec.ReadChunks | src/mqtt_codec.rs:24-65 | reading chunk by chunk gives what the whole byte stream gives |
| Formats.LenExactly | src/protocol/mod.rs:272-301 | a length is accepted exactly when one of its first four bytes is below 128, and its value is the sum of seven bits from each byte, lowest first |
| Formats.PropExactly | src/protocol/properties.rs:57-93 | a property is parsed from exactly the bytes of its form, with identifiers 1, 2, 8, 9 and 38 and numbers high byte first; one byte of a MessageExpiryInterval is not counted |
| Formats.PropListExactly | src/protocol/properties.rs:110-127 | a list is parsed exactly when the properties, each looked for where the count of the one before says, fill the window that the length announces |
| Formats.FlagsExactly | src/protocol/publish.rs:31-50 | dup is bit 3, QoS is 0, 1 or 2 in bits 1 and 2, retain is bit 0; QoS 3 is refused |
| Formats.PublishExactly | src/protocol/publish.rs:198-256 | a framed PUBLISH is parsed as a packet exactly when its bytes are flags, topic, identifier above QoS 0, properties and payload of it, the payload being text just with a PayloadFormatId(1) |
| Formats.WalkExactly | src/protocol/puback.rs:163-201 | the property loop of a PUBACK accepts exactly windows of properties with one byte of any value between each two, and gives the last reason string and all the user properties in order |
| Formats.PubackBodyExactly | src/protocol/puback.rs:46-84 | a PUBACK body is parsed exactly when it is an identifier, or with one of the nine reason codes, or with properties behind that; a list that is empty or longer than the body counts as none |
| Formats.ConnackExactly | src/protocol/connack.rs:99-128 | a framed CONNACK is parsed exactly when it is flags 0 or 1, a known reason and properties |
| Formats.AckExactly | src/protocol/suback.rs:20-50 | a framed SUBACK or UNSUBACK is parsed exactly when it is an identifier, properties and a known reason |
| Formats.DisconnectExactly | src/protocol/disconnect.rs:158-192 | a framed DISCONNECT is parsed exactly when it is empty, which is reason 0, or a known reason, or that with properties from four bytes on |
| Formats.CutExactly | src/mqtt_codec.rs:24-55 | what the front of a buffer is: a frame of the announced length, malformed on type 0 or a length of five bytes, a panic when that overflows, and otherwise more bytes are wanted |
| Formats.DecodeExactly | src/mqtt_codec.rs:24-65 | for every buffer, packet and number of bytes, the decoder gives the packet for that many bytes if and only if they are the frame of the packet |
| Formats.DecodeFails | src/mqtt_codec.rs:33-64 | the decoder fails without taking bytes exactly on a malformed front, and takes a whole frame off exactly when that is the frame of no packet and does not panic its parser |
| Wires.FirstByteWritten | src/protocol/mod.rs:106-122 | the first byte is 0x10, 0x82, 0xA2, 0xC0 or 0xE0 by type, and for a PUBLISH type 3 with its flags |
| Wires.WritesExactly | src/protocol/mod.rs:106-122 | what is written for a packet is its frame, byte by byte, if and only if its body is within 268435455 bytes, every string within 65535, and no identifier is left out |
| Wires.PubackWritesExactly | src/protocol/puback.rs:26-43 | the PUBACK encoder writes 0x40, identifier, reason code, and properties without a length and with a single 0x26 for all user properties |
| Wires.AckDecodes | src/protocol/suback.rs:20-50 | any SUBACK or UNSUBACK with a known reason and properties that fit is decoded with its identifier, high byte first, its reason and its properties, whatever follows |
| Wires.ShortPubackDecodes | src/protocol/puback.rs:57-66 | the four bytes 0x40, 2 and an identifier are decoded as a success for it |
| Wires.PingRespDecodes | src/protocol/pingresp.rs:6-14 | 0xD0, 0 is a PINGRESP |
| Wires.EmptyDisconnectDecodes | src/protocol/disconnect.rs:171-172 | 0xE0, 0 is a DISCONNECT with reason 0 |
| Wires.ShortDisconnectDecodes | src/protocol/disconnect.rs:173-181 | a DISCONNECT of one byte has that reason |
| Wires.DisconnectDecodes | src/protocol/disconnect.rs:158-192 | any DISCONNECT with a known reason and properties that fit is decoded with both, whatever follows |
| Wires.GoodbyeReadsBack | src/protocol/disconnect.rs:142-156 | the DISCONNECT a client writes is decoded as itself if and only if it has reason 0 and no properties |
| EventLoops.StepKeepsLedger | src/lib.rs:164-289 | a step that does not panic keeps free, queued, subscribing, unsubscribing and QoS 2 identifiers a partition of 1..65535 and the queue equal to the unacknowledged messages |
| EventLoops.RunsKeepLedger | src/lib.rs:157-289 | the same for every run against a server that acknowledges only what is outstanding |
| EventLoops.AckExactly | src/lib.rs:192-208 | an acknowledgement keeps that ledger if and only if it answers an outstanding request of its kind |
| EventLoops.NeverRefused | src/lib.rs:253-268 | in every run that has not panicked, whatever the server did, 65535 is free, so the unimplemented refusal is never reached |
| EventLoops.RequestsAreFresh | src/lib.rs:238-278 | a request never carries an identifier that is in use, nor 65535 |
| EventLoops.RunsKeepFull | src/lib.rs:157-289 | in every run that has not panicked, whatever the server did, the last free range ends at 65535 and no other does |
| EventLoops.PanicExactly | src/lib.rs:174-287 | on such a state, a step panics if and only if an identifier is asked for with only the range 65535 left, or an acknowledgement, solicited or not, names an identifier that no free range starts above, or a PUBLISH above QoS 0 comes in, or the decoder panics |
| EventLoops.AnyRunPanicsExactly | src/lib.rs:157-289 | so after any run that has not ended, whatever the server did, the next event, whatever it is, panics under exactly those conditions |
| EventLoops.AckBehindIsUnsolicited | src/lib.rs:192-208 | with the ledger in order, an acknowledgement that panics answers no outstanding request |
| EventLoops.StrayAckPanics | src/lib.rs:192-208 | a new loop panics on any acknowledgement of any identifier |
| EventLoops.RunsKeepStart | src/lib.rs:164-289 | in every run against a faithful server, the start of the last free range is a function of the log |
| EventLoops.RunPanicsExactly | src/lib.rs:164-289 | after any run against a faithful server, the panic of the next event is read off the log: an identifier is asked for with all but 65535 in use, or an acknowledgement names an identifier from the start of the last free range on, or a PUBLISH above QoS 0 comes in, or the decoder panics |
| EventLoops.SubscribesTakeAll | src/lib.rs:265-271 | n unanswered SUBSCRIBEs, up to 65534, carry the identifiers 1 to n and leave n + 1 to 65535 free |
| EventLoops.LastSubscribePanics | src/lib.rs:265-271 | the 65535th of them panics though 65535 is free |
| EventLoops.QueueIsOpenMessages | src/lib.rs:200-251 | for every log, appending each QoS 1 message sent and dropping each acknowledged one gives the messages sent with no PUBACK for their identifier after them, in the order of sending |
| EventLoops.RunQueueIsOpen | src/lib.rs:157-289 | the queue of every run against a faithful server that does not panic is exactly those messages |
| EventLoops.KeepAlive | src/lib.rs:166-191 | in every run the flag says whether the last PINGREQ is unanswered, and between any two PINGREQs there is a PINGRESP |
| EventLoops.TimeoutExactly | src/lib.rs:166-169 | the loop times out if and only if a tick finds no PINGRESP since the last PINGREQ |
| EventLoops.EndsExactly | src/lib.rs:179-283 | after any run that has not ended, the next event ends it in order if and only if it is a DISCONNECT with reason 0, the end of the stream or a disconnect command; by a reason if and only if it is a DISCONNECT with that reason above 0; by a read failure if and only if it is a read error |
| EventLoops.StepAnswers | src/lib.rs:166-285 | a step that does not panic sends one packet for a command, which carries it out, a PINGREQ for a tick that does not time out, and nothing else |
| EventLoops.CommandsCarriedOut | src/lib.rs:238-285 | in every run that does not panic, whatever the server does, the packets sent, but for PINGREQs, are one for each command in the order of the commands, with the topic, payload, properties, QoS and retain of a publish command and no dup, the filter and maximum QoS of a subscribe command, or the filters of an unsubscribe command; a disconnect command sends a DISCONNECT |
| EventLoops.ReceivesInOrder | src/lib.rs:174-229 | in every run the log holds the packets that came in, in order |
| EventLoops.SentEncodes | src/lib.rs:164-289 | every packet a run gets to send has an encoding |
| EventLoops.EventLoop.Tick | src/lib.rs:166-173 | the tick handler carries out the specified step |
| EventLoops.EventLoop.Packet | src/lib.rs:178-226 | the packet handler carries out the specified step on allocator, queue and flag |
| EventLoops.EventLoop.RemoveAcked | src/lib.rs:200-205 | the first message with the identifier leaves the queue and the others keep their order |
| EventLoops.EventLoop.Command | src/lib.rs:238-285 | the command handler carries out the specified step on allocator and queue |
| EventLoops.EventLoop.Poll | src/lib.rs:157-289 | the loop over any sequence of events ends as the run does, in its state and with its log; against a faithful server the allocator stays valid, with slot 1 as tail and its slots bounded |
| Connections.ReadsExactly | src/lib.rs:174-237 | however the bytes are split, and whenever they arrive and are polled between other events, the packets that come in and the failure behind them are from the front of what the whole stream gives, and all of it if and only if the decoder has nothing more to give; the other events come as they happened |
| Connections.PublishesArrive | src/mqtt_codec.rs:20-76 | PUBLISH packets written one after the other all come out, in order and with nothing left over, under any such schedule that polls to the end, if and only if each is encodable |
| Connections.PollPanicsExactly | src/lib.rs:174-231 | after any run and whatever arrived, polling the decoder panics the loop if and only if the buffer makes the decoder panic, or begins with an acknowledgement that no free range starts above or a PUBLISH above QoS 0 |

## Left out

- Connecting, the CONNECT and CONNACK exchange before the loop, channels, `select!` fairness, timers,
  socket errors and notifications: events arrive in any order and sending succeeds.
- Builds without overflow checks, where the sums that panic here wrap around instead.
- The end of a byte stream inside a packet, which the framing library reports by itself.
- The QoS 2 handshake, which the program does not implement; its identifiers are only accounted for.
- Delivery of PUBACKs to the server: the program has no encoder arm for them.
- Encoders of CONNACK, SUBACK and UNSUBACK, which the program does not have; the names of their reason codes
  and of those of DISCONNECT, which are kept as checked numbers.
- The texts of errors, logging, `Debug` and `Display`.
- The client interface, which only sends commands to the loop.
