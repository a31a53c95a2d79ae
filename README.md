# memweb wire protocol, session and client helpers in Dafny

memweb lets a client read and write the memory of a process on another
machine. A service runs next to the target process. It accepts TCP
connections, and for each connection a `ClientSession` reads one request at
a time. It dispatches on the first byte of the request, performs the read or
write with `process_vm_readv` / `process_vm_writev`, and writes back a reply
packet, or the text `Error: <message>`.

Every packet is a struct that deku lays out:
- fields are big-endian;
- a one-byte `PacketType` tag comes first;
- fixed-width fields follow in declaration order;
- a variable part is a `u32` count followed by that many elements.

The regions and process-list replies travel LZ4-compressed.

This project models:

- **The packet codec of `shared/src/protocol/mod.rs`** (module `Protocol`). It has:
  - the six-variant `PacketType`;
  - the target-pid and get-processes requests;
  - the two compressed server replies.

  Two modules support it:
  - `Wire`: the big-endian layout of the integer fields.
  - `Records`: the nested `EncodedString`, `ProcessEntry` and `Region` records, and deku's count-prefixed vectors.
- **`read_primitives.rs` and `write_primitives.rs`** (modules `ReadPrimitives` and `WritePrimitives`): the three read requests, their replies, the write request and its reply.
- **The older single-file `shared/src/protocol.rs`** (module `LegacyProtocol`). It has four tags, numbered 0 to 3, and no compression. Its records have the same layout, so it reuses `Records`.
- **`shared/src/process.rs`** (module `Process`):
  - the flag-string fold `permissions_to_u32`, as a loop proved against a set-based reference mask;
  - the per-mapping `Region` construction of `get_regions`.
- **`src/parser.rs`** (module `Parser`): the prototype session's `valid_packet` and its in-place state update.
- **`service/src/memory.rs`** (module `Memory`): a `Memory` class whose methods run the guard chain of the source. The chain is:
  1. pid not set;
  2. size bound;
  3. system call failed;
  4. partial transfer.

  The system calls are oracles passed in as function parameters. Each method is proved equal to a specification function, and the properties are proved about that function.
- **`service/src/session.rs`** (module `Session`): a `ClientSession` class holding `state` and a `Memory`. Its `HandleMessage` is proved equal to the function `Handle`, which states the dispatch, the replies and the state change. The dispatch uses `PacketType::from_u8` as written.
- **`shared/src/helpers/tcpmem.rs`** (module `TcpMem`): the client side. Each call takes the reply bytes as input. Its result gives the request it sends and what it makes of the reply, including the width truncation of `read_unsigned` / `read_signed`.

A `parse` / `deserialize` that unwraps a failed decode panics. The model
returns `None` there (`Option`), or `Panicked` at the session and client
level (`Io.Outcome`).

## Model

| member | source | states |
|---|---|---|
| Wire.FromToBigEndian | shared/src/protocol/write_primitives.rs:5 | reading back the n big-endian bytes of any value below 256^n gives the value |
| Wire.ToFromBigEndian | shared/src/protocol/write_primitives.rs:5 | converse: writing the value of any byte string gives the same bytes |
| Wire.SignedRoundTrip | shared/src/protocol/read_primitives.rs:232-266 | a two's-complement truncation to 1, 2, 4 or 8 bytes followed by sign extension is the identity on the signed range |
| Wire.ReadBytes | shared/src/protocol/write_primitives.rs:10-11 | a count-prefixed byte vector reads exactly count bytes, fails iff fewer remain, and leaves the rest unread |
| Wire.LenAsU32 | shared/src/protocol/write_primitives.rs:33 | `len() as u32` equals the length whenever the length fits in 32 bits |
| Records.NewEncodedString | shared/src/protocol/mod.rs:85-92 | keeps the string's bytes, and its length field equals their number whenever that fits in u32 |
| Records.DecodeEncodeString | shared/src/protocol/mod.rs:54-60 | an EncodedString whose length matches its bytes decodes back from its encoding, whatever follows |
| Records.EncodeDecodeString | shared/src/protocol/mod.rs:54-60 | whatever decodes as an EncodedString is consistent and re-encodes to exactly the bytes consumed |
| Records.DecodeEncodeProcess | shared/src/protocol/mod.rs:36-41 | a process entry (name, pid) decodes back from its encoding |
| Records.DecodeEncodeRegion | shared/src/protocol/mod.rs:62-73 | a region decodes back from its encoding, with all eight fields and both strings |
| Records.DecodeList | shared/src/protocol/mod.rs:79-82 | a count-prefixed vector decodes exactly `count` elements |
| Records.DecodeEncodeList | shared/src/protocol/mod.rs:79-82 | if every element decodes back from its encoding, so does the back-to-back vector, leaving the rest unread |
| Records.DecodeEncodeRegions | shared/src/protocol/mod.rs:77-83 | a vector of consistent regions decodes back |
| Records.DecodeEncodeProcesses | shared/src/protocol/mod.rs:45-51 | a vector of consistent process entries decodes back |
| Protocol.FromTag | shared/src/protocol/mod.rs:14-21 | deku's tag decoding accepts exactly the bytes 0 to 5 and returns the variant with that discriminant |
| Protocol.FromTagInvertsTag | shared/src/protocol/mod.rs:14-21 | every variant's discriminant decodes back to the variant |
| Protocol.FromU8 | shared/src/protocol/mod.rs:100-109 | `from_u8` is Some exactly for the bytes 0 to 3 and never yields ReadU64 or ReadI64 |
| Protocol.FromU8DisagreesWithTag | shared/src/protocol/mod.rs:100-109 | `from_u8` inverts the discriminant only for Read: tags 1, 2 and 3 come back as Write, TargetPID and SendProcesses, and tags 4 and 5 come back as None |
| Protocol.DecodeType | shared/src/protocol/mod.rs:14-21 | the tag decodes iff there is a first byte and it is below 6, and decoding consumes that one byte |
| Protocol.DecodeEncodeType | shared/src/protocol/mod.rs:14-21 | a tag decodes back from its byte, whatever follows |
| Protocol.C2STargetPidPacket.Parse | shared/src/protocol/mod.rs:113-116 | parsing succeeds iff there are at least 5 bytes with a valid tag |
| Protocol.C2STargetPidPacket.OutBytes | shared/src/protocol/mod.rs:118-124 | 5 bytes: tag TargetPID, then the pid as big-endian i32 |
| Protocol.TargetPidRoundTrip | shared/src/protocol/mod.rs:181-193 | parsing `out_bytes(pid)` followed by any bytes gives tag TargetPID and the same pid |
| Protocol.C2SGetProcessesPacket.Parse | shared/src/protocol/mod.rs:129-132 | parsing succeeds iff the first byte is a valid tag |
| Protocol.C2SGetProcessesPacket.OutBytes | shared/src/protocol/mod.rs:134-139 | the single byte 5, which decodes as SendProcesses |
| Protocol.GetProcessesRoundTrip | shared/src/protocol/mod.rs:128-140 | parsing `out_bytes()` followed by any bytes gives SendProcesses |
| Protocol.S2CTargetPidRegionsPacket.FromBytes | shared/src/protocol/mod.rs:77-83 | a decoded regions packet has `count` equal to its number of regions |
| Protocol.S2CTargetPidRegionsPacket.Parse | shared/src/protocol/mod.rs:144-148 | parsing decompresses first, and whatever it returns has `count` equal to its number of regions |
| Protocol.S2CTargetPidRegionsPacket.Uncompressed | shared/src/protocol/mod.rs:149-154 | the packet `out_bytes` compresses has tag TargetPID, the given regions, and `count` equal to their number |
| Protocol.RegionsPacketDecodes | shared/src/protocol/mod.rs:75-83 | an uncompressed regions packet with consistent count and strings decodes back, leaving trailing bytes unread |
| Protocol.RegionsRoundTrip | shared/src/protocol/mod.rs:143-157 | if decompress undoes compress, `parse(out_bytes(regions))` returns tag TargetPID, count = number of regions, and the same regions |
| Protocol.S2CSendProcessesPacket.FromBytes | shared/src/protocol/mod.rs:43-51 | a decoded process-list packet has `count` equal to its number of entries |
| Protocol.S2CSendProcessesPacket.Parse | shared/src/protocol/mod.rs:161-165 | parsing decompresses first, and whatever it returns has `count` equal to its number of entries |
| Protocol.S2CSendProcessesPacket.Uncompressed | shared/src/protocol/mod.rs:167-172 | the packet `out_bytes` compresses has tag SendProcesses, the given entries, and `count` equal to their number |
| Protocol.ProcessesPacketDecodes | shared/src/protocol/mod.rs:43-51 | an uncompressed process-list packet with consistent count and names decodes back |
| Protocol.ProcessesRoundTrip | shared/src/protocol/mod.rs:160-175 | if decompress undoes compress, `parse(out_bytes(processes))` returns tag SendProcesses, the count and the same entries |
| ReadPrimitives.RequestReadVecMemoryPacket.Deserialize | shared/src/protocol/read_primitives.rs:54-57 | decoding succeeds iff there are at least 13 bytes with a valid tag |
| ReadPrimitives.RequestReadVecMemoryPacket.Serialize | shared/src/protocol/read_primitives.rs:59-66 | 13 bytes: tag Read, big-endian u64 address, big-endian u32 size |
| ReadPrimitives.ReadVecRequestRoundTrip | shared/src/protocol/read_primitives.rs:152-165 | deserializing `serialize(a, s)` followed by any bytes gives tag Read, address a and size s |
| ReadPrimitives.RequestReadU64MemoryPacket.Deserialize | shared/src/protocol/read_primitives.rs:70-73 | decoding succeeds iff there are at least 10 bytes with a valid tag |
| ReadPrimitives.RequestReadU64MemoryPacket.Serialize | shared/src/protocol/read_primitives.rs:75-82 | 10 bytes: tag ReadU64, big-endian u64 address, one size byte |
| ReadPrimitives.ReadU64RequestRoundTrip | shared/src/protocol/read_primitives.rs:184-197 | the unsigned read request round-trips address and size |
| ReadPrimitives.RequestReadI64MemoryPacket.Deserialize | shared/src/protocol/read_primitives.rs:86-89 | decoding succeeds iff there are at least 10 bytes with a valid tag |
| ReadPrimitives.RequestReadI64MemoryPacket.Serialize | shared/src/protocol/read_primitives.rs:91-98 | 10 bytes: tag ReadI64, big-endian u64 address, one size byte |
| ReadPrimitives.ReadI64RequestRoundTrip | shared/src/protocol/read_primitives.rs:217-230 | the signed read request round-trips address and size |
| ReadPrimitives.ReceiveReadVecPacketResponse.FromBytes | shared/src/protocol/read_primitives.rs:31-36 | a decoded vector reply has `count` equal to its number of bytes |
| ReadPrimitives.ReceiveReadVecPacketResponse.Deserialize | shared/src/protocol/read_primitives.rs:102-105 | whatever decodes has `count` equal to the length of `data` |
| ReadPrimitives.ReceiveReadVecPacketResponse.Serialize | shared/src/protocol/read_primitives.rs:107-114 | tag Read, `count = len as u32`, then the bytes: 5 + len bytes |
| ReadPrimitives.ReadVecResponseRoundTrip | shared/src/protocol/read_primitives.rs:167-182 | deserializing `serialize(d)` gives count and data unchanged |
| ReadPrimitives.ReceiveReadU64PacketResponse.Deserialize | shared/src/protocol/read_primitives.rs:118-121 | decoding succeeds iff there are at least 9 bytes with a valid tag |
| ReadPrimitives.ReceiveReadU64PacketResponse.Serialize | shared/src/protocol/read_primitives.rs:123-129 | 9 bytes: tag ReadU64 and the big-endian u64 |
| ReadPrimitives.ReadU64ResponseRoundTrip | shared/src/protocol/read_primitives.rs:199-215 | any u64 value round-trips |
| ReadPrimitives.ReceiveReadI64PacketResponse.Deserialize | shared/src/protocol/read_primitives.rs:134-137 | decoding succeeds iff there are at least 9 bytes with a valid tag |
| ReadPrimitives.ReceiveReadI64PacketResponse.Serialize | shared/src/protocol/read_primitives.rs:139-145 | 9 bytes: tag ReadI64 and the two's-complement big-endian i64 |
| ReadPrimitives.ReadI64ResponseRoundTrip | shared/src/protocol/read_primitives.rs:232-266 | any i64 value, negative ones included, round-trips |
| ReadPrimitives.ReadResponseExamples | shared/src/protocol/read_primitives.rs:199-266 | the test values -128, 127 and 0xFF come back unchanged |
| ReadPrimitives.RequestsAndRepliesShareTags | shared/src/protocol/read_primitives.rs:59-145 | each request and its reply start with the same tag: Read, ReadU64 or ReadI64 |
| WritePrimitives.C2SWriteMemoryPacket.FromBytes | shared/src/protocol/write_primitives.rs:6-12 | a decoded write request has `count` equal to its number of bytes |
| WritePrimitives.C2SWriteMemoryPacket.Parse | shared/src/protocol/write_primitives.rs:24-27 | parsing reads exactly `count` payload bytes, taken from offset 13, and ignores what follows |
| WritePrimitives.C2SWriteMemoryPacket.OutBytes | shared/src/protocol/write_primitives.rs:29-37 | tag Write, big-endian u64 address, big-endian u32 length, then the bytes: 13 + len bytes |
| WritePrimitives.WriteRequestRoundTrip | shared/src/protocol/write_primitives.rs:58-72 | parsing `out_bytes(a, b)` followed by any bytes gives address a, count len(b) and bytes b |
| WritePrimitives.S2CWriteMemoryPacketResponse.Parse | shared/src/protocol/write_primitives.rs:41-44 | decoding succeeds iff there are at least 9 bytes with a valid tag |
| WritePrimitives.S2CWriteMemoryPacketResponse.OutBytes | shared/src/protocol/write_primitives.rs:45-51 | 9 bytes: tag Write and the big-endian u64 byte count |
| WritePrimitives.WriteResponseRoundTrip | shared/src/protocol/write_primitives.rs:74-87 | `bytes_written` round-trips |
| LegacyProtocol.FromU8 | shared/src/protocol.rs:128-137 | Some exactly for 0 to 3, and the result's tag is the byte |
| LegacyProtocol.FromU8InvertsTag | shared/src/protocol.rs:11-16 | in the older protocol, `from_u8` and the explicit tags are inverse in both directions |
| LegacyProtocol.DecodeType | shared/src/protocol.rs:11-16 | the tag decodes iff the first byte is below 4, and decoding consumes one byte |
| LegacyProtocol.DecodeEncodeType | shared/src/protocol.rs:11-16 | a tag decodes back from its byte |
| LegacyProtocol.C2SReadMemoryPacket.Parse | shared/src/protocol.rs:156-159 | decoding succeeds iff there are at least 13 bytes with a valid tag |
| LegacyProtocol.C2SReadMemoryPacket.OutBytes | shared/src/protocol.rs:161-168 | 13 bytes: tag Read (0), u64 address, u32 size |
| LegacyProtocol.ReadRequestRoundTrip | shared/src/protocol.rs:267-280 | the read request round-trips address and size |
| LegacyProtocol.C2SWriteMemoryPacket.FromBytes | shared/src/protocol.rs:28-34 | a decoded write request has `count` equal to its number of bytes |
| LegacyProtocol.C2SWriteMemoryPacket.Parse | shared/src/protocol.rs:172-175 | parsing reads exactly `count` bytes from offset 13 |
| LegacyProtocol.C2SWriteMemoryPacket.OutBytes | shared/src/protocol.rs:177-185 | tag Write (1), address, `count = len`, bytes |
| LegacyProtocol.WriteRequestRoundTrip | shared/src/protocol.rs:282-296 | the write request round-trips, with count = len(bytes) |
| LegacyProtocol.C2STargetPidPacket.Parse | shared/src/protocol.rs:141-144 | decoding succeeds iff there are at least 5 bytes with a valid tag |
| LegacyProtocol.C2STargetPidPacket.OutBytes | shared/src/protocol.rs:146-152 | 5 bytes: tag TargetPID (2) and the big-endian i32 pid |
| LegacyProtocol.TargetPidRoundTrip | shared/src/protocol.rs:298-310 | the target-pid request round-trips |
| LegacyProtocol.C2SGetProcessesPacket.Parse | shared/src/protocol.rs:189-192 | decoding succeeds iff the first byte is a valid tag |
| LegacyProtocol.C2SGetProcessesPacket.OutBytes | shared/src/protocol.rs:194-199 | the single byte 3, which decodes as SendProcesses |
| LegacyProtocol.GetProcessesRoundTrip | shared/src/protocol.rs:188-199 | the get-processes request round-trips |
| LegacyProtocol.S2CReadMemoryPacketResponse.FromBytes | shared/src/protocol.rs:66-73 | a decoded read reply has `count` equal to its number of bytes |
| LegacyProtocol.S2CReadMemoryPacketResponse.Parse | shared/src/protocol.rs:203-206 | whatever parses has `count` equal to the length of `data` |
| LegacyProtocol.S2CReadMemoryPacketResponse.OutBytes | shared/src/protocol.rs:208-215 | tag Read, `count = len`, the bytes |
| LegacyProtocol.ReadResponseRoundTrip | shared/src/protocol.rs:312-327 | the read reply round-trips with count = len(data) |
| LegacyProtocol.S2CWriteMemoryPacketResponse.Parse | shared/src/protocol.rs:219-222 | decoding succeeds iff there are at least 9 bytes with a valid tag |
| LegacyProtocol.S2CWriteMemoryPacketResponse.OutBytes | shared/src/protocol.rs:223-229 | 9 bytes: tag Write and the u64 count |
| LegacyProtocol.WriteResponseRoundTrip | shared/src/protocol.rs:329-343 | `bytes_written` round-trips |
| LegacyProtocol.S2CTargetPidRegionsPacket.FromBytes | shared/src/protocol.rs:103-111 | a decoded regions packet has `count` equal to its number of regions |
| LegacyProtocol.S2CTargetPidRegionsPacket.Parse | shared/src/protocol.rs:233-236 | whatever parses has `count` equal to its number of regions |
| LegacyProtocol.S2CTargetPidRegionsPacket.OutBytes | shared/src/protocol.rs:237-244 | tag TargetPID, `count = len as u32`, the encoded regions, uncompressed |
| LegacyProtocol.RegionsRoundTrip | shared/src/protocol.rs:344-402 | consistent regions round-trip without compression, both EncodedString fields included |
| LegacyProtocol.S2CSendProcessesPacket.FromBytes | shared/src/protocol.rs:56-64 | a decoded process-list packet has `count` equal to its number of entries |
| LegacyProtocol.S2CSendProcessesPacket.Parse | shared/src/protocol.rs:248-251 | whatever parses has `count` equal to its number of entries |
| LegacyProtocol.S2CSendProcessesPacket.OutBytes | shared/src/protocol.rs:253-260 | tag SendProcesses, `count = len as u32`, the encoded entries |
| LegacyProtocol.ProcessesRoundTrip | shared/src/protocol.rs:403-437 | consistent process entries round-trip without compression |
| Process.Mask | shared/src/process.rs:26-46 | the mask is below 16, is 0 for the empty string, and has bits 0, 1, 2 and 3 set exactly when 'r', 'w', 'x' and 'p' occur |
| Process.MaskSnoc | shared/src/process.rs:35-44 | one more character adds exactly its own flag bit |
| Process.PermissionsToU32 | shared/src/process.rs:32-46 | the loop that ors in one flag per character returns the mask of the whole string |
| Process.MaskIgnoresOrder | shared/src/process.rs:35-44 | two strings with the same letters give the same mask, whatever the order or repetition |
| Process.MaskIgnoresOthers | shared/src/process.rs:42-43 | a character other than r, w, x, p leaves the mask unchanged |
| Process.ToRegion | shared/src/process.rs:9-18 | a region exists iff the mapping has a usable file name. Its start, size, offset and inode are the mapping's, `end = (start + size) mod 2^64`, its permissions are the mask (below 16), and the strings are consistent when they fit |
| Process.GetRegions | shared/src/process.rs:5-20 | exactly one region per mapping, in the same order; None (the unwrap panic) iff some mapping has no usable file name |
| Parser.ValidPacket | src/parser.rs:54-57 | a message is valid iff it has at least 10 bytes, the boundary the source's test checks; a valid message has a first byte |
| Parser.ValidPacketExamples | src/parser.rs:63-74 | lengths 9, 10 and 100 are invalid, valid and valid |
| Parser.NextStateChangesOnlyOnTargetPid | src/parser.rs:32-47 | the state changes only on a valid message whose first byte is 2, and such a message always moves it to TargetPID; a short message changes nothing |
| Parser.ClientSession.constructor | src/parser.rs:24-30 | a new session has target pid -1 and state NewBorn |
| Parser.ClientSession.MessageHandler | src/parser.rs:32-47 | the new state is the state transition of the message, and `target_pid` is unchanged |
| Memory.Classify | service/src/memory.rs:85-98 | a system call succeeds iff it returned neither -1 nor a count other than the size. -1 gives "Error n: description", and a short count gives the partial-transfer error |
| Memory.ReadScalarResult | service/src/memory.rs:58-99 | "PID not set!" when pid = -1; otherwise "Size is larger than ..." when size > 8; success iff the call transferred exactly `size` bytes, returning what it filled in |
| Memory.ReadVecResult | service/src/memory.rs:146-181 | "PID not set!" when pid = -1; success iff the call neither failed nor came up short, and a success has exactly `size` bytes |
| Memory.WriteResult | service/src/memory.rs:195-226 | "PID not set!" when pid = -1; success iff the call wrote the whole buffer, and a success returns the buffer's length |
| Memory.PidGuardPrecedesSyscall | service/src/memory.rs:58-226 | with no pid set, no system-call oracle can change the answer of any operation |
| Memory.SizeGuardPrecedesSyscall | service/src/memory.rs:60-72 | a size above 8 is refused before the call, and only after the pid check |
| Memory.FullReadReturnsCopiedBytes | service/src/memory.rs:154-179 | a successful vector read returns exactly the bytes the kernel copied |
| Memory.Memory.constructor | service/src/memory.rs:53-55 | `Memory::new(pid)` holds that pid |
| Memory.Memory.ReadU64 | service/src/memory.rs:57-99 | the guard chain computes `ReadScalarResult` with the u64 message |
| Memory.Memory.ReadI64 | service/src/memory.rs:101-143 | the guard chain computes `ReadScalarResult` with the i64 message |
| Memory.Memory.ReadVec | service/src/memory.rs:145-181 | the zeroed buffer and guard chain compute `ReadVecResult` |
| Memory.Memory.Write | service/src/memory.rs:194-226 | the guard chain computes `WriteResult` |
| Memory.Memory.FakeReadVec | service/src/memory.rs:183-192 | fails with "PID not set!" iff the pid is -1; with a pid set it always succeeds, with `size` bytes all equal to 1 |
| Memory.Memory.FakeWrite | service/src/memory.rs:228-235 | fails with "PID not set!" iff the pid is -1; with a pid set it always succeeds with the buffer's length |
| Session.ErrorResponse | service/src/session.rs:35-39 | the reply is "Error: " followed by the error's message, and its first byte is no valid tag |
| Session.Handle | service/src/session.rs:41-129 | An empty read is a BrokenPipe "Client disconnected" error with no reply and no change. An unknown first byte gives Ok with no reply and no change. The state and pid change only on a message `from_u8` calls TargetPID that parses, and then become TargetPID and the parsed pid |
| Session.Dispatch | service/src/session.rs:53-126 | once dispatched, `handle_message` returns Ok or panics, never an error; only the TargetPID branch changes state and pid |
| Session.Serve | service/src/session.rs:54-123 | the read, write and process-list arms leave state and pid unchanged, and answer or panic |
| Session.SelectTarget | service/src/session.rs:102-113 | a target-pid request that does not parse panics; one that parses selects its pid and state TargetPID, whether the region lookup succeeds, fails or panics. A failed lookup is answered with `ErrorResponse` of its error; otherwise the arm panics iff some mapping has no region, and else answers with the regions packet of the regions |
| Session.ClientSession.constructor | service/src/session.rs:27-33 | a new session is NewBorn, with a fresh memory whose pid is -1 |
| Session.ClientSession.SetTargetPid | service/src/session.rs:131-135 | sets the state to TargetPID and `memory.pid` to the pid |
| Session.ClientSession.HandleMessage | service/src/session.rs:41-129 | the new state, pid, outcome and reply are those of `Handle` |
| Session.ClientSession.DispatchOn | service/src/session.rs:53-126 | the match on the decoded first byte computes `Dispatch`; the pid is set before, and regardless of, the region lookup |
| Session.TargetPidRequestIgnored | service/src/session.rs:53-125 | the client's own target-pid request (tag 4) is ignored: no reply, and no change of state or pid |
| Session.ReadI64RequestRetargets | service/src/session.rs:102-105 | a signed read request (tag 2) switches the session to the pid spelled by the first four address bytes |
| Session.ReadU64RequestPanics | service/src/session.rs:90-91 | an unsigned read request (tag 1) is parsed as a write request and panics |
| Session.ReadVecRequestAnswered | service/src/session.rs:54-62 | with a pid set and a full read, a vector read request is answered with the read reply, and the client decodes the bytes read |
| Session.ServeReadVec | service/src/session.rs:54-64 | the vector-read arm panics iff the request does not decode |
| Session.ServeReadU64 | service/src/session.rs:66-76 | the unsigned-read arm panics iff the request does not decode |
| Session.ServeReadI64 | service/src/session.rs:78-88 | the signed-read arm panics iff the request does not decode |
| Session.ServeWrite | service/src/session.rs:90-100 | the write arm panics iff the request does not parse |
| Session.ServeWriteOk | service/src/session.rs:93-97 | a successful write is answered with the write reply carrying the request's byte count as a `u64`, unchanged |
| Session.ReadVecArmReplies | service/src/session.rs:35-64 | a decoded vector read leaves state and pid alone and returns Ok; a failed read is answered with "Error: " and its message, a successful one with a reply the client decodes to the request's size and the bytes read |
| Session.ReadU64ArmReplies | service/src/session.rs:66-76 | the same for the unsigned read: the error text, or a reply that decodes to tag ReadU64 and the value read |
| Session.ReadI64ArmReplies | service/src/session.rs:78-88 | the same for the signed read: the error text, or a reply that decodes to tag ReadI64 and the value read |
| Session.WriteArmReplies | service/src/session.rs:90-100 | a parsed write leaves state and pid alone and returns Ok; a failed write is answered with the error text, a successful one with a reply that parses to the number of bytes in the request |
| Session.SendProcessesArmReplies | service/src/session.rs:115-124 | the process-list arm leaves state and pid alone and returns Ok; a failed listing is answered with the error text; with a lossless compressor the client decodes the reply to the listed processes |
| Session.TargetArmReplies | service/src/session.rs:102-113 | when every mapping has a file name and the compressor is lossless, a target-pid request is answered with a reply the client decodes to one region per mapping |
| Session.PidNotSetAnsweredAsText | service/src/session.rs:54-64 | with no pid selected, a vector read request is answered with "Error: PID not set!" and nothing else changes |
| Session.ServeReadVecOfRequest | service/src/session.rs:54-62 | the vector-read arm answers a full read of the client's request with the read reply holding the copied bytes |
| TcpMem.ReadVec | shared/src/helpers/tcpmem.rs:52-60 | sends the vector read request; panics iff the received bytes do not decode, and otherwise returns exactly the decoded reply's `data` |
| TcpMem.ReadUnsigned | shared/src/helpers/tcpmem.rs:62-79 | sends the unsigned request with `size = width`; any width but 1, 2, 4 or 8 gives InvalidInput after the send; a value returned fits in the width and is the decoded reply's value truncated to `width` bytes |
| TcpMem.ReadSigned | shared/src/helpers/tcpmem.rs:81-98 | sends the signed request with `size = width`; any width but 1, 2, 4 or 8 gives InvalidInput; a value returned is in the signed range of the width and has the same low `width` bytes as the reply's value |
| TcpMem.ReadUnsignedOfReply | shared/src/helpers/tcpmem.rs:69-78 | on the server's reply, the result is the value modulo 256^width, or InvalidInput for an unsupported width |
| TcpMem.ReadSignedOfReply | shared/src/helpers/tcpmem.rs:88-97 | on the server's reply, every value comes back as the two's-complement reading of its low `width` bytes (`as i8`/`i16`/`i32`), or InvalidInput for an unsupported width |
| TcpMem.ReadSignedOfReplyInRange | shared/src/helpers/tcpmem.rs:88-97 | a value that fits the width comes back unchanged |
| TcpMem.ReadI8Wraps | shared/src/helpers/tcpmem.rs:120-123 | `read_i8` of a reply holding 200 returns -56 |
| Wire.TruncateAsSigned | shared/src/helpers/tcpmem.rs:91-95 | reading `width` bytes as signed and truncating back to `width` bytes gives the bytes back |
| Wire.TruncateTwice | shared/src/helpers/tcpmem.rs:91-95 | truncating to `width` bytes twice is truncating once |
| TcpMem.ErrorTextPanicsClient | shared/src/helpers/tcpmem.rs:62-98 | an "Error: ..." text reply makes the client's decode panic |
| TcpMem.ReadU8 | shared/src/helpers/tcpmem.rs:100-103 | width 1; the value is below 2^8 |
| TcpMem.ReadU16 | shared/src/helpers/tcpmem.rs:105-108 | width 2; the value is below 2^16 |
| TcpMem.ReadU32 | shared/src/helpers/tcpmem.rs:110-113 | width 4; the value is below 2^32 |
| TcpMem.ReadU64 | shared/src/helpers/tcpmem.rs:115-118 | width 8; the value is below 2^64 |
| TcpMem.ReadI8 | shared/src/helpers/tcpmem.rs:120-123 | width 1; the value is an i8 |
| TcpMem.ReadI16 | shared/src/helpers/tcpmem.rs:125-128 | width 2; the value is an i16 |
| TcpMem.ReadI32 | shared/src/helpers/tcpmem.rs:130-133 | width 4; the value is an i32 |
| TcpMem.ReadI64 | shared/src/helpers/tcpmem.rs:135-138 | width 8; the value is an i64 |
| TcpMem.ReadPtr | shared/src/helpers/tcpmem.rs:153-159 | None iff the u64 read is 0, otherwise Some of it; panics exactly when that read does |
| TcpMem.Write | shared/src/helpers/tcpmem.rs:162-169 | sends the write request and returns the `bytes_written` of the decoded reply |
| TcpMem.WriteOfReply | shared/src/helpers/tcpmem.rs:162-169 | on the server's write reply, the client returns the count the server sent |
| TcpMem.ReadVecOfReply | shared/src/helpers/tcpmem.rs:52-60 | a client that receives the server's whole vector reply returns the bytes the server read, for any length below 2^32 (the corrected receive of the Findings row) |
| TcpMem.ReadVecOfOneRead | shared/src/helpers/tcpmem.rs:8-60 | with `send_packet`'s single read into 1026 bytes, a reply of at most 1021 data bytes that arrives whole yields the bytes the server read |
| TcpMem.LongReadVecPanics | shared/src/helpers/tcpmem.rs:8-60 | with that single read, a reply of more than 1021 data bytes makes `read_vec` panic, whatever prefix of the reply the read delivers |
| TcpMem.ReadU64OfReply | shared/src/helpers/tcpmem.rs:115-118 | on the server's u64 reply, `read_u64` returns the value unchanged |
| TcpMem.ReadPtrOfReply | shared/src/helpers/tcpmem.rs:153-159 | on the server's reply, a null pointer gives None and any other value gives Some(value) |

## Left out

- Network and WebSocket plumbing:
  - `service/src/main.rs`;
  - the tungstenite socket of `src/parser.rs`;
  - `send_packet` in `tcpmem.rs`;
  - `shared/src/helpers/memweb.rs` and `websocket_client_tester.py`.

  A message is its bytes; a reply is a byte sequence.
- Session.Handle: I/O errors of the stream's `read` and `write_all` (the `?` after each await) are not modelled. A message is what one read returned, at most 1024 bytes.
- TcpMem.ReadVec: takes the bytes `send_packet` returned. Its single read into a 1026-byte buffer is modelled only as `TcpMem.OneRead` (a prefix of the reply, at most 1026 bytes), in `ReadVecOfOneRead` and `LongReadVecPanics`. The stream's I/O errors are not modelled.
- The system calls `process_vm_readv` / `process_vm_writev` (`service/src/memory.rs:6-46`) are oracles. The oracle gives the return value, `errno` with its text, and the buffer contents. The target's memory layout and byte order are not modelled.
- `src/memory.rs` (the prototype's system-call wrappers) is not modelled; it is foreign calls only.
- LZ4 (`shared/src/compression.rs`) is a pair of function parameters. The compressed round trips assume `decompress(compress(d)) == d` (`Protocol.Lossless`).
- The process tables are inputs:
  - `get_process_maps` is an oracle of the session's `Host`.
  - `get_running_processes` is the input `runningProcesses`. In the source (`shared/src/process.rs:22-24`) its body is `todo!()`, so every real SendProcesses request panics. The model treats its result as an input, so that both replies can be stated.
- Process.ToRegion: `start + size` wraps modulo 2^64, as in a release build. A debug build panics on that overflow instead.
- Process.ToRegion: `permissions_to_u32` returns a `u32` that the source stores into the `u8` field `permissions`. The model converts it. The value is always below 16 (`Process.Mask`).
- Records.NewEncodedString: the UTF-8 validation of `EncodedString::to_string` is not modelled; strings are byte sequences. A length of 2^32 or more wraps, as `as u32` does.
- `read_vec_f32` in `tcpmem.rs` (floating point) is not modelled, and neither is `wasm_lib/src/lib.rs`.
- The `unsafe` union reads of `tcpmem.rs` are modelled as the value of the width that was written.
- Names the source uses but does not define are mapped to the shown definitions:
  - `PacketType::ReadVec` is the tag-0 variant `Read`.
  - `RequestWriteVecMemoryPacket` and its response are `C2SWriteMemoryPacket` and `S2CWriteMemoryPacketResponse`.
- The `fake_read_write` build of `set_target_pid` differs only by a `println!`, so it is the same `SetTargetPid`. That build has no `read_u64` / `read_i64`, so the session is modelled on the real `Memory`. `FakeReadVec` and `FakeWrite` are modelled on their own.
- Session.Dispatch: the session dispatches with `from_u8` as written (see Findings). The packet decoders use deku's own tag decoding, `Protocol.FromTag`.
- The field writers and readers themselves (`ToBytes`, `FromBytes`) carry no contract of their own. They are specified through the round-trip lemmas beside them.

## Findings

| source | as written | input that shows it | evidently intended | confidence | as-written member | corrected member |
|---|---|---|---|---|---|---|
| shared/src/protocol/mod.rs:100-109 | `from_u8` numbers the variants 0 to 3 as the older four-tag enum did. deku writes the discriminants 0 to 5 of the six-variant enum. The service dispatches on `from_u8`: a TargetPID request (first byte 4) is ignored, a signed read (2) is taken for TargetPID, an unsigned read (1) for Write, and a write (3) for SendProcesses | `C2STargetPidPacket::out_bytes(1234)` = `[4, 0, 0, 4, 210]`: `from_u8(4)` is None, so the session never selects a pid, and every later read fails with "PID not set!" | `from_u8` as the inverse of the discriminants: 0 to 5 map to Read, ReadU64, ReadI64, Write, TargetPID and SendProcesses | not executed | Protocol.FromU8DisagreesWithTag | Protocol.FromTagInvertsTag |
| shared/src/helpers/tcpmem.rs:8-60 | `send_packet` reads the reply once into a 1026-byte buffer, and `read_vec` unwraps the decode of what arrived. A vector reply holds 5 header bytes, so more than 1021 data bytes never arrive whole | `read_vec(address, 2000)` against a server that reads all 2000 bytes: the reply's count field is 2000 but at most 1021 data bytes arrive, so `deserialize` fails and the client panics | the client reads the reply to its end (`5 + count` bytes), so any vector the server sends comes back | not executed | TcpMem.LongReadVecPanics | TcpMem.ReadVecOfReply |
