/** `service/src/session.rs`: one client connection of the service. The TCP
    stream becomes an input (the bytes one `read` returned) and an output
    (the bytes written back); the operating system and the process tables
    become a `Host` of oracles. */
module Session {
  import opened Wire
  import opened Io
  import opened Records
  import opened Protocol
  import opened ReadPrimitives
  import opened WritePrimitives
  import opened Process
  import opened Memory

  datatype ClientSessionState = NewBorn | Connected | ReceivedProcesses | TargetPID | Unknown

  /** What the session reaches through the operating system. */
  datatype Host = Host(
    readvVec: (i32, u64, seq<byte>) -> Syscall<seq<byte>>,
    readvU64: (i32, u64, u64) -> Syscall<u64>,
    readvI64: (i32, u64, u64) -> Syscall<i64>,
    writev: (i32, u64, seq<byte>) -> Syscall<()>,
    /** `get_process_maps(pid)`. */
    processMaps: i32 -> Result<seq<MapRange>>,
    /** `get_running_processes()`. */
    runningProcesses: Result<seq<ProcessEntry>>,
    compress: seq<byte> -> seq<byte>)

  /** The size of the buffer one message is read into. */
  const BUFFER_SIZE: nat := 1024

  /** `error_response`: the text "Error: " and the error's message, in place of a packet. */
  function ErrorResponse(err: IoError): (r: seq<byte>)
    ensures |r| == 7 + |err.message| && r[..7] == Ascii("Error: ") && r[7..] == err.message
    ensures |r| >= 1 && FromTag(r[0]).None?
  {
    Ascii("Error: ") + err.message
  }

  /** The state, the memory's pid, the outcome and the bytes written after
      one `handle_message`. */
  datatype Effect = Effect(state: ClientSessionState, pid: i32, outcome: Outcome<()>, reply: seq<byte>)

  /** A reply for a memory or process-table result: the packet on success,
      the error text otherwise. */
  function Reply<T>(r: Result<T>, packet: T -> seq<byte>): seq<byte>
  {
    match r
    case Ok(v) => packet(v)
    case Err(e) => ErrorResponse(e)
  }

  /** What `handle_message` does with `received`, dispatching on
      `PacketType::from_u8` of the first byte as the source does. */
  function Handle(state: ClientSessionState, pid: i32, received: seq<byte>, host: Host): (e: Effect)
    requires |received| <= BUFFER_SIZE
    ensures received == [] ==>
      e == Effect(state, pid, Returned(Err(IoError(BrokenPipe, Ascii("Client disconnected")))), [])
    ensures received != [] && FromU8(received[0]).None? ==> e == Effect(state, pid, Returned(Ok(())), [])
    ensures e.outcome.Returned? && e.outcome.result.Err? ==> received == []
    ensures (e.state, e.pid) != (state, pid) ==>
      received != [] && FromU8(received[0]) == Some(PacketType.TargetPID)
      && C2STargetPidPacket.Parse(received).Some?
      && e.state == ClientSessionState.TargetPID && e.pid == C2STargetPidPacket.Parse(received).value.targetPid
  {
    if received == [] then
      Effect(state, pid, Returned(Err(IoError(BrokenPipe, Ascii("Client disconnected")))), [])
    else
      Dispatch(FromU8(received[0]), state, pid, received, host)
  }

  function Dispatch(kind: Option<PacketType>, state: ClientSessionState, pid: i32, msg: seq<byte>, host: Host)
    : (e: Effect)
    requires |msg| <= BUFFER_SIZE
    ensures kind.None? ==> e == Effect(state, pid, Returned(Ok(())), [])
    ensures e.outcome.Returned? ==> e.outcome.result.Ok?
    ensures (e.state, e.pid) != (state, pid) ==>
      kind == Some(PacketType.TargetPID) && C2STargetPidPacket.Parse(msg).Some?
      && e.state == ClientSessionState.TargetPID && e.pid == C2STargetPidPacket.Parse(msg).value.targetPid
  {
    match kind
    case None => Effect(state, pid, Returned(Ok(())), [])
    case Some(TargetPID) => SelectTarget(state, pid, msg, host)
    case Some(k) => Serve(k, state, pid, msg, host)
  }

  /** The arms of the dispatch that leave the state and the pid alone. */
  function Serve(kind: PacketType, state: ClientSessionState, pid: i32, msg: seq<byte>, host: Host): (e: Effect)
    requires |msg| <= BUFFER_SIZE && kind != PacketType.TargetPID
    ensures e.state == state && e.pid == pid
    ensures e.outcome.Returned? ==> e.outcome.result.Ok?
  {
    var outcome :=
      match kind
      case Read => ServeReadVec(pid, msg, host)
      case ReadU64 => ServeReadU64(pid, msg, host)
      case ReadI64 => ServeReadI64(pid, msg, host)
      case Write => ServeWrite(pid, msg, host)
      case SendProcesses => Some(Reply(host.runningProcesses, (ps: seq<ProcessEntry>) => S2CSendProcessesPacket.OutBytes(ps, host.compress)))
      case TargetPID => None;
    match outcome
    case None => Effect(state, pid, Panicked, [])
    case Some(reply) => Effect(state, pid, Returned(Ok(())), reply)
  }

  /** The reply to a vector read, or None when the request does not decode. */
  function ServeReadVec(pid: i32, msg: seq<byte>, host: Host): (r: Option<seq<byte>>)
    ensures r.None? <==> RequestReadVecMemoryPacket.Deserialize(msg).None?
  {
    var p :- RequestReadVecMemoryPacket.Deserialize(msg);
    Some(Reply(ReadVecResult(pid, p.address, p.size, host.readvVec), ReceiveReadVecPacketResponse.Serialize))
  }

  /** The reply to an unsigned scalar read, or None when the request does not decode. */
  function ServeReadU64(pid: i32, msg: seq<byte>, host: Host): (r: Option<seq<byte>>)
    ensures r.None? <==> RequestReadU64MemoryPacket.Deserialize(msg).None?
  {
    var p :- RequestReadU64MemoryPacket.Deserialize(msg);
    var r := ReadScalarResult(pid, p.address, p.size, Ascii("Size is larger than u64!"), host.readvU64);
    Some(Reply(r, ReceiveReadU64PacketResponse.Serialize))
  }

  /** The reply to a signed scalar read, or None when the request does not decode. */
  function ServeReadI64(pid: i32, msg: seq<byte>, host: Host): (r: Option<seq<byte>>)
    ensures r.None? <==> RequestReadI64MemoryPacket.Deserialize(msg).None?
  {
    var p :- RequestReadI64MemoryPacket.Deserialize(msg);
    var r := ReadScalarResult(pid, p.address, p.size, Ascii("Size is larger than i64!"), host.readvI64);
    Some(Reply(r, ReceiveReadI64PacketResponse.Serialize))
  }

  /** The reply to a write, or None when the request does not decode. */
  function ServeWrite(pid: i32, msg: seq<byte>, host: Host): (r: Option<seq<byte>>)
    requires |msg| <= BUFFER_SIZE
    ensures r.None? <==> C2SWriteMemoryPacket.Parse(msg).None?
  {
    var p :- C2SWriteMemoryPacket.Parse(msg);
    var r := WriteResult(pid, p.address, p.bytes, host.writev);
    Some(Reply(r, (n: nat) => S2CWriteMemoryPacketResponse.OutBytes(n % 0x1_0000_0000_0000_0000)))
  }

  /** The TargetPID arm: the pid is set as soon as the request parses, before
      the process maps are looked up. */
  function SelectTarget(state: ClientSessionState, pid: i32, msg: seq<byte>, host: Host): (e: Effect)
    ensures C2STargetPidPacket.Parse(msg).None? ==> e == Effect(state, pid, Panicked, [])
    ensures C2STargetPidPacket.Parse(msg).Some? ==>
      e.state == ClientSessionState.TargetPID && e.pid == C2STargetPidPacket.Parse(msg).value.targetPid
    ensures e.outcome.Returned? ==> e.outcome.result.Ok?
    ensures C2STargetPidPacket.Parse(msg).Some? && host.processMaps(e.pid).Err? ==>
      e.outcome == Returned(Ok(())) && e.reply == ErrorResponse(host.processMaps(e.pid).error)
    ensures C2STargetPidPacket.Parse(msg).Some? && host.processMaps(e.pid).Ok? ==>
      (e.outcome.Panicked? <==> GetRegions(host.processMaps(e.pid).value).None?)
    ensures C2STargetPidPacket.Parse(msg).Some? && host.processMaps(e.pid).Ok? && e.outcome.Returned? ==>
      e.reply == S2CTargetPidRegionsPacket.OutBytes(GetRegions(host.processMaps(e.pid).value).value, host.compress)
  {
    match C2STargetPidPacket.Parse(msg)
    case None => Effect(state, pid, Panicked, [])
    case Some(p) =>
      match host.processMaps(p.targetPid)
      case Err(err) => Effect(ClientSessionState.TargetPID, p.targetPid, Returned(Ok(())), ErrorResponse(err))
      case Ok(maps) =>
        match GetRegions(maps)
        case None => Effect(ClientSessionState.TargetPID, p.targetPid, Panicked, [])
        case Some(regions) =>
          Effect(ClientSessionState.TargetPID, p.targetPid, Returned(Ok(())),
                 S2CTargetPidRegionsPacket.OutBytes(regions, host.compress))
  }

  class ClientSession {
    var state: ClientSessionState
    const memory: Memory

    /** `ClientSession::new`: NewBorn, with no pid selected. */
    constructor ()
      ensures state == NewBorn && memory.pid == -1 && fresh(memory)
    {
      state := NewBorn;
      memory := new Memory(-1);
    }

    /** `set_target_pid`: the only place `state` and `memory.pid` change. */
    method SetTargetPid(pid: i32)
      modifies this, memory
      ensures state == ClientSessionState.TargetPID && memory.pid == pid
    {
      state := ClientSessionState.TargetPID;
      memory.pid := pid;
    }

    /** `handle_message`: `received` is what one read into the 1024-byte
        buffer returned; `reply` is what was written back. */
    method HandleMessage(received: seq<byte>, host: Host) returns (outcome: Outcome<()>, reply: seq<byte>)
      requires |received| <= BUFFER_SIZE
      modifies this, memory
      ensures Effect(state, memory.pid, outcome, reply) == Handle(old(state), old(memory.pid), received, host)
    {
      if |received| == 0 {
        outcome := Returned(Err(IoError(BrokenPipe, Ascii("Client disconnected"))));
        reply := [];
        return;
      }
      var msg := received;
      outcome, reply := DispatchOn(FromU8(msg[0]), msg, host);
    }

    /** The `match` of `handle_message` on the decoded first byte. */
    method DispatchOn(kind: Option<PacketType>, msg: seq<byte>, host: Host) returns (outcome: Outcome<()>, reply: seq<byte>)
      requires |msg| <= BUFFER_SIZE
      modifies this, memory
      ensures Effect(state, memory.pid, outcome, reply) == Dispatch(kind, old(state), old(memory.pid), msg, host)
    {
      outcome, reply := Returned(Ok(())), [];
      match kind
      case None =>
      case Some(Read) =>
        var packet := RequestReadVecMemoryPacket.Deserialize(msg);
        if packet.None? {
          return Panicked, [];
        }
        var r := memory.ReadVec(packet.value.address, packet.value.size, host.readvVec);
        reply := Reply(r, ReceiveReadVecPacketResponse.Serialize);
      case Some(ReadU64) =>
        var packet := RequestReadU64MemoryPacket.Deserialize(msg);
        if packet.None? {
          return Panicked, [];
        }
        var r := memory.ReadU64(packet.value.address, packet.value.size, host.readvU64);
        reply := Reply(r, ReceiveReadU64PacketResponse.Serialize);
      case Some(ReadI64) =>
        var packet := RequestReadI64MemoryPacket.Deserialize(msg);
        if packet.None? {
          return Panicked, [];
        }
        var r := memory.ReadI64(packet.value.address, packet.value.size, host.readvI64);
        reply := Reply(r, ReceiveReadI64PacketResponse.Serialize);
      case Some(Write) =>
        var packet := C2SWriteMemoryPacket.Parse(msg);
        if packet.None? {
          return Panicked, [];
        }
        var r := memory.Write(packet.value.address, packet.value.bytes, host.writev);
        reply := Reply(r, (n: nat) => S2CWriteMemoryPacketResponse.OutBytes(n % 0x1_0000_0000_0000_0000));
      case Some(TargetPID) =>
        var packet := C2STargetPidPacket.Parse(msg);
        if packet.None? {
          return Panicked, [];
        }
        SetTargetPid(packet.value.targetPid);
        var maps := host.processMaps(packet.value.targetPid);
        if maps.Err? {
          reply := ErrorResponse(maps.error);
        } else {
          var regions := GetRegions(maps.value);
          if regions.None? {
            return Panicked, [];
          }
          reply := S2CTargetPidRegionsPacket.OutBytes(regions.value, host.compress);
        }
      case Some(SendProcesses) =>
        reply := Reply(host.runningProcesses,
                       (ps: seq<ProcessEntry>) => S2CSendProcessesPacket.OutBytes(ps, host.compress));
    }
  }

  // ---- what the as-written dispatch does to the client's own packets ----

  /** The client's target-pid request carries tag 4, which `from_u8` does
      not know: the session ignores it, replies nothing and keeps its pid. */
  lemma TargetPidRequestIgnored(state: ClientSessionState, pid: i32, targetPid: i32, host: Host)
    ensures Handle(state, pid, C2STargetPidPacket.OutBytes(targetPid), host)
         == Effect(state, pid, Returned(Ok(())), [])
  {
    FromU8DisagreesWithTag();
  }

  /** A signed read request (tag 2) is taken for a target-pid request: the
      session switches to the pid spelled by the first four address bytes. */
  lemma ReadI64RequestRetargets(state: ClientSessionState, pid: i32, address: u64, size: byte, host: Host)
    ensures Handle(state, pid, RequestReadI64MemoryPacket.Serialize(address, size), host).state == ClientSessionState.TargetPID
    ensures Handle(state, pid, RequestReadI64MemoryPacket.Serialize(address, size), host).pid
         == AsSigned(4, FromBigEndian(U64Bytes(address)[..4]))
  {
    var msg := RequestReadI64MemoryPacket.Serialize(address, size);
    FromU8DisagreesWithTag();
    Pow256Widths();
    assert msg[1..][..4] == U64Bytes(address)[..4];
  }

  /** An unsigned read request (tag 1) is taken for a write request; its 10
      bytes are too short for one, so the decode panics. */
  lemma ReadU64RequestPanics(state: ClientSessionState, pid: i32, address: u64, size: byte, host: Host)
    ensures Handle(state, pid, RequestReadU64MemoryPacket.Serialize(address, size), host).outcome == Panicked
  {
    FromU8DisagreesWithTag();
  }

  /** A vector read through a session whose pid is set: the reply is the
      server's read response, and the client decodes the bytes read. */
  lemma ReadVecRequestAnswered(
    state: ClientSessionState, pid: i32, address: u64, size: u32, host: Host)
    requires pid != -1
    requires host.readvVec(pid, address, Zeroes(size)).ret == size
    requires |host.readvVec(pid, address, Zeroes(size)).filled| == size
    ensures Handle(state, pid, RequestReadVecMemoryPacket.Serialize(address, size), host)
         == Effect(state, pid, Returned(Ok(())),
                   ReceiveReadVecPacketResponse.Serialize(host.readvVec(pid, address, Zeroes(size)).filled))
    ensures ReceiveReadVecPacketResponse.Deserialize(
              Handle(state, pid, RequestReadVecMemoryPacket.Serialize(address, size), host).reply)
         == Some(ReceiveReadVecPacketResponse(Read, size, host.readvVec(pid, address, Zeroes(size)).filled))
  {
    var msg := RequestReadVecMemoryPacket.Serialize(address, size);
    var data := host.readvVec(pid, address, Zeroes(size)).filled;
    ServeReadVecOfRequest(pid, address, size, host);
    assert FromU8(msg[0]) == Some(Read);
    assert Handle(state, pid, msg, host) == Serve(Read, state, pid, msg, host);
    ReadVecResponseRoundTrip(data, []);
    assert ReceiveReadVecPacketResponse.Serialize(data) + [] == ReceiveReadVecPacketResponse.Serialize(data);
  }

  /** The vector-read arm on the client's request, when the read is full. */
  lemma ServeReadVecOfRequest(pid: i32, address: u64, size: u32, host: Host)
    requires pid != -1
    requires host.readvVec(pid, address, Zeroes(size)).ret == size
    requires |host.readvVec(pid, address, Zeroes(size)).filled| == size
    ensures ServeReadVec(pid, RequestReadVecMemoryPacket.Serialize(address, size), host)
         == Some(ReceiveReadVecPacketResponse.Serialize(host.readvVec(pid, address, Zeroes(size)).filled))
  {
    var msg := RequestReadVecMemoryPacket.Serialize(address, size);
    ReadVecRequestRoundTrip(address, size, []);
    assert msg + [] == msg;
    FullReadReturnsCopiedBytes(pid, address, size, host.readvVec);
  }

  // ---- what each arm writes back ----

  /** A vector read that decodes is answered, whatever the memory did: with
      the error text when the read failed, and otherwise with a reply the
      client decodes to the bytes read. */
  lemma ReadVecArmReplies(state: ClientSessionState, pid: i32, msg: seq<byte>, host: Host)
    requires |msg| <= BUFFER_SIZE && RequestReadVecMemoryPacket.Deserialize(msg).Some?
    ensures var p := RequestReadVecMemoryPacket.Deserialize(msg).value;
      var r := ReadVecResult(pid, p.address, p.size, host.readvVec);
      var e := Dispatch(Some(Read), state, pid, msg, host);
      && e.state == state && e.pid == pid && e.outcome == Returned(Ok(()))
      && (r.Err? ==> e.reply == ErrorResponse(r.error))
      && (r.Ok? ==> ReceiveReadVecPacketResponse.Deserialize(e.reply)
                    == Some(ReceiveReadVecPacketResponse(Read, p.size, r.value)))
  {
    var p := RequestReadVecMemoryPacket.Deserialize(msg).value;
    var r := ReadVecResult(pid, p.address, p.size, host.readvVec);
    if r.Ok? {
      ReadVecResponseRoundTrip(r.value, []);
      assert ReceiveReadVecPacketResponse.Serialize(r.value) + [] == ReceiveReadVecPacketResponse.Serialize(r.value);
    }
  }

  /** The same for the unsigned scalar read: the error text, or a reply that
      decodes to the value read. */
  lemma ReadU64ArmReplies(state: ClientSessionState, pid: i32, msg: seq<byte>, host: Host)
    requires |msg| <= BUFFER_SIZE && RequestReadU64MemoryPacket.Deserialize(msg).Some?
    ensures var p := RequestReadU64MemoryPacket.Deserialize(msg).value;
      var r := ReadScalarResult(pid, p.address, p.size, Ascii("Size is larger than u64!"), host.readvU64);
      var e := Dispatch(Some(ReadU64), state, pid, msg, host);
      && e.state == state && e.pid == pid && e.outcome == Returned(Ok(()))
      && (r.Err? ==> e.reply == ErrorResponse(r.error))
      && (r.Ok? ==> ReceiveReadU64PacketResponse.Deserialize(e.reply)
                    == Some(ReceiveReadU64PacketResponse(ReadU64, r.value)))
  {
    var p := RequestReadU64MemoryPacket.Deserialize(msg).value;
    var r := ReadScalarResult(pid, p.address, p.size, Ascii("Size is larger than u64!"), host.readvU64);
    if r.Ok? {
      ReadU64ResponseRoundTrip(r.value, []);
      assert ReceiveReadU64PacketResponse.Serialize(r.value) + [] == ReceiveReadU64PacketResponse.Serialize(r.value);
    }
  }

  /** The same for the signed scalar read. */
  lemma ReadI64ArmReplies(state: ClientSessionState, pid: i32, msg: seq<byte>, host: Host)
    requires |msg| <= BUFFER_SIZE && RequestReadI64MemoryPacket.Deserialize(msg).Some?
    ensures var p := RequestReadI64MemoryPacket.Deserialize(msg).value;
      var r := ReadScalarResult(pid, p.address, p.size, Ascii("Size is larger than i64!"), host.readvI64);
      var e := Dispatch(Some(ReadI64), state, pid, msg, host);
      && e.state == state && e.pid == pid && e.outcome == Returned(Ok(()))
      && (r.Err? ==> e.reply == ErrorResponse(r.error))
      && (r.Ok? ==> ReceiveReadI64PacketResponse.Deserialize(e.reply)
                    == Some(ReceiveReadI64PacketResponse(ReadI64, r.value)))
  {
    var p := RequestReadI64MemoryPacket.Deserialize(msg).value;
    var r := ReadScalarResult(pid, p.address, p.size, Ascii("Size is larger than i64!"), host.readvI64);
    if r.Ok? {
      ReadI64ResponseRoundTrip(r.value, []);
      assert ReceiveReadI64PacketResponse.Serialize(r.value) + [] == ReceiveReadI64PacketResponse.Serialize(r.value);
    }
  }

  /** A write that decodes is answered with the error text, or with a write
      reply whose `bytes_written` is the number of bytes in the request. */
  lemma WriteArmReplies(state: ClientSessionState, pid: i32, msg: seq<byte>, host: Host)
    requires |msg| <= BUFFER_SIZE && C2SWriteMemoryPacket.Parse(msg).Some?
    ensures var p := C2SWriteMemoryPacket.Parse(msg).value;
      var r := WriteResult(pid, p.address, p.bytes, host.writev);
      var e := Dispatch(Some(Write), state, pid, msg, host);
      && e.state == state && e.pid == pid && e.outcome == Returned(Ok(()))
      && (r.Err? ==> e.reply == ErrorResponse(r.error))
      && (r.Ok? ==> S2CWriteMemoryPacketResponse.Parse(e.reply)
                    == Some(S2CWriteMemoryPacketResponse(Write, |p.bytes|)))
  {
    var p := C2SWriteMemoryPacket.Parse(msg).value;
    var r := WriteResult(pid, p.address, p.bytes, host.writev);
    if r.Ok? {
      ServeWriteOk(pid, msg, host);
      var reply := S2CWriteMemoryPacketResponse.OutBytes(|p.bytes|);
      WriteResponseRoundTrip(|p.bytes|, []);
      assert reply + [] == reply;
    }
  }

  /** A successful write's reply carries the request's byte count unchanged:
      it always fits the u64 field. */
  lemma ServeWriteOk(pid: i32, msg: seq<byte>, host: Host)
    requires |msg| <= BUFFER_SIZE && C2SWriteMemoryPacket.Parse(msg).Some?
    requires var p := C2SWriteMemoryPacket.Parse(msg).value;
      WriteResult(pid, p.address, p.bytes, host.writev).Ok?
    ensures ServeWrite(pid, msg, host)
         == Some(S2CWriteMemoryPacketResponse.OutBytes(|C2SWriteMemoryPacket.Parse(msg).value.bytes|))
  {
    var p := C2SWriteMemoryPacket.Parse(msg).value;
    var n := |p.bytes|;
    assert WriteResult(pid, p.address, p.bytes, host.writev) == Ok(n);
    assert n % 0x1_0000_0000_0000_0000 == n;
  }

  /** The process list is answered with the error text, or, when the
      compressor is lossless, with a reply the client decodes to the list. */
  lemma SendProcessesArmReplies(
    state: ClientSessionState, pid: i32, msg: seq<byte>, host: Host, decompress: seq<byte> -> seq<byte>)
    requires |msg| <= BUFFER_SIZE
    ensures var e := Dispatch(Some(SendProcesses), state, pid, msg, host);
      && e.state == state && e.pid == pid && e.outcome == Returned(Ok(()))
      && (host.runningProcesses.Err? ==> e.reply == ErrorResponse(host.runningProcesses.error))
    ensures host.runningProcesses.Ok? ==>
      var e := Dispatch(Some(SendProcesses), state, pid, msg, host);
      var ps := host.runningProcesses.value;
      Lossless(host.compress, decompress)
      && |ps| < 0x1_0000_0000 && (forall i :: 0 <= i < |ps| ==> ValidProcess(ps[i])) ==>
      S2CSendProcessesPacket.Parse(e.reply, decompress) == Some(S2CSendProcessesPacket(SendProcesses, |ps|, ps))
  {
    if host.runningProcesses.Ok? {
      var ps := host.runningProcesses.value;
      if Lossless(host.compress, decompress) && |ps| < 0x1_0000_0000
         && (forall i :: 0 <= i < |ps| ==> ValidProcess(ps[i])) {
        ProcessesRoundTrip(ps, host.compress, decompress);
      }
    }
  }

  /** A target-pid request whose maps all carry file names that fit is
      answered, when the compressor is lossless, with a reply the client
      decodes to one region per mapping. */
  lemma TargetArmReplies(
    state: ClientSessionState, pid: i32, msg: seq<byte>, host: Host, decompress: seq<byte> -> seq<byte>)
    requires C2STargetPidPacket.Parse(msg).Some?
    requires host.processMaps(C2STargetPidPacket.Parse(msg).value.targetPid).Ok?
    requires Lossless(host.compress, decompress)
    requires var maps := host.processMaps(C2STargetPidPacket.Parse(msg).value.targetPid).value;
      && |maps| < 0x1_0000_0000
      && forall i :: 0 <= i < |maps| ==>
           maps[i].filename.Some? && |maps[i].dev| < 0x1_0000_0000 && |maps[i].filename.value| < 0x1_0000_0000
    ensures var maps := host.processMaps(C2STargetPidPacket.Parse(msg).value.targetPid).value;
      var e := SelectTarget(state, pid, msg, host);
      && e.outcome == Returned(Ok(()))
      && S2CTargetPidRegionsPacket.Parse(e.reply, decompress)
         == Some(S2CTargetPidRegionsPacket(PacketType.TargetPID, |maps|, GetRegions(maps).value))
  {
    var maps := host.processMaps(C2STargetPidPacket.Parse(msg).value.targetPid).value;
    var regions := GetRegions(maps).value;
    forall i | 0 <= i < |regions|
      ensures ValidRegion(regions[i])
    {
      assert Some(regions[i]) == ToRegion(maps[i]);
    }
    RegionsRoundTrip(regions, host.compress, decompress);
  }

  /** With no pid selected, a vector read request is answered with the text
      "Error: PID not set!". */
  lemma PidNotSetAnsweredAsText(state: ClientSessionState, address: u64, size: u32, host: Host)
    ensures Handle(state, -1, RequestReadVecMemoryPacket.Serialize(address, size), host)
         == Effect(state, -1, Returned(Ok(())), ErrorResponse(PidNotSet()))
  {
    var msg := RequestReadVecMemoryPacket.Serialize(address, size);
    ReadVecRequestRoundTrip(address, size, []);
    assert msg + [] == msg;
  }
}
