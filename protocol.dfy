/** The packet module `shared/src/protocol/mod.rs`: the six-variant packet
    type, the target-pid and process-list requests, and the two server
    replies that travel LZ4-compressed. */
module Protocol {
  import opened Wire
  import opened Records

  /** The leading tag byte. deku stores the enum discriminant:
      Read = 0, then 1, 2, 3, 4, 5 in declaration order. */
  datatype PacketType = Read | ReadU64 | ReadI64 | Write | TargetPID | SendProcesses

  function Tag(t: PacketType): byte
  {
    match t
    case Read => 0
    case ReadU64 => 1
    case ReadI64 => 2
    case Write => 3
    case TargetPID => 4
    case SendProcesses => 5
  }

  /** deku's derived decoding of the tag: a discriminant back to its variant;
      any other byte is a decode error. */
  function FromTag(b: byte): (r: Option<PacketType>)
    ensures r.Some? <==> b < 6
    ensures r.Some? ==> Tag(r.value) == b
  {
    match b
    case 0 => Some(Read)
    case 1 => Some(ReadU64)
    case 2 => Some(ReadI64)
    case 3 => Some(Write)
    case 4 => Some(TargetPID)
    case 5 => Some(SendProcesses)
    case _ => None
  }

  lemma FromTagInvertsTag(t: PacketType)
    ensures FromTag(Tag(t)) == Some(t)
  {
  }

  /** `PacketType::from_u8` exactly as written: it numbers the variants 0..3
      as the older four-variant enum did. */
  function FromU8(value: byte): (r: Option<PacketType>)
    ensures r.Some? <==> value < 4
    ensures r != Some(ReadU64) && r != Some(ReadI64)
  {
    match value
    case 0 => Some(Read)
    case 1 => Some(Write)
    case 2 => Some(TargetPID)
    case 3 => Some(SendProcesses)
    case _ => None
  }

  /** `from_u8` is not the inverse of the tags this module writes: four of
      the six tags come back as a different variant or not at all. */
  lemma FromU8DisagreesWithTag()
    ensures FromU8(Tag(ReadU64)) == Some(Write)
    ensures FromU8(Tag(ReadI64)) == Some(TargetPID)
    ensures FromU8(Tag(Write)) == Some(SendProcesses)
    ensures FromU8(Tag(TargetPID)) == None
    ensures FromU8(Tag(SendProcesses)) == None
    ensures forall t :: FromU8(Tag(t)) == Some(t) <==> t == Read
  {
  }

  function EncodeType(t: PacketType): seq<byte>
  {
    [Tag(t)]
  }

  function DecodeType(s: seq<byte>): (r: Option<(PacketType, seq<byte>)>)
    ensures r.Some? <==> |s| >= 1 && s[0] < 6
    ensures r.Some? ==> r.value.1 == s[1..]
  {
    var b :- ReadU8(s);
    var t :- FromTag(b.0);
    Some((t, b.1))
  }

  lemma DecodeEncodeType(t: PacketType, rest: seq<byte>)
    ensures DecodeType(EncodeType(t) + rest) == Some((t, rest))
  {
    assert (EncodeType(t) + rest)[1..] == rest;
  }

  /** The compressor and decompressor are inverse: the one assumption the
      compressed round trips rest on (LZ4 itself is not part of this model). */
  ghost predicate Lossless(compress: seq<byte> -> seq<byte>, decompress: seq<byte> -> seq<byte>)
  {
    forall d :: decompress(compress(d)) == d
  }

  /** Client to server: select the process to inspect. */
  datatype C2STargetPidPacket = C2STargetPidPacket(kind: PacketType, targetPid: i32)
  {
    function ToBytes(): seq<byte>
    {
      EncodeType(kind) + I32Bytes(targetPid)
    }

    static function FromBytes(s: seq<byte>): Option<(C2STargetPidPacket, seq<byte>)>
    {
      var t :- DecodeType(s);
      var pid :- ReadI32(t.1);
      Some((C2STargetPidPacket(t.0, pid.0), pid.1))
    }

    /** `parse`: decode from the start of `data`, drop what follows. */
    static function Parse(data: seq<byte>): (r: Option<C2STargetPidPacket>)
      ensures r.Some? <==> |data| >= 5 && data[0] < 6
    {
      var p :- FromBytes(data);
      Some(p.0)
    }

    static function OutBytes(targetPid: i32): (r: seq<byte>)
      ensures |r| == 5 && r[0] == Tag(TargetPID)
      ensures r[1..] == I32Bytes(targetPid)
    {
      C2STargetPidPacket(TargetPID, targetPid).ToBytes()
    }
  }

  lemma TargetPidRoundTrip(targetPid: i32, trailing: seq<byte>)
    ensures C2STargetPidPacket.Parse(C2STargetPidPacket.OutBytes(targetPid) + trailing)
         == Some(C2STargetPidPacket(TargetPID, targetPid))
  {
    assert C2STargetPidPacket.OutBytes(targetPid) + trailing
        == EncodeType(TargetPID) + (I32Bytes(targetPid) + trailing);
    DecodeEncodeType(TargetPID, I32Bytes(targetPid) + trailing);
    ReadI32Of(targetPid, trailing);
  }

  /** Client to server: ask for the process list. Only the tag byte. */
  datatype C2SGetProcessesPacket = C2SGetProcessesPacket(kind: PacketType)
  {
    function ToBytes(): seq<byte>
    {
      EncodeType(kind)
    }

    static function FromBytes(s: seq<byte>): Option<(C2SGetProcessesPacket, seq<byte>)>
    {
      var t :- DecodeType(s);
      Some((C2SGetProcessesPacket(t.0), t.1))
    }

    static function Parse(data: seq<byte>): (r: Option<C2SGetProcessesPacket>)
      ensures r.Some? <==> |data| >= 1 && data[0] < 6
    {
      var p :- FromBytes(data);
      Some(p.0)
    }

    static function OutBytes(): (r: seq<byte>)
      ensures r == [5] && FromTag(r[0]) == Some(SendProcesses)
    {
      C2SGetProcessesPacket(SendProcesses).ToBytes()
    }
  }

  lemma GetProcessesRoundTrip(trailing: seq<byte>)
    ensures C2SGetProcessesPacket.Parse(C2SGetProcessesPacket.OutBytes() + trailing)
         == Some(C2SGetProcessesPacket(SendProcesses))
  {
    DecodeEncodeType(SendProcesses, trailing);
  }

  /** Server to client: the mappings of the selected process. */
  datatype S2CTargetPidRegionsPacket = S2CTargetPidRegionsPacket(kind: PacketType, count: u32, regions: seq<Region>)
  {
    function ToBytes(): seq<byte>
    {
      EncodeType(kind) + U32Bytes(count) + EncodeList(regions, EncodeRegion)
    }

    static function FromBytes(s: seq<byte>): (r: Option<(S2CTargetPidRegionsPacket, seq<byte>)>)
      ensures r.Some? ==> r.value.0.count == |r.value.0.regions|
    {
      var t :- DecodeType(s);
      var count :- ReadU32(t.1);
      var regions :- DecodeList(count.0, count.1, DecodeRegion);
      Some((S2CTargetPidRegionsPacket(t.0, count.0, regions.0), regions.1))
    }

    /** `parse`: decompress, then decode; bytes after the packet are dropped. */
    static function Parse(data: seq<byte>, decompress: seq<byte> -> seq<byte>): (r: Option<S2CTargetPidRegionsPacket>)
      ensures r.Some? ==> r.value.count == |r.value.regions|
    {
      var p :- FromBytes(decompress(data));
      Some(p.0)
    }

    /** `out_bytes`: tag TargetPID, `count = regions.len() as u32`, then compress. */
    static function OutBytes(regions: seq<Region>, compress: seq<byte> -> seq<byte>): seq<byte>
    {
      compress(Uncompressed(regions).ToBytes())
    }

    static function Uncompressed(regions: seq<Region>): (p: S2CTargetPidRegionsPacket)
      ensures p.kind == TargetPID && p.regions == regions
      ensures |regions| < 0x1_0000_0000 ==> p.count == |regions|
    {
      S2CTargetPidRegionsPacket(TargetPID, LenAsU32(|regions|), regions)
    }
  }

  /** Decoding the uncompressed bytes of a regions packet recovers it, count
      included, and leaves any trailing input unread. */
  lemma RegionsPacketDecodes(p: S2CTargetPidRegionsPacket, trailing: seq<byte>)
    requires p.count == |p.regions|
    requires forall i :: 0 <= i < |p.regions| ==> ValidRegion(p.regions[i])
    ensures S2CTargetPidRegionsPacket.FromBytes(p.ToBytes() + trailing) == Some((p, trailing))
  {
    var body := EncodeList(p.regions, EncodeRegion);
    assert p.ToBytes() + trailing == EncodeType(p.kind) + (U32Bytes(p.count) + (body + trailing));
    DecodeEncodeType(p.kind, U32Bytes(p.count) + (body + trailing));
    ReadU32Of(p.count, body + trailing);
    DecodeEncodeRegions(p.regions, trailing);
  }

  lemma RegionsRoundTrip(
    regions: seq<Region>,
    compress: seq<byte> -> seq<byte>, decompress: seq<byte> -> seq<byte>)
    requires Lossless(compress, decompress)
    requires |regions| < 0x1_0000_0000
    requires forall i :: 0 <= i < |regions| ==> ValidRegion(regions[i])
    ensures S2CTargetPidRegionsPacket.Parse(S2CTargetPidRegionsPacket.OutBytes(regions, compress), decompress)
         == Some(S2CTargetPidRegionsPacket(TargetPID, |regions|, regions))
  {
    var p := S2CTargetPidRegionsPacket.Uncompressed(regions);
    assert decompress(compress(p.ToBytes())) == p.ToBytes();
    RegionsPacketDecodes(p, []);
    assert p.ToBytes() + [] == p.ToBytes();
  }

  /** Server to client: the process list. */
  datatype S2CSendProcessesPacket = S2CSendProcessesPacket(kind: PacketType, count: u32, processes: seq<ProcessEntry>)
  {
    function ToBytes(): seq<byte>
    {
      EncodeType(kind) + U32Bytes(count) + EncodeList(processes, EncodeProcess)
    }

    static function FromBytes(s: seq<byte>): (r: Option<(S2CSendProcessesPacket, seq<byte>)>)
      ensures r.Some? ==> r.value.0.count == |r.value.0.processes|
    {
      var t :- DecodeType(s);
      var count :- ReadU32(t.1);
      var processes :- DecodeList(count.0, count.1, DecodeProcess);
      Some((S2CSendProcessesPacket(t.0, count.0, processes.0), processes.1))
    }

    static function Parse(data: seq<byte>, decompress: seq<byte> -> seq<byte>): (r: Option<S2CSendProcessesPacket>)
      ensures r.Some? ==> r.value.count == |r.value.processes|
    {
      var p :- FromBytes(decompress(data));
      Some(p.0)
    }

    /** `out_bytes`: tag SendProcesses, `count = processes.len() as u32`, then compress. */
    static function OutBytes(processes: seq<ProcessEntry>, compress: seq<byte> -> seq<byte>): seq<byte>
    {
      compress(Uncompressed(processes).ToBytes())
    }

    static function Uncompressed(processes: seq<ProcessEntry>): (p: S2CSendProcessesPacket)
      ensures p.kind == SendProcesses && p.processes == processes
      ensures |processes| < 0x1_0000_0000 ==> p.count == |processes|
    {
      S2CSendProcessesPacket(SendProcesses, LenAsU32(|processes|), processes)
    }
  }

  lemma ProcessesPacketDecodes(p: S2CSendProcessesPacket, trailing: seq<byte>)
    requires p.count == |p.processes|
    requires forall i :: 0 <= i < |p.processes| ==> ValidProcess(p.processes[i])
    ensures S2CSendProcessesPacket.FromBytes(p.ToBytes() + trailing) == Some((p, trailing))
  {
    var body := EncodeList(p.processes, EncodeProcess);
    assert p.ToBytes() + trailing == EncodeType(p.kind) + (U32Bytes(p.count) + (body + trailing));
    DecodeEncodeType(p.kind, U32Bytes(p.count) + (body + trailing));
    ReadU32Of(p.count, body + trailing);
    DecodeEncodeProcesses(p.processes, trailing);
  }

  lemma ProcessesRoundTrip(
    processes: seq<ProcessEntry>,
    compress: seq<byte> -> seq<byte>, decompress: seq<byte> -> seq<byte>)
    requires Lossless(compress, decompress)
    requires |processes| < 0x1_0000_0000
    requires forall i :: 0 <= i < |processes| ==> ValidProcess(processes[i])
    ensures S2CSendProcessesPacket.Parse(S2CSendProcessesPacket.OutBytes(processes, compress), decompress)
         == Some(S2CSendProcessesPacket(SendProcesses, |processes|, processes))
  {
    var p := S2CSendProcessesPacket.Uncompressed(processes);
    assert decompress(compress(p.ToBytes())) == p.ToBytes();
    ProcessesPacketDecodes(p, []);
    assert p.ToBytes() + [] == p.ToBytes();
  }
}
