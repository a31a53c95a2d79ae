/** `shared/src/protocol.rs`: the older single-file protocol. It has four
    packet types with explicit tags 0..3, no compression, and the same
    `EncodedString`, `ProcessEntry` and `Region` layouts (module Records). */
module LegacyProtocol {
  import opened Wire
  import opened Records

  datatype PacketType = Read | Write | TargetPID | SendProcesses

  function Tag(t: PacketType): byte
  {
    match t
    case Read => 0
    case Write => 1
    case TargetPID => 2
    case SendProcesses => 3
  }

  /** `PacketType::from_u8`; here it is deku's own decoding of the tag as well. */
  function FromU8(value: byte): (r: Option<PacketType>)
    ensures r.Some? <==> value < 4
    ensures r.Some? ==> Tag(r.value) == value
  {
    match value
    case 0 => Some(Read)
    case 1 => Some(Write)
    case 2 => Some(TargetPID)
    case 3 => Some(SendProcesses)
    case _ => None
  }

  /** In this module `from_u8` and the tags are inverse in both directions. */
  lemma FromU8InvertsTag(t: PacketType, b: byte)
    ensures FromU8(Tag(t)) == Some(t)
    ensures FromU8(b).Some? ==> Tag(FromU8(b).value) == b
  {
  }

  function EncodeType(t: PacketType): seq<byte>
  {
    [Tag(t)]
  }

  function DecodeType(s: seq<byte>): (r: Option<(PacketType, seq<byte>)>)
    ensures r.Some? <==> |s| >= 1 && s[0] < 4
    ensures r.Some? ==> r.value.1 == s[1..]
  {
    var b :- ReadU8(s);
    var t :- FromU8(b.0);
    Some((t, b.1))
  }

  lemma DecodeEncodeType(t: PacketType, rest: seq<byte>)
    ensures DecodeType(EncodeType(t) + rest) == Some((t, rest))
  {
    assert (EncodeType(t) + rest)[1..] == rest;
  }

  /** Request `size` bytes at `address`: tag, u64, u32. */
  datatype C2SReadMemoryPacket = C2SReadMemoryPacket(kind: PacketType, address: u64, size: u32)
  {
    function ToBytes(): seq<byte>
    {
      EncodeType(kind) + U64Bytes(address) + U32Bytes(size)
    }

    static function FromBytes(s: seq<byte>): Option<(C2SReadMemoryPacket, seq<byte>)>
    {
      var t :- DecodeType(s);
      var address :- ReadU64(t.1);
      var size :- ReadU32(address.1);
      Some((C2SReadMemoryPacket(t.0, address.0, size.0), size.1))
    }

    static function Parse(data: seq<byte>): (r: Option<C2SReadMemoryPacket>)
      ensures r.Some? <==> |data| >= 13 && data[0] < 4
    {
      Pow256Widths();
      var p :- FromBytes(data);
      Some(p.0)
    }

    static function OutBytes(address: u64, size: u32): (r: seq<byte>)
      ensures |r| == 13 && r[0] == Tag(Read)
      ensures r[1..9] == U64Bytes(address) && r[9..] == U32Bytes(size)
    {
      C2SReadMemoryPacket(Read, address, size).ToBytes()
    }
  }

  lemma ReadRequestRoundTrip(address: u64, size: u32, trailing: seq<byte>)
    ensures C2SReadMemoryPacket.Parse(C2SReadMemoryPacket.OutBytes(address, size) + trailing)
         == Some(C2SReadMemoryPacket(Read, address, size))
  {
    var t2 := U32Bytes(size) + trailing;
    var t1 := U64Bytes(address) + t2;
    assert C2SReadMemoryPacket.OutBytes(address, size) + trailing == EncodeType(Read) + t1;
    DecodeEncodeType(Read, t1);
    ReadU64Of(address, t2);
    ReadU32Of(size, trailing);
  }

  /** Write `bytes` at `address`: tag, u64, u32 count, the bytes. */
  datatype C2SWriteMemoryPacket = C2SWriteMemoryPacket(kind: PacketType, address: u64, count: u32, bytes: seq<byte>)
  {
    function ToBytes(): seq<byte>
    {
      EncodeType(kind) + U64Bytes(address) + U32Bytes(count) + bytes
    }

    static function FromBytes(s: seq<byte>): (r: Option<(C2SWriteMemoryPacket, seq<byte>)>)
      ensures r.Some? ==> r.value.0.count == |r.value.0.bytes|
    {
      var t :- DecodeType(s);
      var address :- ReadU64(t.1);
      var count :- ReadU32(address.1);
      var bytes :- ReadBytes(count.0, count.1);
      Some((C2SWriteMemoryPacket(t.0, address.0, count.0, bytes.0), bytes.1))
    }

    static function Parse(data: seq<byte>): (r: Option<C2SWriteMemoryPacket>)
      ensures r.Some? ==> 13 + r.value.count <= |data| && data[0] < 4
      ensures r.Some? ==> r.value.count == |r.value.bytes| && r.value.bytes == data[13..13 + r.value.count]
    {
      var p :- FromBytes(data);
      assert data[1..][8..][4..] == data[13..];
      Some(p.0)
    }

    static function OutBytes(address: u64, bytes: seq<byte>): (r: seq<byte>)
      ensures |r| == 13 + |bytes| && r[0] == Tag(Write)
      ensures r[1..9] == U64Bytes(address) && r[9..13] == U32Bytes(LenAsU32(|bytes|)) && r[13..] == bytes
    {
      C2SWriteMemoryPacket(Write, address, LenAsU32(|bytes|), bytes).ToBytes()
    }
  }

  lemma WriteRequestRoundTrip(address: u64, bytes: seq<byte>, trailing: seq<byte>)
    requires |bytes| < 0x1_0000_0000
    ensures C2SWriteMemoryPacket.Parse(C2SWriteMemoryPacket.OutBytes(address, bytes) + trailing)
         == Some(C2SWriteMemoryPacket(Write, address, |bytes|, bytes))
  {
    var t3 := bytes + trailing;
    var t2 := U32Bytes(|bytes|) + t3;
    var t1 := U64Bytes(address) + t2;
    assert C2SWriteMemoryPacket.OutBytes(address, bytes) + trailing == EncodeType(Write) + t1;
    DecodeEncodeType(Write, t1);
    ReadU64Of(address, t2);
    ReadU32Of(|bytes|, t3);
    ReadBytesOf(bytes, trailing);
  }

  datatype C2STargetPidPacket = C2STargetPidPacket(kind: PacketType, targetPid: i32)
  {
    function ToBytes(): seq<byte>
    {
      EncodeType(kind) + I32Bytes(targetPid)
    }

    static function FromBytes(s: seq<byte>): Option<(C2STargetPidPacket, seq<byte>)>
    {
      var t :- DecodeType(s);
      var pid :- ReadI32(t.1);
      Some((C2STargetPidPacket(t.0, pid.0), pid.1))
    }

    static function Parse(data: seq<byte>): (r: Option<C2STargetPidPacket>)
      ensures r.Some? <==> |data| >= 5 && data[0] < 4
    {
      var p :- FromBytes(data);
      Some(p.0)
    }

    static function OutBytes(targetPid: i32): (r: seq<byte>)
      ensures |r| == 5 && r[0] == Tag(TargetPID) && r[1..] == I32Bytes(targetPid)
    {
      C2STargetPidPacket(TargetPID, targetPid).ToBytes()
    }
  }

  lemma TargetPidRoundTrip(targetPid: i32, trailing: seq<byte>)
    ensures C2STargetPidPacket.Parse(C2STargetPidPacket.OutBytes(targetPid) + trailing)
         == Some(C2STargetPidPacket(TargetPID, targetPid))
  {
    assert C2STargetPidPacket.OutBytes(targetPid) + trailing
        == EncodeType(TargetPID) + (I32Bytes(targetPid) + trailing);
    DecodeEncodeType(TargetPID, I32Bytes(targetPid) + trailing);
    ReadI32Of(targetPid, trailing);
  }

  datatype C2SGetProcessesPacket = C2SGetProcessesPacket(kind: PacketType)
  {
    function ToBytes(): seq<byte>
    {
      EncodeType(kind)
    }

    static function Parse(data: seq<byte>): (r: Option<C2SGetProcessesPacket>)
      ensures r.Some? <==> |data| >= 1 && data[0] < 4
    {
      var t :- DecodeType(data);
      Some(C2SGetProcessesPacket(t.0))
    }

    static function OutBytes(): (r: seq<byte>)
      ensures r == [3] && FromU8(r[0]) == Some(SendProcesses)
    {
      C2SGetProcessesPacket(SendProcesses).ToBytes()
    }
  }

  lemma GetProcessesRoundTrip(trailing: seq<byte>)
    ensures C2SGetProcessesPacket.Parse(C2SGetProcessesPacket.OutBytes() + trailing)
         == Some(C2SGetProcessesPacket(SendProcesses))
  {
    DecodeEncodeType(SendProcesses, trailing);
  }

  /** Reply to a read: tag Read, `count`, then the bytes. */
  datatype S2CReadMemoryPacketResponse = S2CReadMemoryPacketResponse(kind: PacketType, count: u32, data: seq<byte>)
  {
    function ToBytes(): seq<byte>
    {
      EncodeType(kind) + U32Bytes(count) + data
    }

    static function FromBytes(s: seq<byte>): (r: Option<(S2CReadMemoryPacketResponse, seq<byte>)>)
      ensures r.Some? ==> r.value.0.count == |r.value.0.data|
    {
      var t :- DecodeType(s);
      var count :- ReadU32(t.1);
      var data :- ReadBytes(count.0, count.1);
      Some((S2CReadMemoryPacketResponse(t.0, count.0, data.0), data.1))
    }

    static function Parse(data: seq<byte>): (r: Option<S2CReadMemoryPacketResponse>)
      ensures r.Some? ==> r.value.count == |r.value.data|
    {
      var p :- FromBytes(data);
      Some(p.0)
    }

    static function OutBytes(data: seq<byte>): (r: seq<byte>)
      ensures |r| == 5 + |data| && r[0] == Tag(Read)
      ensures r[1..5] == U32Bytes(LenAsU32(|data|)) && r[5..] == data
    {
      S2CReadMemoryPacketResponse(Read, LenAsU32(|data|), data).ToBytes()
    }
  }

  lemma ReadResponseRoundTrip(data: seq<byte>, trailing: seq<byte>)
    requires |data| < 0x1_0000_0000
    ensures S2CReadMemoryPacketResponse.Parse(S2CReadMemoryPacketResponse.OutBytes(data) + trailing)
         == Some(S2CReadMemoryPacketResponse(Read, |data|, data))
  {
    var t2 := data + trailing;
    var t1 := U32Bytes(|data|) + t2;
    assert S2CReadMemoryPacketResponse.OutBytes(data) + trailing == EncodeType(Read) + t1;
    DecodeEncodeType(Read, t1);
    ReadU32Of(|data|, t2);
    ReadBytesOf(data, trailing);
  }

  datatype S2CWriteMemoryPacketResponse = S2CWriteMemoryPacketResponse(kind: PacketType, bytesWritten: u64)
  {
    function ToBytes(): seq<byte>
    {
      EncodeType(kind) + U64Bytes(bytesWritten)
    }

    static function FromBytes(s: seq<byte>): Option<(S2CWriteMemoryPacketResponse, seq<byte>)>
    {
      var t :- DecodeType(s);
      var n :- ReadU64(t.1);
      Some((S2CWriteMemoryPacketResponse(t.0, n.0), n.1))
    }

    static function Parse(data: seq<byte>): (r: Option<S2CWriteMemoryPacketResponse>)
      ensures r.Some? <==> |data| >= 9 && data[0] < 4
    {
      Pow256Widths();
      var p :- FromBytes(data);
      Some(p.0)
    }

    static function OutBytes(bytesWritten: u64): (r: seq<byte>)
      ensures |r| == 9 && r[0] == Tag(Write) && r[1..] == U64Bytes(bytesWritten)
    {
      S2CWriteMemoryPacketResponse(Write, bytesWritten).ToBytes()
    }
  }

  lemma WriteResponseRoundTrip(bytesWritten: u64, trailing: seq<byte>)
    ensures S2CWriteMemoryPacketResponse.Parse(S2CWriteMemoryPacketResponse.OutBytes(bytesWritten) + trailing)
         == Some(S2CWriteMemoryPacketResponse(Write, bytesWritten))
  {
    assert S2CWriteMemoryPacketResponse.OutBytes(bytesWritten) + trailing
        == EncodeType(Write) + (U64Bytes(bytesWritten) + trailing);
    DecodeEncodeType(Write, U64Bytes(bytesWritten) + trailing);
    ReadU64Of(bytesWritten, trailing);
  }

  /** The mappings of the selected process, uncompressed. */
  datatype S2CTargetPidRegionsPacket = S2CTargetPidRegionsPacket(kind: PacketType, count: u32, regions: seq<Region>)
  {
    function ToBytes(): seq<byte>
    {
      EncodeType(kind) + U32Bytes(count) + EncodeList(regions, EncodeRegion)
    }

    static function FromBytes(s: seq<byte>): (r: Option<(S2CTargetPidRegionsPacket, seq<byte>)>)
      ensures r.Some? ==> r.value.0.count == |r.value.0.regions|
    {
      var t :- DecodeType(s);
      var count :- ReadU32(t.1);
      var regions :- DecodeList(count.0, count.1, DecodeRegion);
      Some((S2CTargetPidRegionsPacket(t.0, count.0, regions.0), regions.1))
    }

    static function Parse(data: seq<byte>): (r: Option<S2CTargetPidRegionsPacket>)
      ensures r.Some? ==> r.value.count == |r.value.regions|
    {
      var p :- FromBytes(data);
      Some(p.0)
    }

    static function OutBytes(regions: seq<Region>): (r: seq<byte>)
      ensures |r| >= 5 && r[0] == Tag(TargetPID) && r[1..5] == U32Bytes(LenAsU32(|regions|))
      ensures r[5..] == EncodeList(regions, EncodeRegion)
    {
      S2CTargetPidRegionsPacket(TargetPID, LenAsU32(|regions|), regions).ToBytes()
    }
  }

  /** Every region comes back, including both of its `EncodedString` fields. */
  lemma RegionsRoundTrip(regions: seq<Region>, trailing: seq<byte>)
    requires |regions| < 0x1_0000_0000
    requires forall i :: 0 <= i < |regions| ==> ValidRegion(regions[i])
    ensures S2CTargetPidRegionsPacket.Parse(S2CTargetPidRegionsPacket.OutBytes(regions) + trailing)
         == Some(S2CTargetPidRegionsPacket(TargetPID, |regions|, regions))
  {
    var body := EncodeList(regions, EncodeRegion);
    assert S2CTargetPidRegionsPacket.OutBytes(regions) + trailing
        == EncodeType(TargetPID) + (U32Bytes(|regions|) + (body + trailing));
    DecodeEncodeType(TargetPID, U32Bytes(|regions|) + (body + trailing));
    ReadU32Of(|regions|, body + trailing);
    DecodeEncodeRegions(regions, trailing);
  }

  /** The process list, uncompressed. */
  datatype S2CSendProcessesPacket = S2CSendProcessesPacket(kind: PacketType, count: u32, processes: seq<ProcessEntry>)
  {
    function ToBytes(): seq<byte>
    {
      EncodeType(kind) + U32Bytes(count) + EncodeList(processes, EncodeProcess)
    }

    static function FromBytes(s: seq<byte>): (r: Option<(S2CSendProcessesPacket, seq<byte>)>)
      ensures r.Some? ==> r.value.0.count == |r.value.0.processes|
    {
      var t :- DecodeType(s);
      var count :- ReadU32(t.1);
      var processes :- DecodeList(count.0, count.1, DecodeProcess);
      Some((S2CSendProcessesPacket(t.0, count.0, processes.0), processes.1))
    }

    static function Parse(data: seq<byte>): (r: Option<S2CSendProcessesPacket>)
      ensures r.Some? ==> r.value.count == |r.value.processes|
    {
      var p :- FromBytes(data);
      Some(p.0)
    }

    static function OutBytes(processes: seq<ProcessEntry>): (r: seq<byte>)
      ensures |r| >= 5 && r[0] == Tag(SendProcesses) && r[1..5] == U32Bytes(LenAsU32(|processes|))
      ensures r[5..] == EncodeList(processes, EncodeProcess)
    {
      S2CSendProcessesPacket(SendProcesses, LenAsU32(|processes|), processes).ToBytes()
    }
  }

  lemma ProcessesRoundTrip(processes: seq<ProcessEntry>, trailing: seq<byte>)
    requires |processes| < 0x1_0000_0000
    requires forall i :: 0 <= i < |processes| ==> ValidProcess(processes[i])
    ensures S2CSendProcessesPacket.Parse(S2CSendProcessesPacket.OutBytes(processes) + trailing)
         == Some(S2CSendProcessesPacket(SendProcesses, |processes|, processes))
  {
    var body := EncodeList(processes, EncodeProcess);
    assert S2CSendProcessesPacket.OutBytes(processes) + trailing
        == EncodeType(SendProcesses) + (U32Bytes(|processes|) + (body + trailing));
    DecodeEncodeType(SendProcesses, U32Bytes(|processes|) + (body + trailing));
    ReadU32Of(|processes|, body + trailing);
    DecodeEncodeProcesses(processes, trailing);
  }
}
