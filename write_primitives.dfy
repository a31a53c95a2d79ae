/** `shared/src/protocol/write_primitives.rs`: the write request and its reply. */
module WritePrimitives {
  import opened Wire
  import opened Protocol

  /** Write `bytes` at `address`: tag, u64 address, u32 count, then `count` bytes. */
  datatype C2SWriteMemoryPacket = C2SWriteMemoryPacket(kind: PacketType, address: u64, count: u32, bytes: seq<byte>)
  {
    function ToBytes(): seq<byte>
    {
      EncodeType(kind) + U64Bytes(address) + U32Bytes(count) + bytes
    }

    static function FromBytes(s: seq<byte>): (r: Option<(C2SWriteMemoryPacket, seq<byte>)>)
      ensures r.Some? ==> r.value.0.count == |r.value.0.bytes|
    {
      var t :- DecodeType(s);
      var address :- Wire.ReadU64(t.1);
      var count :- ReadU32(address.1);
      var bytes :- ReadBytes(count.0, count.1);
      Some((C2SWriteMemoryPacket(t.0, address.0, count.0, bytes.0), bytes.1))
    }

    /** `parse`: reads exactly `count` payload bytes and drops whatever follows. */
    static function Parse(data: seq<byte>): (r: Option<C2SWriteMemoryPacket>)
      ensures r.Some? ==> 13 + r.value.count <= |data| && data[0] < 6
      ensures r.Some? ==> r.value.count == |r.value.bytes| && r.value.bytes == data[13..13 + r.value.count]
    {
      var p :- FromBytes(data);
      assert data[1..][8..][4..] == data[13..];
      Some(p.0)
    }

    /** `out_bytes`: tag Write and `count = bytes.len() as u32`. */
    static function OutBytes(address: u64, bytes: seq<byte>): (r: seq<byte>)
      ensures |r| == 13 + |bytes| && r[0] == Tag(Write)
      ensures r[1..9] == U64Bytes(address) && r[9..13] == U32Bytes(LenAsU32(|bytes|)) && r[13..] == bytes
    {
      C2SWriteMemoryPacket(Write, address, LenAsU32(|bytes|), bytes).ToBytes()
    }
  }

  /** Whatever follows the packet, parsing its bytes gives back address, count and bytes. */
  lemma WriteRequestRoundTrip(address: u64, bytes: seq<byte>, trailing: seq<byte>)
    requires |bytes| < 0x1_0000_0000
    ensures C2SWriteMemoryPacket.Parse(C2SWriteMemoryPacket.OutBytes(address, bytes) + trailing)
         == Some(C2SWriteMemoryPacket(Write, address, |bytes|, bytes))
  {
    var t3 := bytes + trailing;
    var t2 := U32Bytes(|bytes|) + t3;
    var t1 := U64Bytes(address) + t2;
    assert C2SWriteMemoryPacket.OutBytes(address, bytes) + trailing == EncodeType(Write) + t1;
    DecodeEncodeType(Write, t1);
    ReadU64Of(address, t2);
    ReadU32Of(|bytes|, t3);
    ReadBytesOf(bytes, trailing);
  }

  /** The reply to a write: the number of bytes written. 9 bytes. */
  datatype S2CWriteMemoryPacketResponse = S2CWriteMemoryPacketResponse(kind: PacketType, bytesWritten: u64)
  {
    function ToBytes(): seq<byte>
    {
      EncodeType(kind) + U64Bytes(bytesWritten)
    }

    static function FromBytes(s: seq<byte>): Option<(S2CWriteMemoryPacketResponse, seq<byte>)>
    {
      var t :- DecodeType(s);
      var n :- Wire.ReadU64(t.1);
      Some((S2CWriteMemoryPacketResponse(t.0, n.0), n.1))
    }

    static function Parse(data: seq<byte>): (r: Option<S2CWriteMemoryPacketResponse>)
      ensures r.Some? <==> |data| >= 9 && data[0] < 6
    {
      Pow256Widths();
      var p :- FromBytes(data);
      Some(p.0)
    }

    static function OutBytes(bytesWritten: u64): (r: seq<byte>)
      ensures |r| == 9 && r[0] == Tag(Write) && r[1..] == U64Bytes(bytesWritten)
    {
      S2CWriteMemoryPacketResponse(Write, bytesWritten).ToBytes()
    }
  }

  lemma WriteResponseRoundTrip(bytesWritten: u64, trailing: seq<byte>)
    ensures S2CWriteMemoryPacketResponse.Parse(S2CWriteMemoryPacketResponse.OutBytes(bytesWritten) + trailing)
         == Some(S2CWriteMemoryPacketResponse(Write, bytesWritten))
  {
    assert S2CWriteMemoryPacketResponse.OutBytes(bytesWritten) + trailing
        == EncodeType(Write) + (U64Bytes(bytesWritten) + trailing);
    DecodeEncodeType(Write, U64Bytes(bytesWritten) + trailing);
    ReadU64Of(bytesWritten, trailing);
  }
}
