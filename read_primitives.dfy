/** `shared/src/protocol/read_primitives.rs`: the three read requests and
    their three replies. The tag the file calls `PacketType::ReadVec` is the
    tag-0 variant `Read` of the six-variant enum. */
module ReadPrimitives {
  import opened Wire
  import opened Protocol

  /** Request `size` bytes at `address`. 13 bytes: tag, u64, u32. */
  datatype RequestReadVecMemoryPacket = RequestReadVecMemoryPacket(kind: PacketType, address: u64, size: u32)
  {
    function ToBytes(): seq<byte>
    {
      EncodeType(kind) + U64Bytes(address) + U32Bytes(size)
    }

    static function FromBytes(s: seq<byte>): Option<(RequestReadVecMemoryPacket, seq<byte>)>
    {
      var t :- DecodeType(s);
      var address :- Wire.ReadU64(t.1);
      var size :- ReadU32(address.1);
      Some((RequestReadVecMemoryPacket(t.0, address.0, size.0), size.1))
    }

    static function Deserialize(data: seq<byte>): (r: Option<RequestReadVecMemoryPacket>)
      ensures r.Some? <==> |data| >= 13 && data[0] < 6
    {
      Pow256Widths();
      var p :- FromBytes(data);
      Some(p.0)
    }

    static function Serialize(address: u64, size: u32): (r: seq<byte>)
      ensures |r| == 13 && r[0] == Tag(Read)
      ensures r[1..9] == U64Bytes(address) && r[9..] == U32Bytes(size)
    {
      RequestReadVecMemoryPacket(Read, address, size).ToBytes()
    }
  }

  lemma ReadVecRequestRoundTrip(address: u64, size: u32, trailing: seq<byte>)
    ensures RequestReadVecMemoryPacket.Deserialize(RequestReadVecMemoryPacket.Serialize(address, size) + trailing)
         == Some(RequestReadVecMemoryPacket(Read, address, size))
  {
    var t2 := U32Bytes(size) + trailing;
    var t1 := U64Bytes(address) + t2;
    assert RequestReadVecMemoryPacket.Serialize(address, size) + trailing == EncodeType(Read) + t1;
    DecodeEncodeType(Read, t1);
    ReadU64Of(address, t2);
    ReadU32Of(size, trailing);
  }

  /** Request a scalar of `size` bytes read as unsigned. 10 bytes: tag, u64, u8. */
  datatype RequestReadU64MemoryPacket = RequestReadU64MemoryPacket(kind: PacketType, address: u64, size: byte)
  {
    function ToBytes(): seq<byte>
    {
      EncodeType(kind) + U64Bytes(address) + U8Bytes(size)
    }

    static function FromBytes(s: seq<byte>): Option<(RequestReadU64MemoryPacket, seq<byte>)>
    {
      var t :- DecodeType(s);
      var address :- Wire.ReadU64(t.1);
      var size :- ReadU8(address.1);
      Some((RequestReadU64MemoryPacket(t.0, address.0, size.0), size.1))
    }

    static function Deserialize(data: seq<byte>): (r: Option<RequestReadU64MemoryPacket>)
      ensures r.Some? <==> |data| >= 10 && data[0] < 6
    {
      Pow256Widths();
      var p :- FromBytes(data);
      Some(p.0)
    }

    static function Serialize(address: u64, size: byte): (r: seq<byte>)
      ensures |r| == 10 && r[0] == Tag(ReadU64) && r[9] == size
      ensures r[1..9] == U64Bytes(address)
    {
      RequestReadU64MemoryPacket(ReadU64, address, size).ToBytes()
    }
  }

  lemma ReadU64RequestRoundTrip(address: u64, size: byte, trailing: seq<byte>)
    ensures RequestReadU64MemoryPacket.Deserialize(RequestReadU64MemoryPacket.Serialize(address, size) + trailing)
         == Some(RequestReadU64MemoryPacket(ReadU64, address, size))
  {
    var t2 := U8Bytes(size) + trailing;
    var t1 := U64Bytes(address) + t2;
    assert RequestReadU64MemoryPacket.Serialize(address, size) + trailing == EncodeType(ReadU64) + t1;
    DecodeEncodeType(ReadU64, t1);
    ReadU64Of(address, t2);
    ReadU8Of(size, trailing);
  }

  /** Request a scalar of `size` bytes read as signed. Same layout, tag ReadI64. */
  datatype RequestReadI64MemoryPacket = RequestReadI64MemoryPacket(kind: PacketType, address: u64, size: byte)
  {
    function ToBytes(): seq<byte>
    {
      EncodeType(kind) + U64Bytes(address) + U8Bytes(size)
    }

    static function FromBytes(s: seq<byte>): Option<(RequestReadI64MemoryPacket, seq<byte>)>
    {
      var t :- DecodeType(s);
      var address :- Wire.ReadU64(t.1);
      var size :- ReadU8(address.1);
      Some((RequestReadI64MemoryPacket(t.0, address.0, size.0), size.1))
    }

    static function Deserialize(data: seq<byte>): (r: Option<RequestReadI64MemoryPacket>)
      ensures r.Some? <==> |data| >= 10 && data[0] < 6
    {
      Pow256Widths();
      var p :- FromBytes(data);
      Some(p.0)
    }

    static function Serialize(address: u64, size: byte): (r: seq<byte>)
      ensures |r| == 10 && r[0] == Tag(ReadI64) && r[9] == size
      ensures r[1..9] == U64Bytes(address)
    {
      RequestReadI64MemoryPacket(ReadI64, address, size).ToBytes()
    }
  }

  lemma ReadI64RequestRoundTrip(address: u64, size: byte, trailing: seq<byte>)
    ensures RequestReadI64MemoryPacket.Deserialize(RequestReadI64MemoryPacket.Serialize(address, size) + trailing)
         == Some(RequestReadI64MemoryPacket(ReadI64, address, size))
  {
    var t2 := U8Bytes(size) + trailing;
    var t1 := U64Bytes(address) + t2;
    assert RequestReadI64MemoryPacket.Serialize(address, size) + trailing == EncodeType(ReadI64) + t1;
    DecodeEncodeType(ReadI64, t1);
    ReadU64Of(address, t2);
    ReadU8Of(size, trailing);
  }

  /** Reply to a vector read: `count` then the bytes. */
  datatype ReceiveReadVecPacketResponse = ReceiveReadVecPacketResponse(kind: PacketType, count: u32, data: seq<byte>)
  {
    function ToBytes(): seq<byte>
    {
      EncodeType(kind) + U32Bytes(count) + data
    }

    static function FromBytes(s: seq<byte>): (r: Option<(ReceiveReadVecPacketResponse, seq<byte>)>)
      ensures r.Some? ==> r.value.0.count == |r.value.0.data|
    {
      var t :- DecodeType(s);
      var count :- ReadU32(t.1);
      var data :- ReadBytes(count.0, count.1);
      Some((ReceiveReadVecPacketResponse(t.0, count.0, data.0), data.1))
    }

    static function Deserialize(data: seq<byte>): (r: Option<ReceiveReadVecPacketResponse>)
      ensures r.Some? ==> r.value.count == |r.value.data|
    {
      var p :- FromBytes(data);
      Some(p.0)
    }

    /** `serialize(data)`: tag Read, `count = data.len() as u32`, then the bytes. */
    static function Serialize(data: seq<byte>): (r: seq<byte>)
      ensures |r| == 5 + |data| && r[0] == Tag(Read)
      ensures r[1..5] == U32Bytes(LenAsU32(|data|)) && r[5..] == data
    {
      ReceiveReadVecPacketResponse(Read, LenAsU32(|data|), data).ToBytes()
    }
  }

  lemma ReadVecResponseRoundTrip(data: seq<byte>, trailing: seq<byte>)
    requires |data| < 0x1_0000_0000
    ensures ReceiveReadVecPacketResponse.Deserialize(ReceiveReadVecPacketResponse.Serialize(data) + trailing)
         == Some(ReceiveReadVecPacketResponse(Read, |data|, data))
  {
    var t2 := data + trailing;
    var t1 := U32Bytes(|data|) + t2;
    assert ReceiveReadVecPacketResponse.Serialize(data) + trailing == EncodeType(Read) + t1;
    DecodeEncodeType(Read, t1);
    ReadU32Of(|data|, t2);
    ReadBytesOf(data, trailing);
  }

  /** Reply to an unsigned scalar read: the value as a big-endian u64. 9 bytes. */
  datatype ReceiveReadU64PacketResponse = ReceiveReadU64PacketResponse(kind: PacketType, value: u64)
  {
    function ToBytes(): seq<byte>
    {
      EncodeType(kind) + U64Bytes(value)
    }

    static function FromBytes(s: seq<byte>): Option<(ReceiveReadU64PacketResponse, seq<byte>)>
    {
      var t :- DecodeType(s);
      var value :- Wire.ReadU64(t.1);
      Some((ReceiveReadU64PacketResponse(t.0, value.0), value.1))
    }

    static function Deserialize(data: seq<byte>): (r: Option<ReceiveReadU64PacketResponse>)
      ensures r.Some? <==> |data| >= 9 && data[0] < 6
    {
      Pow256Widths();
      var p :- FromBytes(data);
      Some(p.0)
    }

    static function Serialize(value: u64): (r: seq<byte>)
      ensures |r| == 9 && r[0] == Tag(ReadU64) && r[1..] == U64Bytes(value)
    {
      ReceiveReadU64PacketResponse(ReadU64, value).ToBytes()
    }
  }

  lemma ReadU64ResponseRoundTrip(value: u64, trailing: seq<byte>)
    ensures ReceiveReadU64PacketResponse.Deserialize(ReceiveReadU64PacketResponse.Serialize(value) + trailing)
         == Some(ReceiveReadU64PacketResponse(ReadU64, value))
  {
    assert ReceiveReadU64PacketResponse.Serialize(value) + trailing
        == EncodeType(ReadU64) + (U64Bytes(value) + trailing);
    DecodeEncodeType(ReadU64, U64Bytes(value) + trailing);
    ReadU64Of(value, trailing);
  }

  /** Reply to a signed scalar read: the value as a big-endian two's-complement i64. 9 bytes. */
  datatype ReceiveReadI64PacketResponse = ReceiveReadI64PacketResponse(kind: PacketType, value: i64)
  {
    function ToBytes(): seq<byte>
    {
      EncodeType(kind) + I64Bytes(value)
    }

    static function FromBytes(s: seq<byte>): Option<(ReceiveReadI64PacketResponse, seq<byte>)>
    {
      var t :- DecodeType(s);
      var value :- Wire.ReadI64(t.1);
      Some((ReceiveReadI64PacketResponse(t.0, value.0), value.1))
    }

    static function Deserialize(data: seq<byte>): (r: Option<ReceiveReadI64PacketResponse>)
      ensures r.Some? <==> |data| >= 9 && data[0] < 6
    {
      Pow256Widths();
      var p :- FromBytes(data);
      Some(p.0)
    }

    static function Serialize(value: i64): (r: seq<byte>)
      ensures |r| == 9 && r[0] == Tag(ReadI64) && r[1..] == I64Bytes(value)
    {
      ReceiveReadI64PacketResponse(ReadI64, value).ToBytes()
    }
  }

  lemma ReadI64ResponseRoundTrip(value: i64, trailing: seq<byte>)
    ensures ReceiveReadI64PacketResponse.Deserialize(ReceiveReadI64PacketResponse.Serialize(value) + trailing)
         == Some(ReceiveReadI64PacketResponse(ReadI64, value))
  {
    var s := ReceiveReadI64PacketResponse.Serialize(value) + trailing;
    assert s == EncodeType(ReadI64) + (I64Bytes(value) + trailing);
    DecodeEncodeType(ReadI64, I64Bytes(value) + trailing);
    ReadI64Of(value, trailing);
    assert ReceiveReadI64PacketResponse.FromBytes(s) == Some((ReceiveReadI64PacketResponse(ReadI64, value), trailing));
  }

  /** The smallest and largest `i8` survive the trip through an i64 reply
      and the cast back to `i8`, and so does 0xFF through a u64 reply. */
  lemma ReadResponseExamples()
    ensures ReceiveReadI64PacketResponse.Deserialize(ReceiveReadI64PacketResponse.Serialize(-128)).value.value == -128
    ensures ReceiveReadI64PacketResponse.Deserialize(ReceiveReadI64PacketResponse.Serialize(127)).value.value == 127
    ensures ReceiveReadU64PacketResponse.Deserialize(ReceiveReadU64PacketResponse.Serialize(0xFF)).value.value == 0xFF
  {
    ReadI64ResponseRoundTrip(-128, []);
    assert ReceiveReadI64PacketResponse.Serialize(-128) + [] == ReceiveReadI64PacketResponse.Serialize(-128);
    ReadI64ResponseRoundTrip(127, []);
    assert ReceiveReadI64PacketResponse.Serialize(127) + [] == ReceiveReadI64PacketResponse.Serialize(127);
    ReadU64ResponseRoundTrip(0xFF, []);
    assert ReceiveReadU64PacketResponse.Serialize(0xFF) + [] == ReceiveReadU64PacketResponse.Serialize(0xFF);
  }

  /** Each request and the reply the server builds for it carry the same tag. */
  lemma RequestsAndRepliesShareTags(address: u64, size32: u32, size8: byte, data: seq<byte>, u: u64, i: i64)
    ensures RequestReadVecMemoryPacket.Serialize(address, size32)[0] == ReceiveReadVecPacketResponse.Serialize(data)[0] == Tag(Read)
    ensures RequestReadU64MemoryPacket.Serialize(address, size8)[0] == ReceiveReadU64PacketResponse.Serialize(u)[0] == Tag(ReadU64)
    ensures RequestReadI64MemoryPacket.Serialize(address, size8)[0] == ReceiveReadI64PacketResponse.Serialize(i)[0] == Tag(ReadI64)
  {
  }
}
