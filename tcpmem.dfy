/** `shared/src/helpers/tcpmem.rs`: the client side of the memory requests.
    `send_packet` is not part of this model: each operation takes the reply
    bytes it would have returned, and states the request it sends with the
    result it makes of that reply. */
module TcpMem {
  import opened Wire
  import opened Io
  import opened Protocol
  import opened ReadPrimitives
  import opened WritePrimitives

  /** The request written to the stream, and what the call made of the reply. */
  datatype Exchange<+T> = Exchange(sent: seq<byte>, outcome: Outcome<T>)

  function UnsupportedWidth(): IoError
  {
    IoError(InvalidInput, Ascii("Unsupported byte width"))
  }

  /** `read_vec`: a vector read request, and the bytes of the reply. */
  function ReadVec(address: u64, size: u32, reply: seq<byte>): (x: Exchange<seq<byte>>)
    ensures x.sent == RequestReadVecMemoryPacket.Serialize(address, size)
    ensures x.outcome.Panicked? <==> ReceiveReadVecPacketResponse.Deserialize(reply).None?
    ensures x.outcome.Returned? ==>
      x.outcome.result == Ok(ReceiveReadVecPacketResponse.Deserialize(reply).value.data)
  {
    var sent := RequestReadVecMemoryPacket.Serialize(address, size);
    match ReceiveReadVecPacketResponse.Deserialize(reply)
    case None => Exchange(sent, Panicked)
    case Some(p) => Exchange(sent, Returned(Ok(p.data)))
  }

  /** `read_unsigned`: ask for `widthBytes` bytes, keep the low `widthBytes`
      bytes of the u64 reply; any width but 1, 2, 4, 8 is refused after the
      request went out. */
  function ReadUnsigned(address: u64, widthBytes: byte, reply: seq<byte>): (x: Exchange<nat>)
    ensures x.sent == RequestReadU64MemoryPacket.Serialize(address, widthBytes)
    ensures x.outcome.Panicked? <==> ReceiveReadU64PacketResponse.Deserialize(reply).None?
    ensures x.outcome.Returned? && !IsWidth(widthBytes) ==> x.outcome.result == Err(UnsupportedWidth())
    ensures x.outcome.Returned? && x.outcome.result.Ok? ==>
      IsWidth(widthBytes) && x.outcome.result.value < Pow256(widthBytes)
    ensures x.outcome.Returned? && x.outcome.result.Ok? ==>
      x.outcome.result.value == Truncate(widthBytes, ReceiveReadU64PacketResponse.Deserialize(reply).value.value)
  {
    var sent := RequestReadU64MemoryPacket.Serialize(address, widthBytes);
    match ReceiveReadU64PacketResponse.Deserialize(reply)
    case None => Exchange(sent, Panicked)
    case Some(p) =>
      if IsWidth(widthBytes) then Exchange(sent, Returned(Ok(Truncate(widthBytes, p.value))))
      else Exchange(sent, Returned(Err(UnsupportedWidth())))
  }

  /** `read_signed`: the same with the signed request, sign-extending the
      low `widthBytes` bytes of the i64 reply. */
  function ReadSigned(address: u64, widthBytes: byte, reply: seq<byte>): (x: Exchange<int>)
    ensures x.sent == RequestReadI64MemoryPacket.Serialize(address, widthBytes)
    ensures x.outcome.Panicked? <==> ReceiveReadI64PacketResponse.Deserialize(reply).None?
    ensures x.outcome.Returned? && !IsWidth(widthBytes) ==> x.outcome.result == Err(UnsupportedWidth())
    ensures x.outcome.Returned? && x.outcome.result.Ok? ==>
      IsWidth(widthBytes) && InSignedRange(widthBytes, x.outcome.result.value)
    ensures x.outcome.Returned? && x.outcome.result.Ok? ==>
      Truncate(widthBytes, x.outcome.result.value)
      == Truncate(widthBytes, ReceiveReadI64PacketResponse.Deserialize(reply).value.value)
  {
    var sent := RequestReadI64MemoryPacket.Serialize(address, widthBytes);
    match ReceiveReadI64PacketResponse.Deserialize(reply)
    case None => Exchange(sent, Panicked)
    case Some(p) =>
      if IsWidth(widthBytes) then
        SignedRange(widthBytes, Truncate(widthBytes, p.value));
        TruncateAsSigned(widthBytes, Truncate(widthBytes, p.value));
        TruncateTwice(widthBytes, p.value);
        Exchange(sent, Returned(Ok(AsSigned(widthBytes, Truncate(widthBytes, p.value)))))
      else Exchange(sent, Returned(Err(UnsupportedWidth())))
  }

  lemma SignedRange(n: nat, u: nat)
    requires u < Pow256(n)
    ensures InSignedRange(n, AsSigned(n, u))
  {
  }

  /** The server's unsigned reply read at a supported width: its value
      truncated to that width, as `value as uN` does. */
  lemma {:induction false} ReadUnsignedOfReply(address: u64, widthBytes: byte, value: u64)
    ensures ReadUnsigned(address, widthBytes, ReceiveReadU64PacketResponse.Serialize(value)).outcome
         == Returned(if IsWidth(widthBytes) then Ok(value % Pow256(widthBytes)) else Err(UnsupportedWidth()))
  {
    ReadU64ResponseRoundTrip(value, []);
    assert ReceiveReadU64PacketResponse.Serialize(value) + [] == ReceiveReadU64PacketResponse.Serialize(value);
  }

  /** The server's signed reply read at any width: the low `widthBytes`
      bytes of the value, sign-extended, as `value as iN` does; InvalidInput
      for an unsupported width. */
  lemma {:induction false} ReadSignedOfReply(address: u64, widthBytes: byte, value: i64)
    ensures ReadSigned(address, widthBytes, ReceiveReadI64PacketResponse.Serialize(value)).outcome
         == Returned(if IsWidth(widthBytes) then Ok(AsSigned(widthBytes, Truncate(widthBytes, value)))
                     else Err(UnsupportedWidth()))
  {
    ReadI64ResponseRoundTrip(value, []);
    assert ReceiveReadI64PacketResponse.Serialize(value) + [] == ReceiveReadI64PacketResponse.Serialize(value);
  }

  /** A value that fits the width comes back whole. */
  lemma ReadSignedOfReplyInRange(address: u64, widthBytes: byte, value: i64)
    requires IsWidth(widthBytes) && InSignedRange(widthBytes, value)
    ensures ReadSigned(address, widthBytes, ReceiveReadI64PacketResponse.Serialize(value)).outcome
         == Returned(Ok(value))
  {
    ReadSignedOfReply(address, widthBytes, value);
    SignedRoundTrip(widthBytes, value);
  }

  /** A value that does not fit wraps: 200 read as an `i8` is -56. */
  lemma ReadI8Wraps(address: u64, value: i64)
    requires value == 200
    ensures ReadSigned(address, 1, ReceiveReadI64PacketResponse.Serialize(value)).outcome == Returned(Ok(-56))
  {
    ReadSignedOfReply(address, 1, value);
    ByteOf200(value);
  }

  lemma ByteOf200(value: int)
    requires value == 200
    ensures AsSigned(1, Truncate(1, value)) == -56
  {
    assert Pow256(1) == 256;
  }

  /** An error reply is text starting with 'E', not a packet: the client's
      decode of it panics. */
  lemma ErrorTextPanicsClient(address: u64, widthBytes: byte, message: seq<byte>)
    ensures ReadUnsigned(address, widthBytes, Ascii("Error: ") + message).outcome == Panicked
    ensures ReadSigned(address, widthBytes, Ascii("Error: ") + message).outcome == Panicked
  {
    assert (Ascii("Error: ") + message)[0] == 'E' as int;
  }

  // ---- the fixed-width readers ----

  function ReadU8(address: u64, reply: seq<byte>): (x: Exchange<nat>)
    ensures x.sent == RequestReadU64MemoryPacket.Serialize(address, 1)
    ensures x.outcome.Returned? ==> x.outcome.result.Ok? && x.outcome.result.value < 0x100
  {
    Pow256Widths();
    ReadUnsigned(address, 1, reply)
  }

  function ReadU16(address: u64, reply: seq<byte>): (x: Exchange<nat>)
    ensures x.sent == RequestReadU64MemoryPacket.Serialize(address, 2)
    ensures x.outcome.Returned? ==> x.outcome.result.Ok? && x.outcome.result.value < 0x1_0000
  {
    Pow256Widths();
    ReadUnsigned(address, 2, reply)
  }

  function ReadU32(address: u64, reply: seq<byte>): (x: Exchange<nat>)
    ensures x.sent == RequestReadU64MemoryPacket.Serialize(address, 4)
    ensures x.outcome.Returned? ==> x.outcome.result.Ok? && x.outcome.result.value < 0x1_0000_0000
  {
    Pow256Widths();
    ReadUnsigned(address, 4, reply)
  }

  function ReadU64(address: u64, reply: seq<byte>): (x: Exchange<nat>)
    ensures x.sent == RequestReadU64MemoryPacket.Serialize(address, 8)
    ensures x.outcome.Returned? ==> x.outcome.result.Ok? && x.outcome.result.value < 0x1_0000_0000_0000_0000
  {
    Pow256Widths();
    ReadUnsigned(address, 8, reply)
  }

  function ReadI8(address: u64, reply: seq<byte>): (x: Exchange<int>)
    ensures x.sent == RequestReadI64MemoryPacket.Serialize(address, 1)
    ensures x.outcome.Returned? ==> x.outcome.result.Ok? && -0x80 <= x.outcome.result.value < 0x80
  {
    Pow256Widths();
    ReadSigned(address, 1, reply)
  }

  function ReadI16(address: u64, reply: seq<byte>): (x: Exchange<int>)
    ensures x.sent == RequestReadI64MemoryPacket.Serialize(address, 2)
    ensures x.outcome.Returned? ==> x.outcome.result.Ok? && -0x8000 <= x.outcome.result.value < 0x8000
  {
    Pow256Widths();
    ReadSigned(address, 2, reply)
  }

  function ReadI32(address: u64, reply: seq<byte>): (x: Exchange<int>)
    ensures x.sent == RequestReadI64MemoryPacket.Serialize(address, 4)
    ensures x.outcome.Returned? ==> x.outcome.result.Ok? && -0x8000_0000 <= x.outcome.result.value < 0x8000_0000
  {
    Pow256Widths();
    ReadSigned(address, 4, reply)
  }

  function ReadI64(address: u64, reply: seq<byte>): (x: Exchange<int>)
    ensures x.sent == RequestReadI64MemoryPacket.Serialize(address, 8)
    ensures x.outcome.Returned? ==>
      x.outcome.result.Ok? && -0x8000_0000_0000_0000 <= x.outcome.result.value < 0x8000_0000_0000_0000
  {
    Pow256Widths();
    ReadSigned(address, 8, reply)
  }

  /** `read_ptr`: a u64 read where 0 means no pointer. */
  function ReadPtr(address: u64, reply: seq<byte>): (x: Exchange<Option<nat>>)
    ensures x.sent == ReadU64(address, reply).sent
    ensures x.outcome.Panicked? <==> ReadU64(address, reply).outcome.Panicked?
    ensures x.outcome.Returned? ==>
      && x.outcome.result.Ok?
      && (x.outcome.result.value.None? <==> ReadU64(address, reply).outcome.result.value == 0)
      && (x.outcome.result.value.Some? ==> x.outcome.result.value.value == ReadU64(address, reply).outcome.result.value)
  {
    var r := ReadU64(address, reply);
    Exchange(r.sent, NonNull(r.outcome))
  }

  /** The `if value == 0` of `read_ptr`, applied to what the u64 read gave. */
  function NonNull(o: Outcome<nat>): (r: Outcome<Option<nat>>)
    requires o.Returned? ==> o.result.Ok?
  {
    match o
    case Panicked => Panicked
    case Returned(res) => if res.value == 0 then Returned(Ok(None)) else Returned(Ok(Some(res.value)))
  }

  /** `write`: the write request, and the `bytes_written` of the reply. */
  function Write(address: u64, data: seq<byte>, reply: seq<byte>): (x: Exchange<u64>)
    ensures x.sent == C2SWriteMemoryPacket.OutBytes(address, data)
    ensures x.outcome.Panicked? <==> S2CWriteMemoryPacketResponse.Parse(reply).None?
    ensures x.outcome.Returned? ==> x.outcome.result == Ok(S2CWriteMemoryPacketResponse.Parse(reply).value.bytesWritten)
  {
    var sent := C2SWriteMemoryPacket.OutBytes(address, data);
    match S2CWriteMemoryPacketResponse.Parse(reply)
    case None => Exchange(sent, Panicked)
    case Some(p) => Exchange(sent, Returned(Ok(p.bytesWritten)))
  }

  /** Against the server's write reply, the client returns the count the server sent. */
  lemma WriteOfReply(address: u64, data: seq<byte>, bytesWritten: u64)
    ensures Write(address, data, S2CWriteMemoryPacketResponse.OutBytes(bytesWritten)).outcome
         == Returned(Ok(bytesWritten))
  {
    WriteResponseRoundTrip(bytesWritten, []);
    assert S2CWriteMemoryPacketResponse.OutBytes(bytesWritten) + [] == S2CWriteMemoryPacketResponse.OutBytes(bytesWritten);
  }

  /** Against the server's whole vector reply, the client returns the bytes
      the server read, for any length the count field can hold. This is the
      client that reads the reply to its end. */
  lemma ReadVecOfReply(address: u64, size: u32, data: seq<byte>)
    requires |data| < 0x1_0000_0000
    ensures ReadVec(address, size, ReceiveReadVecPacketResponse.Serialize(data)).outcome == Returned(Ok(data))
  {
    ReadVecResponseRoundTrip(data, []);
    assert ReceiveReadVecPacketResponse.Serialize(data) + [] == ReceiveReadVecPacketResponse.Serialize(data);
  }

  /** The buffer `send_packet` reads the reply into. */
  const RECEIVE_BUFFER_LEN: nat := 1026

  /** What one `stream.read` into that buffer can hand back: a prefix of the
      server's reply, at most `RECEIVE_BUFFER_LEN` bytes long. */
  predicate OneRead(reply: seq<byte>, received: seq<byte>)
  {
    |received| <= RECEIVE_BUFFER_LEN && received <= reply
  }

  /** A reply that fits the buffer and arrives in one read: the client gets
      the bytes the server read. */
  lemma ReadVecOfOneRead(address: u64, size: u32, data: seq<byte>, received: seq<byte>)
    requires |data| <= RECEIVE_BUFFER_LEN - 5
    requires OneRead(ReceiveReadVecPacketResponse.Serialize(data), received)
    requires |received| == 5 + |data|
    ensures ReadVec(address, size, received).outcome == Returned(Ok(data))
  {
    assert received == ReceiveReadVecPacketResponse.Serialize(data);
    ReadVecOfReply(address, size, data);
  }

  /** More than 1021 bytes never fit the buffer: whatever one read delivers,
      the count field asks for more bytes than arrived, and `read_vec`'s
      decode panics, even against a correct server. */
  lemma LongReadVecPanics(address: u64, size: u32, data: seq<byte>, received: seq<byte>)
    requires RECEIVE_BUFFER_LEN - 5 < |data| < 0x1_0000_0000
    requires OneRead(ReceiveReadVecPacketResponse.Serialize(data), received)
    ensures ReadVec(address, size, received).outcome == Panicked
  {
    var reply := ReceiveReadVecPacketResponse.Serialize(data);
    if |received| >= 5 {
      assert received[1..5] == reply[1..5] == U32Bytes(|data|);
      assert received[1..] == U32Bytes(|data|) + received[5..];
      ReadU32Of(|data|, received[5..]);
    }
  }

  /** `read_ptr` of a server reply: None exactly for a null pointer. */
  lemma ReadPtrOfReply(address: u64, value: u64)
    ensures ReadPtr(address, ReceiveReadU64PacketResponse.Serialize(value)).outcome
         == Returned(Ok(if value == 0 then None else Some(value)))
  {
    var reply := ReceiveReadU64PacketResponse.Serialize(value);
    ReadU64OfReply(address, value);
    assert ReadPtr(address, reply).outcome == NonNull(Returned(Ok(value)));
  }

  /** The full-width unsigned read returns the server's value unchanged. */
  lemma ReadU64OfReply(address: u64, value: u64)
    ensures ReadU64(address, ReceiveReadU64PacketResponse.Serialize(value)).outcome == Returned(Ok(value))
  {
    var reply := ReceiveReadU64PacketResponse.Serialize(value);
    ReadU64ResponseRoundTrip(value, []);
    assert reply + [] == reply;
    Pow256Widths();
    assert Truncate(8, value) == value;
  }
}
