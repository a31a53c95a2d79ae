/** Fixed-width integers as the Rust side declares them, and the big-endian
    byte layout that every packet uses (`#[deku(endian = "big")]`). */
module Wire {

  type byte = x: int | 0 <= x < 0x100
  type u32 = x: int | 0 <= x < 0x1_0000_0000
  type u64 = x: int | 0 <= x < 0x1_0000_0000_0000_0000
  type i32 = x: int | -0x8000_0000 <= x < 0x8000_0000
  type i64 = x: int | -0x8000_0000_0000_0000 <= x < 0x8000_0000_0000_0000

  /** Result of a decoder that may fail (deku's `from_bytes(..).unwrap()` panics there). */
  datatype Option<+T> = None | Some(value: T) {
    predicate IsFailure() { None? }
    function PropagateFailure<U>(): Option<U> requires None? { None }
    function Extract(): T requires Some? { value }
  }

  /** 256 to the power n: the number of values an n-byte field holds. */
  function Pow256(n: nat): (r: nat)
    ensures r > 0
  {
    if n == 0 then 1 else 256 * Pow256(n - 1)
  }

  lemma Pow256Widths()
    ensures Pow256(1) == 0x100 && Pow256(2) == 0x1_0000
    ensures Pow256(4) == 0x1_0000_0000 && Pow256(8) == 0x1_0000_0000_0000_0000
  {
    assert Pow256(2) == 256 * Pow256(1);
    assert Pow256(4) == 256 * (256 * Pow256(2));
    assert Pow256(8) == 256 * (256 * (256 * (256 * Pow256(4))));
  }

  /** `x as uN` for an N = 8n-bit target: keeps the low n bytes (two's complement for negatives). */
  function Truncate(n: nat, x: int): (r: nat)
    ensures r < Pow256(n)
  {
    x % Pow256(n)
  }

  /** Reads an n-byte unsigned value as the two's-complement signed value of that width. */
  function AsSigned(n: nat, u: nat): int
  {
    if 2 * u >= Pow256(n) then u - Pow256(n) else u
  }

  /** Signed values representable in n bytes. */
  predicate InSignedRange(n: nat, x: int)
  {
    -(Pow256(n) as int) <= 2 * x < Pow256(n)
  }

  /** The widths the protocol uses for integers: 1, 2, 4 and 8 bytes. */
  predicate IsWidth(n: nat)
  {
    n == 1 || n == 2 || n == 4 || n == 8
  }

  /** Truncation followed by sign extension is the identity on the signed range. */
  lemma SignedRoundTrip(n: nat, x: int)
    requires IsWidth(n) && InSignedRange(n, x)
    ensures AsSigned(n, Truncate(n, x)) == x
    ensures x >= 0 ==> Truncate(n, x) == x
  {
    Pow256Widths();
  }

  /** Sign extension keeps the low n bytes: truncating the signed value gives the bytes back. */
  lemma TruncateAsSigned(n: nat, u: nat)
    requires IsWidth(n) && u < Pow256(n)
    ensures Truncate(n, AsSigned(n, u)) == u
  {
    Pow256Widths();
  }

  /** Truncating twice is truncating once. */
  lemma TruncateTwice(n: nat, x: int)
    requires IsWidth(n)
    ensures Truncate(n, Truncate(n, x)) == Truncate(n, x)
  {
    Pow256Widths();
  }

  /** The n bytes of x, most significant first. */
  function ToBigEndian(n: nat, x: nat): (r: seq<byte>)
    requires x < Pow256(n)
    ensures |r| == n
    decreases n
  {
    if n == 0 then []
    else
      assert x / 256 < Pow256(n - 1);
      ToBigEndian(n - 1, x / 256) + [x % 256]
  }

  /** The value of a big-endian byte string. */
  function FromBigEndian(s: seq<byte>): (r: nat)
    ensures r < Pow256(|s|)
  {
    if s == [] then 0
    else
      var high := FromBigEndian(s[..|s| - 1]);
      assert high * 256 + s[|s| - 1] < Pow256(|s|) by {
        assert high <= Pow256(|s| - 1) - 1;
        assert high * 256 <= (Pow256(|s| - 1) - 1) * 256;
      }
      high * 256 + s[|s| - 1]
  }

  lemma {:induction false} FromToBigEndian(n: nat, x: nat)
    requires x < Pow256(n)
    ensures FromBigEndian(ToBigEndian(n, x)) == x
    decreases n
  {
    if n > 0 {
      var s := ToBigEndian(n, x);
      assert s[..n - 1] == ToBigEndian(n - 1, x / 256);
      FromToBigEndian(n - 1, x / 256);
    }
  }

  lemma {:induction false} ToFromBigEndian(s: seq<byte>)
    ensures ToBigEndian(|s|, FromBigEndian(s)) == s
  {
    if s != [] {
      var n := |s|;
      var high := FromBigEndian(s[..n - 1]);
      var x := FromBigEndian(s);
      assert x / 256 == high && x % 256 == s[n - 1];
      ToFromBigEndian(s[..n - 1]);
      assert s == s[..n - 1] + [s[n - 1]];
    }
  }

  // ---- field writers (deku's to_bytes for one primitive field) ----

  function U8Bytes(x: byte): seq<byte> { [x] }
  function U32Bytes(x: u32): seq<byte> { Pow256Widths(); ToBigEndian(4, x) }
  function U64Bytes(x: u64): seq<byte> { Pow256Widths(); ToBigEndian(8, x) }
  function I32Bytes(x: i32): seq<byte> { ToBigEndian(4, Truncate(4, x)) }
  function I64Bytes(x: i64): seq<byte> { ToBigEndian(8, Truncate(8, x)) }

  // ---- field readers (deku's from_bytes for one primitive field): value and unread rest ----

  /** Reads an n-byte big-endian unsigned field. */
  function ReadUnsigned(n: nat, s: seq<byte>): (r: Option<(nat, seq<byte>)>)
    ensures r.Some? <==> |s| >= n
    ensures r.Some? ==> r.value.0 < Pow256(n) && r.value.1 == s[n..]
  {
    if |s| < n then None else Some((FromBigEndian(s[..n]), s[n..]))
  }

  function ReadU8(s: seq<byte>): Option<(byte, seq<byte>)>
  {
    if |s| < 1 then None else Some((s[0], s[1..]))
  }

  function ReadU32(s: seq<byte>): Option<(u32, seq<byte>)>
  {
    Pow256Widths();
    var p :- ReadUnsigned(4, s);
    Some((p.0 as u32, p.1))
  }

  function ReadU64(s: seq<byte>): Option<(u64, seq<byte>)>
  {
    Pow256Widths();
    var p :- ReadUnsigned(8, s);
    Some((p.0 as u64, p.1))
  }

  function ReadI32(s: seq<byte>): Option<(i32, seq<byte>)>
  {
    Pow256Widths();
    var p :- ReadUnsigned(4, s);
    Some((AsSigned(4, p.0) as i32, p.1))
  }

  function ReadI64(s: seq<byte>): Option<(i64, seq<byte>)>
  {
    Pow256Widths();
    var p :- ReadUnsigned(8, s);
    Some((AsSigned(8, p.0) as i64, p.1))
  }

  /** `#[deku(count = "n")] Vec<u8>`: exactly n bytes, the rest left unread. */
  function ReadBytes(n: nat, s: seq<byte>): (r: Option<(seq<byte>, seq<byte>)>)
    ensures r.Some? <==> |s| >= n
    ensures r.Some? ==> |r.value.0| == n && r.value.0 + r.value.1 == s
  {
    if |s| < n then None else Some((s[..n], s[n..]))
  }

  // ---- each reader undoes its writer, whatever follows the field ----

  lemma ReadUnsignedOf(n: nat, x: nat, rest: seq<byte>)
    requires x < Pow256(n)
    ensures ReadUnsigned(n, ToBigEndian(n, x) + rest) == Some((x, rest))
  {
    var s := ToBigEndian(n, x) + rest;
    assert s[..n] == ToBigEndian(n, x);
    FromToBigEndian(n, x);
  }

  lemma ReadU8Of(x: byte, rest: seq<byte>)
    ensures ReadU8(U8Bytes(x) + rest) == Some((x, rest))
  {
  }

  lemma ReadU32Of(x: u32, rest: seq<byte>)
    ensures ReadU32(U32Bytes(x) + rest) == Some((x, rest))
  {
    Pow256Widths();
    ReadUnsignedOf(4, x, rest);
  }

  lemma ReadU64Of(x: u64, rest: seq<byte>)
    ensures ReadU64(U64Bytes(x) + rest) == Some((x, rest))
  {
    Pow256Widths();
    ReadUnsignedOf(8, x, rest);
  }

  lemma ReadI32Of(x: i32, rest: seq<byte>)
    ensures ReadI32(I32Bytes(x) + rest) == Some((x, rest))
  {
    Pow256Widths();
    ReadUnsignedOf(4, Truncate(4, x), rest);
    SignedRoundTrip(4, x);
  }

  lemma ReadI64Of(x: i64, rest: seq<byte>)
    ensures ReadI64(I64Bytes(x) + rest) == Some((x, rest))
  {
    Pow256Widths();
    ReadUnsignedOf(8, Truncate(8, x), rest);
    SignedRoundTrip(8, x);
  }

  lemma ReadBytesOf(b: seq<byte>, rest: seq<byte>)
    ensures ReadBytes(|b|, b + rest) == Some((b, rest))
  {
    assert (b + rest)[..|b|] == b;
    assert (b + rest)[|b|..] == rest;
  }

  /** The converse direction: a successful read consumed exactly the bytes its writer produces. */
  lemma ReadUnsignedExact(n: nat, s: seq<byte>)
    requires ReadUnsigned(n, s).Some?
    ensures ToBigEndian(n, ReadUnsigned(n, s).value.0) + ReadUnsigned(n, s).value.1 == s
  {
    ToFromBigEndian(s[..n]);
    assert s[..n] + s[n..] == s;
  }

  lemma ReadU32Exact(s: seq<byte>)
    requires ReadU32(s).Some?
    ensures U32Bytes(ReadU32(s).value.0) + ReadU32(s).value.1 == s
  {
    Pow256Widths();
    ReadUnsignedExact(4, s);
  }

  // ---- `as u32` on a Rust length, and text as UTF-8 bytes ----

  /** `x.len() as u32`: wraps modulo 2^32. */
  function LenAsU32(n: nat): (r: u32)
    ensures n < 0x1_0000_0000 ==> r == n
  {
    n % 0x1_0000_0000
  }

  /** The UTF-8 bytes of a literal made of ASCII characters (one byte each). */
  function Ascii(s: string): (r: seq<byte>)
    ensures |r| == |s|
    ensures forall i :: 0 <= i < |s| && s[i] as int < 0x80 ==> r[i] == s[i] as int
  {
    seq(|s|, i requires 0 <= i < |s| => s[i] as int % 0x100)
  }

  /** `format!("{}", n)` for an integer: optional '-' and decimal digits. */
  function Decimal(n: int): seq<byte>
  {
    if n < 0 then [0x2D] + Digits(-n) else Digits(n)
  }

  function Digits(n: nat): seq<byte>
  {
    if n < 10 then [0x30 + n] else Digits(n / 10) + [0x30 + n % 10]
  }
}
