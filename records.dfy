/** The nested records that both protocol modules lay out the same way:
    `EncodedString`, `ProcessEntry`, `Region`, and deku's `count`-prefixed
    vectors of them. */
module Records {
  import opened Wire

  /** A `u32` length followed by that many bytes (the UTF-8 of a Rust `String`). */
  datatype EncodedString = EncodedString(length: u32, bytes: seq<byte>)

  /** The length field agrees with the payload; deku writes both fields as they are. */
  predicate Consistent(e: EncodedString)
  {
    e.length == |e.bytes|
  }

  /** `EncodedString::new`: the bytes of the string, and their count as `u32`. */
  function NewEncodedString(s: seq<byte>): (r: EncodedString)
    ensures r.bytes == s
    ensures |s| < 0x1_0000_0000 ==> Consistent(r)
  {
    EncodedString(LenAsU32(|s|), s)
  }

  function EncodeString(e: EncodedString): seq<byte>
  {
    U32Bytes(e.length) + e.bytes
  }

  function DecodeString(s: seq<byte>): Option<(EncodedString, seq<byte>)>
  {
    var len :- ReadU32(s);
    var body :- ReadBytes(len.0, len.1);
    Some((EncodedString(len.0, body.0), body.1))
  }

  lemma DecodeEncodeString(e: EncodedString, rest: seq<byte>)
    requires Consistent(e)
    ensures DecodeString(EncodeString(e) + rest) == Some((e, rest))
  {
    var s := EncodeString(e) + rest;
    assert s == U32Bytes(e.length) + (e.bytes + rest);
    ReadU32Of(e.length, e.bytes + rest);
    assert ReadU32(s) == Some((e.length, e.bytes + rest));
    ReadBytesOf(e.bytes, rest);
  }

  /** Whatever decodes is consistent, and re-encoding it gives back the bytes consumed. */
  lemma EncodeDecodeString(s: seq<byte>)
    requires DecodeString(s).Some?
    ensures Consistent(DecodeString(s).value.0)
    ensures EncodeString(DecodeString(s).value.0) + DecodeString(s).value.1 == s
  {
    ReadU32Exact(s);
    var len := ReadU32(s).value;
    var body := ReadBytes(len.0, len.1).value;
    assert U32Bytes(len.0) + (body.0 + body.1) == s;
  }

  /** One entry of the process list. */
  datatype ProcessEntry = ProcessEntry(name: EncodedString, pid: i32)

  predicate ValidProcess(p: ProcessEntry)
  {
    Consistent(p.name)
  }

  function EncodeProcess(p: ProcessEntry): seq<byte>
  {
    EncodeString(p.name) + I32Bytes(p.pid)
  }

  function DecodeProcess(s: seq<byte>): Option<(ProcessEntry, seq<byte>)>
  {
    var name :- DecodeString(s);
    var pid :- ReadI32(name.1);
    Some((ProcessEntry(name.0, pid.0), pid.1))
  }

  lemma DecodeEncodeProcess(p: ProcessEntry, rest: seq<byte>)
    requires ValidProcess(p)
    ensures DecodeProcess(EncodeProcess(p) + rest) == Some((p, rest))
  {
    assert EncodeProcess(p) + rest == EncodeString(p.name) + (I32Bytes(p.pid) + rest);
    DecodeEncodeString(p.name, I32Bytes(p.pid) + rest);
    ReadI32Of(p.pid, rest);
  }

  /** One memory mapping of the target process, as sent to the client. */
  datatype Region = Region(
    start: u64,
    end: u64,
    size: u64,
    permissions: byte,
    offset: u64,
    device: EncodedString,
    inode: u64,
    pathname: EncodedString)

  predicate ValidRegion(r: Region)
  {
    Consistent(r.device) && Consistent(r.pathname)
  }

  function EncodeRegion(r: Region): seq<byte>
  {
    U64Bytes(r.start) + (U64Bytes(r.end) + (U64Bytes(r.size) + (U8Bytes(r.permissions)
    + (U64Bytes(r.offset) + (EncodeString(r.device) + (U64Bytes(r.inode) + EncodeString(r.pathname)))))))
  }

  function DecodeRegion(s: seq<byte>): Option<(Region, seq<byte>)>
  {
    var start :- ReadU64(s);
    var end :- ReadU64(start.1);
    var size :- ReadU64(end.1);
    var permissions :- ReadU8(size.1);
    var offset :- ReadU64(permissions.1);
    var device :- DecodeString(offset.1);
    var inode :- ReadU64(device.1);
    var pathname :- DecodeString(inode.1);
    Some((Region(start.0, end.0, size.0, permissions.0, offset.0, device.0, inode.0, pathname.0), pathname.1))
  }

  lemma DecodeEncodeRegion(r: Region, rest: seq<byte>)
    requires ValidRegion(r)
    ensures DecodeRegion(EncodeRegion(r) + rest) == Some((r, rest))
  {
    // the encoding with `rest` appended, one field at a time from the back
    var u6 := U64Bytes(r.inode) + EncodeString(r.pathname);
    var u5 := EncodeString(r.device) + u6;
    var u4 := U64Bytes(r.offset) + u5;
    var u3 := U8Bytes(r.permissions) + u4;
    var u2 := U64Bytes(r.size) + u3;
    var u1 := U64Bytes(r.end) + u2;
    var t7 := EncodeString(r.pathname) + rest;
    var t6 := U64Bytes(r.inode) + t7;
    assert u6 + rest == t6;
    var t5 := EncodeString(r.device) + t6;
    assert u5 + rest == t5;
    var t4 := U64Bytes(r.offset) + t5;
    assert u4 + rest == t4;
    var t3 := U8Bytes(r.permissions) + t4;
    assert u3 + rest == t3;
    var t2 := U64Bytes(r.size) + t3;
    assert u2 + rest == t2;
    var t1 := U64Bytes(r.end) + t2;
    assert u1 + rest == t1;
    assert EncodeRegion(r) + rest == U64Bytes(r.start) + t1;
    ReadU64Of(r.start, t1);
    ReadU64Of(r.end, t2);
    ReadU64Of(r.size, t3);
    ReadU8Of(r.permissions, t4);
    ReadU64Of(r.offset, t5);
    DecodeEncodeString(r.device, t6);
    ReadU64Of(r.inode, t7);
    DecodeEncodeString(r.pathname, rest);
  }

  // ---- `#[deku(count = "count")] Vec<T>`: the elements back to back, no separator ----

  function EncodeList<T>(xs: seq<T>, encode: T -> seq<byte>): seq<byte>
  {
    if xs == [] then [] else encode(xs[0]) + EncodeList(xs[1..], encode)
  }

  /** Decodes exactly n elements, leaving the rest unread. */
  function DecodeList<T>(n: nat, s: seq<byte>, decode: seq<byte> -> Option<(T, seq<byte>)>)
    : (r: Option<(seq<T>, seq<byte>)>)
    ensures r.Some? ==> |r.value.0| == n
  {
    if n == 0 then Some(([], s))
    else
      var first :- decode(s);
      var others :- DecodeList(n - 1, first.1, decode);
      Some(([first.0] + others.0, others.1))
  }

  /** If every element decodes back from its encoding, so does the whole vector. */
  lemma {:induction false} DecodeEncodeList<T>(
    xs: seq<T>, rest: seq<byte>,
    encode: T -> seq<byte>, decode: seq<byte> -> Option<(T, seq<byte>)>)
    requires forall i, tail :: 0 <= i < |xs| ==> decode(encode(xs[i]) + tail) == Some((xs[i], tail))
    ensures DecodeList(|xs|, EncodeList(xs, encode) + rest, decode) == Some((xs, rest))
  {
    if xs != [] {
      var tail := EncodeList(xs[1..], encode) + rest;
      assert EncodeList(xs, encode) + rest == encode(xs[0]) + tail;
      assert decode(encode(xs[0]) + tail) == Some((xs[0], tail));
      forall i, t | 0 <= i < |xs[1..]|
        ensures decode(encode(xs[1..][i]) + t) == Some((xs[1..][i], t))
      {
        assert xs[1..][i] == xs[i + 1];
      }
      DecodeEncodeList(xs[1..], rest, encode, decode);
      assert DecodeList(|xs| - 1, tail, decode) == Some((xs[1..], rest));
      assert [xs[0]] + xs[1..] == xs;
      calc {
        DecodeList(|xs|, EncodeList(xs, encode) + rest, decode);
        DecodeList(|xs|, encode(xs[0]) + tail, decode);
        Some(([xs[0]] + xs[1..], rest));
      }
    } else {
      assert EncodeList(xs, encode) + rest == rest;
    }
  }

  lemma DecodeEncodeRegions(rs: seq<Region>, rest: seq<byte>)
    requires forall i :: 0 <= i < |rs| ==> ValidRegion(rs[i])
    ensures DecodeList(|rs|, EncodeList(rs, EncodeRegion) + rest, DecodeRegion) == Some((rs, rest))
  {
    forall i, tail | 0 <= i < |rs|
      ensures DecodeRegion(EncodeRegion(rs[i]) + tail) == Some((rs[i], tail))
    {
      DecodeEncodeRegion(rs[i], tail);
    }
    DecodeEncodeList(rs, rest, EncodeRegion, DecodeRegion);
  }

  lemma DecodeEncodeProcesses(ps: seq<ProcessEntry>, rest: seq<byte>)
    requires forall i :: 0 <= i < |ps| ==> ValidProcess(ps[i])
    ensures DecodeList(|ps|, EncodeList(ps, EncodeProcess) + rest, DecodeProcess) == Some((ps, rest))
  {
    forall i, tail | 0 <= i < |ps|
      ensures DecodeProcess(EncodeProcess(ps[i]) + tail) == Some((ps[i], tail))
    {
      DecodeEncodeProcess(ps[i], tail);
    }
    DecodeEncodeList(ps, rest, EncodeProcess, DecodeProcess);
  }
}
