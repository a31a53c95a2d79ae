/** `shared/src/process.rs`: folding a `/proc/<pid>/maps` flag string into a
    4-bit mask, and turning each mapping into a protocol `Region`. */
module Process {
  import opened Wire
  import opened Records

  const READ: bv32 := 0x1
  const WRITE: bv32 := 0x2
  const EXECUTE: bv32 := 0x4
  const PRIVATE: bv32 := 0x8

  /** The bit one flag character contributes: 'r', 'w', 'x', 'p' set bits
      0 to 3, and every other character contributes nothing. */
  function FlagOf(ch: char): bv32
  {
    match ch
    case 'r' => READ
    case 'w' => WRITE
    case 'x' => EXECUTE
    case 'p' => PRIVATE
    case _ => 0
  }

  /** The mask as a function of which letters occur, independent of the
      order in which a loop would meet them. */
  function Mask(s: string): (r: bv32)
    ensures r < 16
    ensures s == [] ==> r == 0
    ensures (r & READ != 0) <==> 'r' in s
    ensures (r & WRITE != 0) <==> 'w' in s
    ensures (r & EXECUTE != 0) <==> 'x' in s
    ensures (r & PRIVATE != 0) <==> 'p' in s
  {
    (if 'r' in s then READ else 0)
    | (if 'w' in s then WRITE else 0)
    | (if 'x' in s then EXECUTE else 0)
    | (if 'p' in s then PRIVATE else 0)
  }

  /** One more character adds exactly its own bit. */
  lemma MaskSnoc(s: string, ch: char)
    ensures Mask(s + [ch]) == Mask(s) | FlagOf(ch)
  {
    assert forall c :: c in s + [ch] <==> c in s || c == ch;
  }

  /** `permissions_to_u32`: or-in the bit of each character in turn. */
  method PermissionsToU32(permissions: string) returns (result: bv32)
    ensures result == Mask(permissions)
  {
    result := 0;
    for i := 0 to |permissions|
      invariant result == Mask(permissions[..i])
    {
      MaskSnoc(permissions[..i], permissions[i]);
      assert permissions[..i + 1] == permissions[..i] + [permissions[i]];
      match permissions[i]
      case 'r' => result := result | READ;
      case 'w' => result := result | WRITE;
      case 'x' => result := result | EXECUTE;
      case 'p' => result := result | PRIVATE;
      case _ =>
    }
    assert permissions[..|permissions|] == permissions;
  }

  /** Order and repetition do not matter: strings with the same letters give the same mask. */
  lemma MaskIgnoresOrder(s: string, t: string)
    requires forall c :: c in s <==> c in t
    ensures Mask(s) == Mask(t)
  {
  }

  /** A character other than r, w, x, p changes nothing. */
  lemma MaskIgnoresOthers(s: string, ch: char)
    requires ch != 'r' && ch != 'w' && ch != 'x' && ch != 'p'
    ensures Mask(s + [ch]) == Mask(s)
  {
    MaskSnoc(s, ch);
  }

  /** The fields of one `proc_maps::MapRange` that `get_regions` reads.
      `filename` is None when the mapping has no path or the path is not
      valid UTF-8: both `unwrap`s panic there. */
  datatype MapRange = MapRange(
    start: u64,
    size: u64,
    flags: string,
    offset: u64,
    dev: seq<byte>,
    inode: u64,
    filename: Option<seq<byte>>)

  /** The closure in `get_regions`: one mapping as a `Region`. `end` is
      `start + size` in u64 arithmetic, which wraps on overflow. */
  function ToRegion(m: MapRange): (r: Option<Region>)
    ensures r.Some? <==> m.filename.Some?
    ensures r.Some? ==> r.value.start == m.start && r.value.size == m.size
    ensures r.Some? ==> r.value.offset == m.offset && r.value.inode == m.inode
    ensures r.Some? ==> r.value.end == (m.start + m.size) % 0x1_0000_0000_0000_0000
    ensures r.Some? && m.start + m.size < 0x1_0000_0000_0000_0000 ==> r.value.end == m.start + m.size
    ensures r.Some? ==> r.value.permissions < 16 && r.value.permissions == Mask(m.flags) as int
    ensures r.Some? ==> r.value.device.bytes == m.dev && r.value.pathname.bytes == m.filename.value
    ensures r.Some? && |m.dev| < 0x1_0000_0000 && |m.filename.value| < 0x1_0000_0000 ==> ValidRegion(r.value)
  {
    match m.filename
    case None => None
    case Some(path) =>
      Some(Region(
        m.start,
        (m.start + m.size) % 0x1_0000_0000_0000_0000,
        m.size,
        Mask(m.flags) as int,
        m.offset,
        NewEncodedString(m.dev),
        m.inode,
        NewEncodedString(path)))
  }

  /** `get_regions` after `get_process_maps` has returned `maps`: one
      Region per mapping, in order; None models the panic on a mapping
      without a usable file name. */
  function GetRegions(maps: seq<MapRange>): (r: Option<seq<Region>>)
    ensures r.Some? <==> forall i :: 0 <= i < |maps| ==> maps[i].filename.Some?
    ensures r.Some? ==> |r.value| == |maps|
    ensures r.Some? ==> forall i :: 0 <= i < |maps| ==> Some(r.value[i]) == ToRegion(maps[i])
  {
    if maps == [] then Some([])
    else
      var first :- ToRegion(maps[0]);
      var others :- GetRegions(maps[1..]);
      assert forall i :: 1 <= i < |maps| ==> maps[i] == maps[1..][i - 1];
      Some([first] + others)
  }
}
