/** `service/src/memory.rs`: reading and writing another process's memory.
    The `process_vm_readv` / `process_vm_writev` system calls are oracles:
    function parameters that, given the pid, the remote address and the
    transfer, return what the call returned, the `errno` afterwards with its
    description, and what the call left in the local buffer. */
module Memory {
  import opened Wire
  import opened Io

  /** One system call: its `ssize_t` return, `errno` and its text, and the
      local buffer as the kernel left it. */
  datatype Syscall<T> = Syscall(ret: i64, errno: i32, description: seq<byte>, filled: T)

  /** `bytes as usize != size`: the cast reinterprets a negative return. */
  predicate Transferred(ret: i64, size: u64)
  {
    ret % 0x1_0000_0000_0000_0000 == size
  }

  function PidNotSet(): IoError
  {
    IoError(Other, Ascii("PID not set!"))
  }

  function Partial(what: string): IoError
    requires what == "read" || what == "write"
  {
    IoError(Other, Ascii("Partial " + what + " occurred!"))
  }

  /** `format!("Error {}: {}", e.0, e)` for the `errno` left by a failed call. */
  function OsError<T>(t: Syscall<T>): IoError
  {
    IoError(Other, Ascii("Error ") + Decimal(t.errno) + Ascii(": ") + t.description)
  }

  /** The classification every real call ends with: -1 is an OS error, a
      count other than the size asked for is a partial transfer, anything
      else is success with `value`. */
  function Classify<T, U>(t: Syscall<T>, size: u64, partial: IoError, value: U): (r: Result<U>)
    ensures r == Ok(value) <==> t.ret != -1 && Transferred(t.ret, size)
    ensures t.ret == -1 ==> r == Err(OsError(t))
    ensures t.ret != -1 && !Transferred(t.ret, size) ==> r == Err(partial)
  {
    if t.ret == -1 then Err(OsError(t))
    else if !Transferred(t.ret, size) then Err(partial)
    else Ok(value)
  }

  // ---- what each call returns, as a function of the pid and the oracle ----
  // Each function below is the specification of one `Memory` method further
  // down: the method runs the source's early-return chain step by step and
  // is proved to compute exactly the function, which carries the properties.

  /** `read_u64` / `read_i64`: pid guard, then the size bound, then one call. */
  function ReadScalarResult<T>(
    pid: i32, address: u64, size: u64, tooLarge: seq<byte>,
    readv: (i32, u64, u64) -> Syscall<T>): (r: Result<T>)
    ensures pid == -1 ==> r == Err(PidNotSet())
    ensures pid != -1 && size > 8 ==> r == Err(IoError(Other, tooLarge))
    ensures r.Ok? <==> pid != -1 && size <= 8 && readv(pid, address, size).ret == size
    ensures r.Ok? ==> r.value == readv(pid, address, size).filled
  {
    if pid == -1 then Err(PidNotSet())
    else if size > 8 then Err(IoError(Other, tooLarge))
    else
      var t := readv(pid, address, size);
      Classify(t, size, Partial("read"), t.filled)
  }

  /** `read_vec`: pid guard, a zeroed buffer of `size` bytes, one call. */
  function ReadVecResult(pid: i32, address: u64, size: u64, readv: (i32, u64, seq<byte>) -> Syscall<seq<byte>>)
    : (r: Result<seq<byte>>)
    ensures pid == -1 ==> r == Err(PidNotSet())
    ensures r.Ok? <==> pid != -1 && readv(pid, address, Zeroes(size)).ret != -1
                       && Transferred(readv(pid, address, Zeroes(size)).ret, size)
    ensures r.Ok? ==> |r.value| == size
  {
    if pid == -1 then Err(PidNotSet())
    else
      var t := readv(pid, address, Zeroes(size));
      Classify(t, size, Partial("read"), Deposit(Zeroes(size), t.filled))
  }

  /** `write`: pid guard, one call over the whole buffer. */
  function WriteResult(pid: i32, address: u64, buffer: seq<byte>, writev: (i32, u64, seq<byte>) -> Syscall<()>)
    : (r: Result<nat>)
    requires |buffer| < 0x1_0000_0000_0000_0000
    ensures pid == -1 ==> r == Err(PidNotSet())
    ensures r.Ok? <==> pid != -1 && writev(pid, address, buffer).ret != -1
                       && Transferred(writev(pid, address, buffer).ret, |buffer|)
    ensures r.Ok? ==> r.value == |buffer|
  {
    if pid == -1 then Err(PidNotSet())
    else Classify(writev(pid, address, buffer), |buffer|, Partial("write"), |buffer|)
  }

  /** `vec![0; size]`. */
  function Zeroes(size: nat): (r: seq<byte>)
    ensures |r| == size && forall i :: 0 <= i < size ==> r[i] == 0
  {
    seq(size, _ => 0)
  }

  /** The local buffer after the kernel copied `data` into its front; the
      buffer keeps its length whatever the oracle returns. */
  function Deposit(buffer: seq<byte>, data: seq<byte>): (r: seq<byte>)
    ensures |r| == |buffer|
    ensures |data| <= |buffer| ==> r[..|data|] == data && r[|data|..] == buffer[|data|..]
    ensures |data| >= |buffer| ==> r == data[..|buffer|]
  {
    if |data| >= |buffer| then data[..|buffer|] else data + buffer[|data|..]
  }

  /** The guard comes before the system call: with no pid set, no oracle
      can influence the answer of any of the four operations. */
  lemma PidGuardPrecedesSyscall<T>(
    address: u64, size: u64, tooLarge: seq<byte>, buffer: seq<byte>,
    r1: (i32, u64, u64) -> Syscall<T>, r2: (i32, u64, u64) -> Syscall<T>,
    v1: (i32, u64, seq<byte>) -> Syscall<seq<byte>>, v2: (i32, u64, seq<byte>) -> Syscall<seq<byte>>,
    w1: (i32, u64, seq<byte>) -> Syscall<()>, w2: (i32, u64, seq<byte>) -> Syscall<()>)
    requires |buffer| < 0x1_0000_0000_0000_0000
    ensures ReadScalarResult(-1, address, size, tooLarge, r1) == ReadScalarResult(-1, address, size, tooLarge, r2)
    ensures ReadVecResult(-1, address, size, v1) == ReadVecResult(-1, address, size, v2) == Err(PidNotSet())
    ensures WriteResult(-1, address, buffer, w1) == WriteResult(-1, address, buffer, w2) == Err(PidNotSet())
  {
  }

  /** The size bound comes before the call as well, and after the pid guard. */
  lemma SizeGuardPrecedesSyscall<T>(
    pid: i32, address: u64, size: u64, tooLarge: seq<byte>,
    r1: (i32, u64, u64) -> Syscall<T>, r2: (i32, u64, u64) -> Syscall<T>)
    requires size > 8
    ensures ReadScalarResult(pid, address, size, tooLarge, r1) == ReadScalarResult(pid, address, size, tooLarge, r2)
    ensures ReadScalarResult(pid, address, size, tooLarge, r1)
         == if pid == -1 then Err(PidNotSet()) else Err(IoError(Other, tooLarge))
  {
  }

  /** A full read leaves in the buffer exactly the bytes the kernel copied. */
  lemma FullReadReturnsCopiedBytes(
    pid: i32, address: u64, size: u64, readv: (i32, u64, seq<byte>) -> Syscall<seq<byte>>)
    requires ReadVecResult(pid, address, size, readv).Ok?
    requires |readv(pid, address, Zeroes(size)).filled| == size
    ensures ReadVecResult(pid, address, size, readv).value == readv(pid, address, Zeroes(size)).filled
  {
    var t := readv(pid, address, Zeroes(size));
    assert Deposit(Zeroes(size), t.filled) == t.filled;
  }

  /** `Memory`: the pid whose memory the service reads; -1 means none yet. */
  class Memory {
    var pid: i32

    /** `Memory::new`. */
    constructor (pid: i32)
      ensures this.pid == pid
    {
      this.pid := pid;
    }

    /** `read_u64`: up to 8 bytes into a zeroed `u64`. */
    method ReadU64(address: u64, size: u64, readv: (i32, u64, u64) -> Syscall<u64>) returns (r: Result<u64>)
      ensures r == ReadScalarResult(pid, address, size, Ascii("Size is larger than u64!"), readv)
    {
      if pid == -1 {
        return Err(PidNotSet());
      }
      // the source's zeroed destination; the call replaces it as a whole
      var result: u64 := 0;
      if size > 8 {
        return Err(IoError(Other, Ascii("Size is larger than u64!")));
      }
      var t := readv(pid, address, size);
      result := t.filled;
      if t.ret == -1 {
        return Err(OsError(t));
      } else if !Transferred(t.ret, size) {
        return Err(Partial("read"));
      } else {
        return Ok(result);
      }
    }

    /** `read_i64`: up to 8 bytes into a zeroed `i64`. */
    method ReadI64(address: u64, size: u64, readv: (i32, u64, u64) -> Syscall<i64>) returns (r: Result<i64>)
      ensures r == ReadScalarResult(pid, address, size, Ascii("Size is larger than i64!"), readv)
    {
      if pid == -1 {
        return Err(PidNotSet());
      }
      // the source's zeroed destination; the call replaces it as a whole
      var result: i64 := 0;
      if size > 8 {
        return Err(IoError(Other, Ascii("Size is larger than i64!")));
      }
      var t := readv(pid, address, size);
      result := t.filled;
      if t.ret == -1 {
        return Err(OsError(t));
      } else if !Transferred(t.ret, size) {
        return Err(Partial("read"));
      } else {
        return Ok(result);
      }
    }

    /** `read_vec`: `size` bytes into a zeroed vector. */
    method ReadVec(address: u64, size: u64, readv: (i32, u64, seq<byte>) -> Syscall<seq<byte>>)
      returns (r: Result<seq<byte>>)
      ensures r == ReadVecResult(pid, address, size, readv)
    {
      if pid == -1 {
        return Err(PidNotSet());
      }
      var result := Zeroes(size);
      var t := readv(pid, address, result);
      result := Deposit(result, t.filled);
      if t.ret == -1 {
        return Err(OsError(t));
      } else if !Transferred(t.ret, size) {
        return Err(Partial("read"));
      } else {
        return Ok(result);
      }
    }

    /** `write`: the whole buffer at `address`. */
    method Write(address: u64, buffer: seq<byte>, writev: (i32, u64, seq<byte>) -> Syscall<()>)
      returns (r: Result<nat>)
      requires |buffer| < 0x1_0000_0000_0000_0000
      ensures r == WriteResult(pid, address, buffer, writev)
    {
      if pid == -1 {
        return Err(PidNotSet());
      }
      var size := |buffer|;
      var t := writev(pid, address, buffer);
      if t.ret == -1 {
        return Err(OsError(t));
      } else if !Transferred(t.ret, size) {
        return Err(Partial("write"));
      } else {
        return Ok(size);
      }
    }

    /** `read_vec` built with `fake_read_write`: `size` ones, no system call. */
    method FakeReadVec(address: u64, size: u64) returns (r: Result<seq<byte>>)
      ensures pid == -1 <==> r == Err(PidNotSet())
      ensures pid != -1 ==> r.Ok?
      ensures r.Ok? ==> |r.value| == size && forall i :: 0 <= i < size ==> r.value[i] == 1
    {
      if pid == -1 {
        return Err(PidNotSet());
      }
      var result := seq(size, _ => 1);
      return Ok(result);
    }

    /** `write` built with `fake_read_write`: claims the whole buffer. */
    method FakeWrite(address: u64, buffer: seq<byte>) returns (r: Result<nat>)
      ensures pid == -1 <==> r == Err(PidNotSet())
      ensures pid != -1 ==> r == Ok(|buffer|)
    {
      if pid == -1 {
        return Err(PidNotSet());
      }
      return Ok(|buffer|);
    }
  }
}
