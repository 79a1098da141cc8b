/** The system calls the program makes, as values. Nothing here runs: a
    variant's `Run` records the calls it issues in a trace, and what the
    kernel answers is an oracle the caller supplies. */
module Sys {

  /** The standard output descriptor every variant writes to. */
  const STDOUT: int := 1

  /** `F_SETPIPE_SZ` (Linux `F_LINUX_SPECIFIC_BASE + 7`). */
  const F_SETPIPE_SZ: int := 1031

  /** `MADV_HUGEPAGE` on Linux. */
  const MADV_HUGEPAGE: int := 14

  /** `EINTR`, the error a write interrupted by a signal reports. */
  const EINTR: nat := 4

  /** The `vmsplice` flag bits of Linux `<fcntl.h>`, as `c_uint`. */
  const SPLICE_F_NONBLOCK: bv32 := 2
  const SPLICE_F_GIFT: bv32 := 8

  /** A `struct iovec`: `len` bytes starting at `base`. */
  datatype IoVec = IoVec(base: array<bv8>, len: nat)

  /** One system call as issued. `Write` carries the bytes offered (its
      count is their length); `Vmsplice` carries the bytes each segment of
      its iovec array describes. */
  datatype Syscall =
    | Write(fd: int, bytes: seq<bv8>)
    | Vmsplice(fd: int, segments: seq<seq<bv8>>, flags: bv32)
    | Fcntl(fd: int, cmd: int, arg: int)
    | Madvise(len: nat, advice: int)

  /** The kernel's answer to one write: `Wrote(n)` takes the first `n`
      bytes offered (all of them when `n` is larger), `Errno(code)` takes
      none. */
  datatype WriteResult = Wrote(n: nat) | Errno(code: nat)

  /** The bytes the kernel takes from `offered` when it answers `r`. */
  function Taken(offered: seq<bv8>, r: WriteResult): (t: seq<bv8>)
    ensures t <= offered
    ensures r.Errno? ==> t == []
    ensures r.Wrote? ==> |t| == if r.n < |offered| then r.n else |offered|
  {
    match r
    case Wrote(n) => if n < |offered| then offered[..n] else offered
    case Errno(_) => []
  }
}
