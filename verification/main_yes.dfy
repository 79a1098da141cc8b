/** `src/main.rs`: a 1 MiB constant pattern array handed to the pipe on
    standard output with `vmsplice`, forever. */
module MainYes {
  import opened YesPattern
  import opened Sys
  import Transfer

  const N: nat := 1024 * 1024

  /** `SPLICE_F_GIFT & SPLICE_F_NONBLOCK`, the flag argument as written: two
      distinct single bits share no bit, so it requests neither flag. */
  function SpliceFlags(): (f: bv32)
    ensures f == 0
    ensures f & SPLICE_F_GIFT == 0 && f & SPLICE_F_NONBLOCK == 0
  {
    SPLICE_F_GIFT & SPLICE_F_NONBLOCK
  }

  /** `SPLICE_F_GIFT | SPLICE_F_NONBLOCK`: both flags and no other bit. */
  function IntendedSpliceFlags(): (f: bv32)
    ensures f & SPLICE_F_GIFT == SPLICE_F_GIFT && f & SPLICE_F_NONBLOCK == SPLICE_F_NONBLOCK
    ensures f & !(SPLICE_F_GIFT | SPLICE_F_NONBLOCK) == 0
  {
    SPLICE_F_GIFT | SPLICE_F_NONBLOCK
  }

  /** `main`: asks for a pipe of `N` bytes, then splices `YES_ARRAY`
      through a one-segment iovec of length `N` forever, dropping every
      result. Neither the `fcntl` result nor any `vmsplice` result changes
      what is issued next. */
  method Run(fcntlResult: int, results: seq<int>) returns (trace: seq<Syscall>)
    ensures |trace| == |results| + 1
    ensures trace[0] == Fcntl(STDOUT, F_SETPIPE_SZ, N)
    ensures forall k :: 1 <= k < |trace| ==> trace[k] == Vmsplice(STDOUT, [Pattern(N)], 0)
  {
    // `YES_ARRAY`, computed once by `create_yes_array` and never written.
    var yesArray := CreateYesArray(N);
    // `fcntl(1, F_SETPIPE_SZ, N)` is advisory: `fcntlResult` is not looked at.
    trace := [Fcntl(STDOUT, F_SETPIPE_SZ, N)];
    var iovec := IoVec(yesArray, N);
    assert yesArray[..N] == yesArray[..];
    var calls := Transfer.SpliceDiscardingResults(STDOUT, iovec, SpliceFlags(), results);
    trace := trace + calls;
  }
}
