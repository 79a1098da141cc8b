/** `src/bin/vmsplice_yes.rs`: a 1 MiB pattern buffer aligned to its own
    size, spliced into the pipe on standard output until `vmsplice`
    fails. */
module VmspliceYes {
  import opened YesPattern
  import opened Sys
  import Layout
  import Transfer

  const N: nat := 1024 * 1024

  /** `main`: `Layout::from_size_align(N, N).unwrap()` (which cannot
      panic), an allocation of that layout, the in-place fill of the
      `N`-byte slice, `fcntl(1, F_SETPIPE_SZ, N)`, then `vmsplice(1,
      &iovec, 1, 0)` over the whole buffer until it answers -1, when `main`
      returns. The `fcntl` result is not looked at. */
  method Run(fcntlResult: int, results: seq<int>)
    returns (layout: Layout.Layout, returned: bool, trace: seq<Syscall>)
    ensures layout == Layout.Layout(N, N)
    ensures 1 <= |trace| <= |results| + 1
    ensures trace[0] == Fcntl(STDOUT, F_SETPIPE_SZ, N)
    ensures forall k :: 1 <= k < |trace| ==> trace[k] == Vmsplice(STDOUT, [Pattern(N)], 0)
    ensures forall k :: 0 <= k < |trace| - 2 ==> results[k] != -1
    ensures returned <==> -1 in results
    ensures returned ==> |trace| >= 2 && results[|trace| - 2] == -1
    ensures !returned ==> |trace| == |results| + 1
  {
    Layout.MiBIsPow2();
    Layout.SelfAlignedPowerOfTwo(20);
    // `.unwrap()`: the verifier proves the `Some` case.
    layout := Layout.FromSizeAlign(N, N).value;
    // `alloc(layout)`, seen through `from_raw_parts_mut(ptr, N)`.
    var yesArray := new bv8[layout.size];
    ghost var steps := FillYes(yesArray);
    trace := [Fcntl(STDOUT, F_SETPIPE_SZ, N)];
    assert yesArray[..N] == yesArray[..];
    var calls;
    calls, returned := Transfer.SpliceWhileNotFailed(STDOUT, IoVec(yesArray, N), 0, results);
    trace := trace + calls;
  }
}
