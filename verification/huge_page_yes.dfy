/** `src/bin/huge_page_yes.rs`: a 2 MiB pattern buffer aligned to its own
    size, advised onto a huge page, spliced into the pipe on standard
    output until `vmsplice` fails. */
module HugePageYes {
  import opened YesPattern
  import opened Sys
  import Layout
  import Transfer

  const N: nat := 2 * 1024 * 1024

  /** The x86-64 huge-page size, `2^21` bytes. */
  const HUGE_PAGE: nat := Layout.Pow2(21)

  /** `main`: `Layout::from_size_align(N, N).unwrap()` (which cannot
      panic), an allocation of that layout, `madvise(ptr, N,
      MADV_HUGEPAGE)`, the in-place fill of the `N`-byte slice, `fcntl(1,
      F_SETPIPE_SZ, N)`, then `vmsplice(1, &iovec, 1, 0)` over the whole
      buffer until it answers -1, when `main` returns. The `madvise` and
      `fcntl` results are not looked at. */
  method Run(madviseResult: int, fcntlResult: int, results: seq<int>)
    returns (layout: Layout.Layout, returned: bool, trace: seq<Syscall>)
    ensures layout == Layout.Layout(N, N)
    ensures 2 <= |trace| <= |results| + 2
    ensures trace[0] == Madvise(N, MADV_HUGEPAGE)
    ensures trace[1] == Fcntl(STDOUT, F_SETPIPE_SZ, N)
    ensures forall k :: 2 <= k < |trace| ==> trace[k] == Vmsplice(STDOUT, [Pattern(N)], 0)
    ensures forall k :: 0 <= k < |trace| - 3 ==> results[k] != -1
    ensures returned <==> -1 in results
    ensures returned ==> |trace| >= 3 && results[|trace| - 3] == -1
    ensures !returned ==> |trace| == |results| + 2
  {
    Layout.TwoMiBIsPow2();
    Layout.SelfAlignedPowerOfTwo(21);
    // `.unwrap()`: the verifier proves the `Some` case.
    layout := Layout.FromSizeAlign(N, N).value;
    // `alloc(layout)`, seen through `from_raw_parts_mut(ptr, N)`.
    var yesArray := new bv8[layout.size];
    trace := [Madvise(N, MADV_HUGEPAGE)];
    ghost var steps := FillYes(yesArray);
    trace := trace + [Fcntl(STDOUT, F_SETPIPE_SZ, N)];
    assert yesArray[..N] == yesArray[..];
    var calls;
    calls, returned := Transfer.SpliceWhileNotFailed(STDOUT, IoVec(yesArray, N), 0, results);
    trace := trace + calls;
  }

  /** The buffer is a whole number of huge pages and ends in `y\n`. */
  lemma WholeHugePages()
    ensures N % HUGE_PAGE == 0
    ensures Pattern(N)[N - 2..] == YES
  {
    Layout.TwoMiBIsPow2();
    PatternEndsWithYes(N);
  }
}
