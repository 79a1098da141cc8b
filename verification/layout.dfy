/** `core::alloc::Layout::from_size_align`, as the huge-page and vmsplice
    variants use it: a size and an alignment are accepted when the
    alignment is a power of two and the size, rounded up to a multiple of
    the alignment, does not exceed `isize::MAX` (64-bit target). */
module Layout {
  import opened Wrappers

  const ISIZE_MAX: nat := 0x7FFF_FFFF_FFFF_FFFF

  datatype Layout = Layout(size: nat, align: nat)

  /** The power-of-two test `from_size_align` applies to the alignment
      (`is_power_of_two`, a one-bit test in Rust), stated here by halving
      and tied to `2^k` by `PowerOfTwoIff`. */
  predicate IsPowerOfTwo(n: nat) {
    if n <= 1 then n == 1 else n % 2 == 0 && IsPowerOfTwo(n / 2)
  }

  /** `2^k`, the independent definition of a power of two. */
  function Pow2(k: nat): (p: nat)
    ensures p >= 1
  {
    if k == 0 then 1 else 2 * Pow2(k - 1)
  }

  /** Every number the halving test accepts is some `2^k`. */
  lemma {:induction false} PowerOfTwoIsPow2(n: nat)
    requires IsPowerOfTwo(n)
    ensures exists k: nat :: n == Pow2(k)
  {
    if n == 1 {
      assert n == Pow2(0);
    } else {
      PowerOfTwoIsPow2(n / 2);
      var k: nat :| n / 2 == Pow2(k);
      assert n == Pow2(k + 1);
    }
  }

  /** The halving test accepts every `2^k`. */
  lemma {:induction false} Pow2IsPowerOfTwo(k: nat)
    ensures IsPowerOfTwo(Pow2(k))
  {
    if k > 0 {
      Pow2IsPowerOfTwo(k - 1);
      assert Pow2(k) / 2 == Pow2(k - 1);
    }
  }

  /** The halving test accepts exactly the numbers `2^k`. */
  lemma PowerOfTwoIff(n: nat)
    ensures IsPowerOfTwo(n) <==> exists k: nat :: n == Pow2(k)
  {
    if IsPowerOfTwo(n) {
      PowerOfTwoIsPow2(n);
    }
    if exists k: nat :: n == Pow2(k) {
      var k: nat :| n == Pow2(k);
      Pow2IsPowerOfTwo(k);
    }
  }

  /** `Layout::from_size_align(size, align)`; `None` is its `LayoutError`. */
  function FromSizeAlign(size: nat, align: nat): (r: Option<Layout>)
    ensures r.Some? <==> (exists k: nat :: align == Pow2(k)) && size + (align - 1) <= ISIZE_MAX
    ensures r.Some? ==> r.value.size == size && r.value.align == align && r.value.align >= 1
  {
    PowerOfTwoIff(align);
    if IsPowerOfTwo(align) && size <= ISIZE_MAX - (align - 1) then Some(Layout(size, align)) else None
  }

  /** A buffer of `2^k` bytes aligned to its own size, as both variants ask
      for, is accepted whenever it fits in `isize`, so `.unwrap()` cannot
      panic. */
  lemma {:induction false} SelfAlignedPowerOfTwo(k: nat)
    requires 2 * Pow2(k) <= ISIZE_MAX + 1
    ensures FromSizeAlign(Pow2(k), Pow2(k)).Some?
  {
    assert exists j: nat :: Pow2(k) == Pow2(j);
  }

  /** Exponents add. */
  lemma {:induction false} Pow2Add(a: nat, b: nat)
    ensures Pow2(a + b) == Pow2(a) * Pow2(b)
  {
    if a > 0 {
      Pow2Add(a - 1, b);
    }
  }

  /** `2^10` is 1 KiB. */
  lemma KiBIsPow2()
    ensures Pow2(10) == 1024
  {
    Pow2Add(5, 5);
    assert Pow2(5) == 32;
  }

  /** `2^20` is the 1 MiB of `vmsplice_yes.rs`. */
  lemma MiBIsPow2()
    ensures Pow2(20) == 1024 * 1024
  {
    Pow2Add(10, 10);
    KiBIsPow2();
  }

  /** `2^21` is the 2 MiB of `huge_page_yes.rs`. */
  lemma TwoMiBIsPow2()
    ensures Pow2(21) == 2 * 1024 * 1024
  {
    Pow2Add(1, 20);
    MiBIsPow2();
  }
}
