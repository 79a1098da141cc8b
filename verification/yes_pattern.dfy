/** The output unit of every variant, the two bytes `y` and newline, and the
    buffer that holds it repeated end to end. */
module YesPattern {

  /** `YES[0]`, ASCII `y`. */
  const Y: bv8 := 0x79

  /** `YES[1]`, ASCII line feed. */
  const NL: bv8 := 0x0A

  /** `const YES: [u8; 2] = *b"y\n"` */
  const YES: seq<bv8> := [Y, NL]

  /** The byte the endless output `y\ny\n...` holds at position `j`. */
  function YesAt(j: int): bv8 {
    if j % 2 == 0 then Y else NL
  }

  /** The first `n` bytes of the endless output: the reference every buffer
      and every emitted stream is compared with. */
  function Pattern(n: nat): seq<bv8> {
    seq(n, j => YesAt(j))
  }

  /** `s.repeat(k)`: `k` copies of `s` end to end. */
  function Repeat(s: seq<bv8>, k: nat): (r: seq<bv8>)
    ensures |r| == |s| * k
  {
    if k == 0 then [] else s + Repeat(s, k - 1)
  }

  /** A prefix of the endless output is the shorter prefix. */
  lemma PatternPrefix(n: nat, m: nat)
    requires n <= m
    ensures Pattern(m)[..n] == Pattern(n)
  {
  }

  /** Two prefixes glue into one when the first ends on a line boundary. */
  lemma PatternConcat(m: nat, n: nat)
    requires m % 2 == 0
    ensures Pattern(m) + Pattern(n) == Pattern(m + n)
  {
    forall j | m <= j < m + n
      ensures (Pattern(m) + Pattern(n))[j] == Pattern(m + n)[j]
    {
      var h := m / 2;
      assert j == (j - m) + 2 * h;
      assert YesAt(j - m) == YesAt(j);
    }
  }

  /** `YES` repeated `k` times is the first `2k` bytes of the endless output. */
  lemma {:induction false} RepeatYesIsPattern(k: nat)
    ensures Repeat(YES, k) == Pattern(2 * k)
  {
    if k > 0 {
      RepeatYesIsPattern(k - 1);
      assert YES == Pattern(2);
      PatternConcat(2, 2 * (k - 1));
    }
  }

  /** Reading `2k` bytes of a stream that follows the pattern yields exactly
      `k` lines `y\n`. */
  lemma EvenPrefixIsLines(s: seq<bv8>, k: nat)
    requires s == Pattern(|s|)
    requires 2 * k <= |s|
    ensures s[..2 * k] == Repeat(YES, k)
  {
    PatternPrefix(2 * k, |s|);
    RepeatYesIsPattern(k);
  }

  /** A buffer of even length that follows the pattern ends in `y\n`. */
  lemma PatternEndsWithYes(n: nat)
    requires n >= 2 && n % 2 == 0
    ensures Pattern(n)[n - 2..] == YES
  {
    assert (n - 2) % 2 == 0;
  }

  /** The fill loop of `create_yes_array` and of the slice variants: `i`
      steps by 2, writing `YES[0]` at `i` and `YES[1]` at `i + 1`, until
      `i` reaches the length. The length must be even, or `a[i + 1]` is out
      of bounds on the last step. Whatever `a` held before, it ends up
      holding the pattern, after exactly `a.Length / 2` steps. */
  method FillYes(a: array<bv8>) returns (ghost steps: nat)
    requires a.Length % 2 == 0
    modifies a
    ensures a[..] == Pattern(a.Length)
    ensures steps == a.Length / 2
  {
    var i := 0;
    steps := 0;
    while i < a.Length
      invariant 0 <= i <= a.Length && i % 2 == 0
      invariant steps == i / 2
      invariant a[..i] == Pattern(i)
    {
      a[i] := YES[0];
      a[i + 1] := YES[1];
      assert a[..i + 2] == a[..i] + YES;
      PatternConcat(i, 2);
      i := i + 2;
      steps := steps + 1;
    }
    assert a[..] == a[..i];
  }

  /** `create_yes_array`: `[0; n]` filled by `FillYes`. */
  method CreateYesArray(n: nat) returns (res: array<bv8>)
    requires n % 2 == 0
    ensures fresh(res)
    ensures res[..] == Pattern(n)
  {
    res := new bv8[n](_ => 0);
    ghost var steps := FillYes(res);
  }
}
