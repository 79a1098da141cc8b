/** `src/bin/buffer_yes.rs`: a 4096-byte buffer built with `repeat`,
    written with `write_all` on the locked standard output until a write
    fails, when `main` returns that error. */
module BufferYes {
  import opened Wrappers
  import opened YesPattern
  import opened Sys

  const BUFFER_SIZE: nat := 4 * 1024

  /** `b"y\n".repeat(BUFFER_SIZE / 2)` */
  function Buffer(): (b: seq<bv8>)
    ensures |b| == BUFFER_SIZE
    ensures b == Pattern(BUFFER_SIZE)
  {
    RepeatYesIsPattern(BUFFER_SIZE / 2);
    Repeat(YES, BUFFER_SIZE / 2)
  }

  /** The `io::Error` a failing `write_all` returns: `WriteZero` when a
      write took nothing, or the operating system's error code. */
  datatype IoError = WriteZero | Os(code: nat)

  /** `main` either still loops or has returned its `io::Result<()>`. */
  datatype Exit = Running | Returned(result: Result<(), IoError>)

  /** An answer that ends `write_all` with an error: a write that took
      nothing, or any error other than `EINTR` (which `write_all` retries). */
  predicate Fatal(r: WriteResult) {
    r == Wrote(0) || (r.Errno? && r.code != EINTR)
  }

  /** The error `write_all` returns for a fatal answer. */
  function ErrorOf(r: WriteResult): (e: IoError)
    requires Fatal(r)
    ensures e == WriteZero <==> r.Wrote?
  {
    if r.Wrote? then WriteZero else Os(r.code)
  }

  /** A write of a non-empty tail of the buffer to standard output. */
  predicate OffersTail(c: Syscall) {
    c.Write? && c.fd == STDOUT &&
    0 < |c.bytes| <= BUFFER_SIZE && c.bytes == Buffer()[BUFFER_SIZE - |c.bytes|..]
  }

  /** A position and its offset within the buffer agree on being inside or
      at the end of a line, the buffer's size being even. */
  lemma SameParityInBuffer(s: nat)
    ensures (s % BUFFER_SIZE) % 2 == s % 2
  {
    var q := s / BUFFER_SIZE;
    assert s == 2 * (2048 * q) + s % BUFFER_SIZE;
  }

  /** Appending bytes `offset..` of the buffer keeps an output on the
      pattern when both are at the same position within a line. */
  lemma AppendTailKeepsPattern(stream: seq<bv8>, offset: nat, taken: seq<bv8>)
    requires stream == Pattern(|stream|)
    requires offset == |stream| % BUFFER_SIZE
    requires offset + |taken| <= BUFFER_SIZE
    requires taken == Buffer()[offset..offset + |taken|]
    ensures stream + taken == Pattern(|stream| + |taken|)
  {
    SameParityInBuffer(|stream|);
    forall j | 0 <= j < |taken|
      ensures taken[j] == YesAt(|stream| + j)
    {
      assert taken[j] == YesAt(offset + j);
    }
  }

  /** How many bytes the kernel takes, answering `r`, from a write of the
      buffer's tail starting at `offset`. */
  function TakenCount(offset: nat, r: WriteResult): (t: nat)
    requires offset < BUFFER_SIZE
    ensures offset + t <= BUFFER_SIZE
    ensures r.Errno? ==> t == 0
  {
    match r
    case Wrote(n) => if offset + n < BUFFER_SIZE then n else BUFFER_SIZE - offset
    case Errno(_) => 0
  }

  /** The total number of bytes written after the answers `rs`, when each
      write offers the buffer's tail from where the previous ones left off
      within the current `write_all`. */
  function Progress(rs: seq<WriteResult>): nat {
    if rs == [] then 0
    else
      var p := Progress(rs[..|rs| - 1]);
      p + TakenCount(p % BUFFER_SIZE, rs[|rs| - 1])
  }

  /** A write of the tail from any position inside the buffer offers a
      non-empty tail. */
  lemma TailIsOffered(offset: nat)
    requires offset < BUFFER_SIZE
    ensures OffersTail(Write(STDOUT, Buffer()[offset..]))
  {
  }

  /** One more answer adds what it takes at the position reached so far. */
  lemma ProgressStep(rs: seq<WriteResult>, i: nat)
    requires i < |rs|
    ensures Progress(rs[..i + 1]) == Progress(rs[..i]) + TakenCount(Progress(rs[..i]) % BUFFER_SIZE, rs[i])
  {
    assert rs[..i + 1][..i] == rs[..i];
  }

  /** Moving `t` bytes within the current pass of the buffer: the new
      position within the buffer is the old one plus `t`, or 0 when the
      buffer is used up. */
  lemma OffsetStep(s: nat, t: nat)
    requires s % BUFFER_SIZE + t <= BUFFER_SIZE
    ensures (s + t) % BUFFER_SIZE == if s % BUFFER_SIZE + t == BUFFER_SIZE then 0 else s % BUFFER_SIZE + t
  {
    var q := s / BUFFER_SIZE;
    assert s == q * BUFFER_SIZE + s % BUFFER_SIZE;
    if s % BUFFER_SIZE + t == BUFFER_SIZE {
      assert s + t == (q + 1) * BUFFER_SIZE;
    } else {
      assert s + t == q * BUFFER_SIZE + (s % BUFFER_SIZE + t);
    }
  }

  /** One pass of `Run`'s loop keeps the output on the pattern, its length
      the total the answers so far allow, and the position within the
      buffer where the next write starts. */
  lemma StepKeepsOutput(results: seq<WriteResult>, i: nat, stream: seq<bv8>, offset: nat, taken: seq<bv8>, next: nat)
    requires i < |results| && offset < BUFFER_SIZE
    requires offset == |stream| % BUFFER_SIZE
    requires |stream| == Progress(results[..i])
    requires stream == Pattern(|stream|)
    requires |taken| == TakenCount(offset, results[i])
    requires taken == Buffer()[offset..offset + |taken|]
    requires next == if offset + |taken| == BUFFER_SIZE then 0 else offset + |taken|
    ensures next == |stream + taken| % BUFFER_SIZE
    ensures |stream + taken| == Progress(results[..i + 1])
    ensures stream + taken == Pattern(|stream + taken|)
  {
    AppendTailKeepsPattern(stream, offset, taken);
    OffsetStep(|stream|, |taken|);
    ProgressStep(results, i);
  }

  /** One pass of `write_all`'s loop, `offset` bytes into the buffer:
      write what is left; the kernel's answer `r` either fails the call
      (`Ok(0)`, or an error other than `EINTR`), or drops the bytes taken
      (none for `EINTR`). `next` is where the following pass starts: past
      the bytes taken, or back at the first byte of the next `write_all`
      once the buffer is used up. */
  method WriteOnce(offset: nat, r: WriteResult)
    returns (call: Syscall, taken: seq<bv8>, next: nat, failure: Option<IoError>)
    requires offset < BUFFER_SIZE
    ensures call == Write(STDOUT, Buffer()[offset..]) && OffersTail(call)
    ensures failure.Some? <==> Fatal(r)
    ensures failure.Some? ==> failure.value == ErrorOf(r) && taken == []
    ensures r.Errno? ==> taken == []
    ensures |taken| == TakenCount(offset, r)
    ensures offset + |taken| <= BUFFER_SIZE && taken == Buffer()[offset..offset + |taken|]
    ensures r.Wrote? ==> |taken| == if offset + r.n < BUFFER_SIZE then r.n else BUFFER_SIZE - offset
    ensures next < BUFFER_SIZE
    ensures next == if offset + |taken| == BUFFER_SIZE then 0 else offset + |taken|
  {
    var remaining := Buffer()[offset..];
    call := Write(STDOUT, remaining);
    taken, failure := [], None;
    match r {
      case Wrote(n) =>
        if n == 0 {
          failure := Some(WriteZero);
        } else {
          taken := Taken(remaining, r);
        }
      case Errno(code) =>
        if code != EINTR {
          failure := Some(Os(code));
        }
    }
    next := if offset + |taken| == BUFFER_SIZE then 0 else offset + |taken|;
  }

  /** `main`: `loop { handle.write_all(buffer.as_slice())?; }`, with
      `write_all` written out as the standard library documents it: write
      what is left of the buffer; on `Ok(n)` drop the first `n` bytes; on
      `EINTR` try again; on `Ok(0)` or any other error return the error,
      which `?` returns from `main`. When the buffer is used up `write_all`
      returns `Ok(())` and the next one starts from the first byte.
      `main` never returns `Ok`; it returns at the first fatal answer, with
      that answer's error; every call offers a non-empty tail of the
      buffer, the first the whole of it; and the output, however the
      kernel splits the writes, follows the pattern. */
  method Run(results: seq<WriteResult>) returns (exit: Exit, trace: seq<Syscall>, stream: seq<bv8>)
    ensures exit != Returned(Ok(()))
    ensures |trace| <= |results|
    ensures |trace| > 0 ==> trace[0] == Write(STDOUT, Buffer())
    ensures forall k :: 0 <= k < |trace| ==> OffersTail(trace[k])
    ensures forall k :: 0 <= k < |trace| ==>
      trace[k] == Write(STDOUT, Buffer()[Progress(results[..k]) % BUFFER_SIZE..])
    ensures |stream| == Progress(results[..|trace|])
    ensures forall k :: 0 <= k < |trace| - 1 ==> !Fatal(results[k])
    ensures exit.Returned? <==> |trace| > 0 && Fatal(results[|trace| - 1])
    ensures exit.Returned? ==> exit.result == Err(ErrorOf(results[|trace| - 1]))
    ensures exit.Running? ==> |trace| == |results|
    ensures exit.Returned? <==> exists k :: 0 <= k < |results| && Fatal(results[k])
    ensures stream == Pattern(|stream|)
  {
    exit, trace, stream := Running, [], [];
    var offset := 0;  // how much of the buffer the current `write_all` has written
    var i := 0;
    while i < |results| && exit == Running
      invariant i <= |results| && |trace| == i
      invariant 0 <= offset < BUFFER_SIZE && (i == 0 ==> offset == 0)
      invariant offset == |stream| % BUFFER_SIZE
      invariant |stream| == Progress(results[..i])
      invariant forall k :: 0 <= k < i ==>
        trace[k] == Write(STDOUT, Buffer()[Progress(results[..k]) % BUFFER_SIZE..])
      invariant stream == Pattern(|stream|)
      invariant exit != Returned(Ok(()))
      invariant forall k :: 0 <= k < i - 1 ==> !Fatal(results[k])
      invariant exit.Returned? <==> i > 0 && Fatal(results[i - 1])
      invariant exit.Returned? ==> exit.result == Err(ErrorOf(results[i - 1]))
    {
      var call, taken, next, failure := WriteOnce(offset, results[i]);
      StepKeepsOutput(results, i, stream, offset, taken, next);
      trace, stream, offset := trace + [call], stream + taken, next;
      if failure.Some? {
        exit := Returned(Err(failure.value));
      }
      i := i + 1;
    }
    forall k | 0 <= k < |trace|
      ensures OffersTail(trace[k])
    {
      TailIsOffered(Progress(results[..k]) % BUFFER_SIZE);
    }
    assert results[..0] == [];
  }
}
