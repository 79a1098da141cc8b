/** The transfer loops. In the program each loop runs forever or until its
    stopping rule fires; here each runs over a finite sequence of kernel
    answers, one per call, and running out of answers means the observation
    ends with the program still looping. */
module Transfer {
  import opened YesPattern
  import opened Sys

  /** The bytes that reach the output when the same `offered` bytes are
      written once per answer in `results` and every answer is dropped:
      each call contributes what the kernel took from it, and the next call
      starts again from the first byte. */
  function DiscardingStream(offered: seq<bv8>, results: seq<WriteResult>): seq<bv8>
  {
    if results == [] then []
    else DiscardingStream(offered, results[..|results| - 1]) + Taken(offered, results[|results| - 1])
  }

  /** `loop { let _ = write(fd, buf, count); }`: every call offers the same
      first `count` bytes of `buf`, the result is dropped, and nothing ever
      leaves the loop, whatever the kernel answers. */
  method WriteDiscardingResults(fd: int, buf: array<bv8>, count: nat, results: seq<WriteResult>)
    returns (calls: seq<Syscall>, stream: seq<bv8>)
    requires count <= buf.Length
    ensures |calls| == |results|
    ensures forall k :: 0 <= k < |calls| ==> calls[k] == Write(fd, buf[..count])
    ensures stream == DiscardingStream(buf[..count], results)
  {
    calls, stream := [], [];
    var i := 0;
    while i < |results|
      invariant i <= |results|
      invariant |calls| == i
      invariant forall k :: 0 <= k < i ==> calls[k] == Write(fd, buf[..count])
      invariant stream == DiscardingStream(buf[..count], results[..i])
    {
      var offered := buf[..count];
      calls := calls + [Write(fd, offered)];
      // The program drops the answer; it decides only what reaches the output.
      stream := stream + Taken(offered, results[i]);
      assert results[..i + 1][..i] == results[..i];
      i := i + 1;
    }
    assert results[..i] == results;
  }

  /** `loop { vmsplice(fd, &iov, 1, flags); }`: every call hands over the
      same single segment, the result is dropped, and nothing ever leaves
      the loop. */
  method SpliceDiscardingResults(fd: int, iov: IoVec, flags: bv32, results: seq<int>)
    returns (calls: seq<Syscall>)
    requires iov.len <= iov.base.Length
    ensures |calls| == |results|
    ensures forall k :: 0 <= k < |calls| ==> calls[k] == Vmsplice(fd, [iov.base[..iov.len]], flags)
  {
    calls := [];
    var i := 0;
    while i < |results|
      invariant i <= |results|
      invariant |calls| == i
      invariant forall k :: 0 <= k < i ==> calls[k] == Vmsplice(fd, [iov.base[..iov.len]], flags)
    {
      calls := calls + [Vmsplice(fd, [iov.base[..iov.len]], flags)];
      i := i + 1;
    }
  }

  /** `while vmsplice(fd, &iov, 1, flags) != -1 {}`: the call is made at
      least once and again after every answer other than -1; the first -1
      ends the loop (`stopped`). The calls made are those up to and
      including the first -1, or one per answer when there is none. */
  method SpliceWhileNotFailed(fd: int, iov: IoVec, flags: bv32, results: seq<int>)
    returns (calls: seq<Syscall>, stopped: bool)
    requires iov.len <= iov.base.Length
    ensures |calls| <= |results|
    ensures forall k :: 0 <= k < |calls| ==> calls[k] == Vmsplice(fd, [iov.base[..iov.len]], flags)
    ensures forall k :: 0 <= k < |calls| - 1 ==> results[k] != -1
    ensures stopped <==> |calls| > 0 && results[|calls| - 1] == -1
    ensures !stopped ==> |calls| == |results|
    ensures stopped <==> -1 in results
  {
    calls, stopped := [], false;
    var i := 0;
    while i < |results| && !stopped
      invariant i <= |results|
      invariant |calls| == i
      invariant forall k :: 0 <= k < i ==> calls[k] == Vmsplice(fd, [iov.base[..iov.len]], flags)
      invariant forall k :: 0 <= k < i - 1 ==> results[k] != -1
      invariant stopped <==> i > 0 && results[i - 1] == -1
    {
      calls := calls + [Vmsplice(fd, [iov.base[..iov.len]], flags)];
      stopped := results[i] == -1;
      i := i + 1;
    }
  }

  /** When every call's bytes follow the pattern and the kernel always takes
      an even number of them, the output follows the pattern. */
  lemma {:induction false} EvenWritesKeepPattern(offered: seq<bv8>, results: seq<WriteResult>)
    requires offered == Pattern(|offered|)
    requires forall k :: 0 <= k < |results| ==> |Taken(offered, results[k])| % 2 == 0
    ensures |DiscardingStream(offered, results)| % 2 == 0
    ensures DiscardingStream(offered, results) == Pattern(|DiscardingStream(offered, results)|)
  {
    if results != [] {
      var init := results[..|results| - 1];
      EvenWritesKeepPattern(offered, init);
      var s := DiscardingStream(offered, init);
      var t := Taken(offered, results[|results| - 1]);
      PatternPrefix(|t|, |offered|);
      assert t == offered[..|t|];
      PatternConcat(|s|, |t|);
    }
  }

  /** The output begins with what the kernel took from the first call. */
  lemma {:induction false} DiscardingStreamStartsWithFirstTake(offered: seq<bv8>, results: seq<WriteResult>)
    requires |results| > 0
    ensures Taken(offered, results[0]) <= DiscardingStream(offered, results)
  {
    var init := results[..|results| - 1];
    if |results| == 1 {
      assert init == [];
    } else {
      assert init[0] == results[0];
      DiscardingStreamStartsWithFirstTake(offered, init);
    }
  }

  /** An odd short write breaks the output: when the kernel takes only the
      first byte of a pattern buffer, the next call starts again with `y`,
      so the output reads `yy` where the pattern has `y\n`. */
  lemma OddShortWriteBreaksStream(n: nat)
    requires n >= 2 && n % 2 == 0
    ensures var s := DiscardingStream(Pattern(n), [Wrote(1), Wrote(n)]);
      |s| == n + 1 && s[..2] == [Y, Y] && s != Pattern(|s|)
  {
    var rs := [Wrote(1), Wrote(n)];
    assert rs[..1] == [Wrote(1)];
    assert [Wrote(1)][..0] == [];
    assert DiscardingStream(Pattern(n), [Wrote(1)]) == Pattern(n)[..1];
    var s := DiscardingStream(Pattern(n), rs);
    assert Taken(Pattern(n), Wrote(n)) == Pattern(n);
    assert s == Pattern(n)[..1] + Pattern(n);
    assert s[1] != Pattern(|s|)[1];
  }
}
