/** `src/bin/no_std_asm_yes.rs`: a 1024-byte pattern array written to
    standard output by a raw `write` system call, forever, without the
    standard library. */
module NoStdAsmYes {
  import opened YesPattern
  import opened Sys
  import Transfer

  const N: nat := 1024

  /** `main`: builds the array with `create_yes_array`, then calls
      `write(1, &yes_array, N)` forever, dropping every result. Whatever the
      kernel answers, one call is made per answer, each offering the whole
      pattern buffer, and the output is what the kernel took of each. */
  method Run(results: seq<WriteResult>) returns (calls: seq<Syscall>, stream: seq<bv8>)
    ensures |calls| == |results|
    ensures forall k :: 0 <= k < |calls| ==> calls[k] == Write(STDOUT, Pattern(N))
    ensures stream == Transfer.DiscardingStream(Pattern(N), results)
  {
    var yesArray := CreateYesArray(N);
    assert yesArray[..N] == yesArray[..];
    calls, stream := Transfer.WriteDiscardingResults(STDOUT, yesArray, N, results);
  }

  /** The array starts `y\ny\ny\n`, and so does the output (redirected to
      a file, say) once the first write takes at least six bytes. */
  lemma FirstSixBytes(results: seq<WriteResult>)
    requires |results| > 0 && results[0].Wrote? && results[0].n >= 6
    ensures Pattern(N)[..6] == [Y, NL, Y, NL, Y, NL]
    ensures var s := Transfer.DiscardingStream(Pattern(N), results);
      |s| >= 6 && s[..6] == [Y, NL, Y, NL, Y, NL]
  {
    Transfer.DiscardingStreamStartsWithFirstTake(Pattern(N), results);
    var t := Taken(Pattern(N), results[0]);
    assert t[..6] == Pattern(N)[..6];
  }

  /** The array ends in `y\n`. */
  lemma LastTwoBytes()
    ensures Pattern(N)[N - 2..] == YES
  {
    PatternEndsWithYes(N);
  }
}
