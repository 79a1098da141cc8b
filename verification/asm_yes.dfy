/** `src/bin/asm_yes.rs`: a 1024-byte pattern array written to standard
    output by a raw `write` system call, forever. */
module AsmYes {
  import opened YesPattern
  import opened Sys
  import Transfer

  const N: nat := 1024

  /** `main`: builds the array with `create_yes_array`, then calls
      `write(1, &yes_array, N)` forever, dropping every result. */
  method Run(results: seq<WriteResult>) returns (calls: seq<Syscall>, stream: seq<bv8>)
    ensures |calls| == |results|
    ensures forall k :: 0 <= k < |calls| ==> calls[k] == Write(STDOUT, Pattern(N))
    ensures stream == Transfer.DiscardingStream(Pattern(N), results)
  {
    var yesArray := CreateYesArray(N);
    assert yesArray[..N] == yesArray[..];
    calls, stream := Transfer.WriteDiscardingResults(STDOUT, yesArray, N, results);
  }

  /** The array is `N / 2` copies of `YES`. */
  lemma ArrayIsRepeatedYes()
    ensures Pattern(N) == Repeat(YES, N / 2)
  {
    RepeatYesIsPattern(N / 2);
  }
}
