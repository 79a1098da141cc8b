/** `src/bin/no_main_yes.rs`: a 1024-byte pattern array written through a
    `File` wrapped around descriptor 1, forever. */
module NoMainYes {
  import opened YesPattern
  import opened Sys
  import Transfer

  const N: nat := 1024

  /** `main`: builds the array with `create_yes_array`, then calls
      `stdout.write(&array)` forever. `File::write` is one `write` of the
      whole array; its `io::Result` (`Ok(n)` for `Wrote(n)`, `Err` for
      `Errno`), short writes and errors included, is dropped. */
  method Run(results: seq<WriteResult>) returns (calls: seq<Syscall>, stream: seq<bv8>)
    ensures |calls| == |results|
    ensures forall k :: 0 <= k < |calls| ==> calls[k] == Write(STDOUT, Pattern(N))
    ensures stream == Transfer.DiscardingStream(Pattern(N), results)
  {
    var yesArray := CreateYesArray(N);
    assert yesArray[..yesArray.Length] == yesArray[..];
    calls, stream := Transfer.WriteDiscardingResults(STDOUT, yesArray, yesArray.Length, results);
  }
}
