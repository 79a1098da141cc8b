# yes, modelled in Dafny

`yes` writes `y` and a newline to standard output forever. The repository holds seven
variants of it, and they differ in how they push a buffer of that pattern to the output:

- raw `write` system calls from inline assembly;
- a `File` around descriptor 1;
- `write_all` on the locked standard output;
- `vmsplice` into the pipe on standard output, from a constant array or from a buffer
  aligned to its own size (huge-page advised in one variant).

This project models the part that has logic in it:

- **The pattern buffer.** `YesPattern.Pattern(n)` is the reference: the first `n` bytes of
  `y\ny\n...`. `FillYes` is the in-place loop that fills a buffer (the `create_yes_array`
  copies and the two inline slice fills), and `CreateYesArray` builds `[0; N]` and fills it.
  `Repeat` models `b"y\n".repeat(..)`.
- **The transfer loops** (`Transfer`). They are:
  - the copy loops that drop every result and never leave;
  - the `vmsplice` loop that drops every result;
  - the `vmsplice` loop that stops at the first -1;
  - the `write_all(..)?` loop, in `BufferYes`.

  The program loops forever. The model runs each loop over a finite sequence of kernel
  answers, one per call. When the answers run out, the observation ends with the program
  still looping. Each variant's `main` becomes a `Run` method. `Run` records the system
  calls it issues in a trace of `Sys.Syscall` values and, for the copy loops, the bytes
  that reach the output.
- **`Layout::from_size_align`**, following the rule Rust's `core` library documents: the
  alignment must be a power of two, and the size rounded up to it must fit in `isize`.
  The model proves that the `.unwrap()` in the two aligned variants cannot panic.
- **The splice flag expression** `SPLICE_F_GIFT & SPLICE_F_NONBLOCK`, as `bv32` with
  GIFT = 8 and NONBLOCK = 2.

Behaviour of the code that the model keeps:

- The raw-`write` and `File::write` loops have no exit: no write result, error or short write leaves them.
- The `vmsplice` loop of `src/main.rs` has no exit either.
- The flag expression in `src/main.rs` requests no flag at all.
- `buffer_yes` leaves `main` only with an `Err`, never with `Ok`.

## Model

| member | source | states |
|---|---|---|
| `YesPattern.FillYes` | src/bin/huge_page_yes.rs:17-22 | For an even-length buffer with any prior contents: afterwards every even index holds `y` and every odd index holds `\n` (the buffer equals `Pattern(len)`), after exactly `len / 2` steps of 2. The invariant: `i` is even, `i <= len`, and `[0, i)` is filled, so `i + 1` is always in bounds. |
| `YesPattern.CreateYesArray` | src/bin/no_std_asm_yes.rs:9-18 | `create_yes_array` returns a new array of exactly `n` bytes that holds the pattern. |
| `YesPattern.Repeat` | src/bin/buffer_yes.rs:7 | `s.repeat(k)` has length `len(s) * k`. |
| `YesPattern.RepeatYesIsPattern` | src/bin/asm_yes.rs:5-14 | `k` copies of `YES` are exactly the first `2k` bytes of the pattern, so a filled buffer of `N` bytes is `N / 2` copies of `YES`. |
| `YesPattern.EvenPrefixIsLines` | src/bin/no_std_asm_yes.rs:12-17 | In any byte sequence that follows the pattern, the first `2k` bytes are `k` lines `y\n`. |
| `YesPattern.PatternEndsWithYes` | src/bin/huge_page_yes.rs:18-21 | A filled buffer of even length ends with `y`, `\n`. |
| `YesPattern.PatternConcat` | src/main.rs:12-16 | A filled prefix that ends on a line boundary, extended by the next filled bytes, is the longer filled prefix (the step of the fill loop). |
| `Transfer.WriteDiscardingResults` | src/bin/no_std_asm_yes.rs:53-55 | Whatever the kernel answers, one call is made per answer, and each offers the same first `count` bytes of the buffer to the same descriptor. The output is what the kernel took of each call, with each call starting again from the first byte. |
| `Transfer.SpliceDiscardingResults` | src/main.rs:31-33 | Whatever `vmsplice` answers, one call is made per answer, each with the same single segment and the same flags. No result leaves the loop. |
| `Transfer.SpliceWhileNotFailed` | src/bin/vmsplice_yes.rs:28 | The calls made are those up to and including the first answer -1, or one per answer when there is none. The loop stops exactly when a -1 occurs. Every call carries the same segment and flags. |
| `Transfer.DiscardingStreamStartsWithFirstTake` | src/bin/no_std_asm_yes.rs:53-55 | The output of a result-dropping write loop begins with exactly the bytes the kernel took from the first call. |
| `Transfer.EvenWritesKeepPattern` | src/bin/no_main_yes.rs:28-30 | When the kernel takes an even number of bytes from every resubmitted pattern buffer, the output follows the pattern and has even length. |
| `Transfer.OddShortWriteBreaksStream` | src/bin/asm_yes.rs:48-50 | When a write takes only the first byte and the next takes all, the output begins `yy`. The output then no longer follows the pattern. |
| `Layout.PowerOfTwoIsPow2` | src/bin/huge_page_yes.rs:13 | Every alignment the power-of-two test accepts is some `2^k`. |
| `Layout.Pow2IsPowerOfTwo` | src/bin/vmsplice_yes.rs:13 | The power-of-two test accepts every `2^k`. |
| `Layout.PowerOfTwoIff` | src/bin/huge_page_yes.rs:13 | The test accepts an alignment if and only if it is `2^k` for some `k`. |
| `Layout.FromSizeAlign` | src/bin/vmsplice_yes.rs:13 | A layout is returned exactly when the alignment is `2^k` and `size + align - 1 <= isize::MAX`. It then has the requested size and alignment, and the alignment is at least 1. |
| `Layout.SelfAlignedPowerOfTwo` | src/bin/huge_page_yes.rs:8-13 | A size of `2^k` bytes aligned to itself is accepted whenever twice it fits in `isize`, so `unwrap` does not panic. |
| `Layout.MiBIsPow2` | src/bin/vmsplice_yes.rs:8 | 1 MiB is `2^20`. |
| `Layout.TwoMiBIsPow2` | src/bin/huge_page_yes.rs:8 | 2 MiB is `2^21`. |
| `NoStdAsmYes.Run` | src/bin/no_std_asm_yes.rs:50-57 | One `write` per kernel answer, each of the whole 1024-byte pattern to descriptor 1 with count 1024. No answer stops it. The output is exactly what the kernel took of each. |
| `NoStdAsmYes.FirstSixBytes` | src/bin/no_std_asm_yes.rs:8-17 | The array starts `y\ny\ny\n`. So does the output, redirected to a file say, whenever the first write takes at least six bytes. |
| `NoStdAsmYes.LastTwoBytes` | src/bin/no_std_asm_yes.rs:12-17 | The last two bytes of the 1024-byte array are `y`, `\n`. |
| `AsmYes.Run` | src/bin/asm_yes.rs:45-52 | One `write` per answer, each of the whole 1024-byte pattern to descriptor 1 with count 1024. Results are dropped and nothing stops the loop. |
| `AsmYes.ArrayIsRepeatedYes` | src/bin/asm_yes.rs:5-14 | The array is `N / 2` copies of `YES`. |
| `NoMainYes.Run` | src/bin/no_main_yes.rs:25-31 | One `File::write` per answer, each of the same unmodified 1024-byte array. Short writes and errors are dropped and nothing stops the loop. |
| `MainYes.SpliceFlags` | src/main.rs:32 | The flag argument as written evaluates to 0, so it requests neither `SPLICE_F_GIFT` nor `SPLICE_F_NONBLOCK`. |
| `MainYes.IntendedSpliceFlags` | src/main.rs:32 | The bitwise OR of the two flags requests both of them and no other bit. |
| `MainYes.Run` | src/main.rs:20-35 | `fcntl(1, F_SETPIPE_SZ, N)` comes first, whatever it returns. Then comes one `vmsplice` per answer, each of one segment describing exactly the `N` = 1 MiB bytes of `YES_ARRAY` (the pattern, never written afterwards), with flags 0. No answer stops it. |
| `HugePageYes.Run` | src/bin/huge_page_yes.rs:11-32 | The layout is `N` bytes aligned to `N`, and `unwrap` does not panic. The trace is `madvise(N, MADV_HUGEPAGE)`, then `fcntl(1, F_SETPIPE_SZ, N)`, then `vmsplice` calls of the whole 2 MiB pattern with flags 0. These continue while the answer is not -1, and `main` returns exactly when a -1 arrives, right after it. |
| `HugePageYes.WholeHugePages` | src/bin/huge_page_yes.rs:8 | 2 MiB is a whole number of huge pages, and the buffer ends in `y\n`. |
| `VmspliceYes.Run` | src/bin/vmsplice_yes.rs:11-30 | The layout is `N` bytes aligned to `N`, and `unwrap` does not panic. The trace is `fcntl(1, F_SETPIPE_SZ, N)`, then `vmsplice` calls of the whole 1 MiB pattern with flags 0, up to and including the first -1. `main` returns exactly when a -1 arrives. |
| `BufferYes.Buffer` | src/bin/buffer_yes.rs:4-7 | `b"y\n".repeat(BUFFER_SIZE / 2)` has `BUFFER_SIZE` = 4096 bytes and follows the pattern (`y` at even indices, `\n` at odd ones). |
| `BufferYes.WriteOnce` | src/bin/buffer_yes.rs:9 | One pass of `write_all` offers the rest of the buffer from the current offset. It fails exactly on `Ok(0)` or on an error other than `EINTR`, and then with that error. Otherwise it moves past the bytes taken, wrapping to a fresh `write_all` when the buffer is used up. |
| `BufferYes.Run` | src/bin/buffer_yes.rs:3-11 | `main` never returns `Ok`. It returns exactly when a fatal answer arrives: the first such answer ends it, with that answer's error. Call `k` offers the buffer's tail from `Progress(answers before k) mod 4096`: the unwritten remainder of the current `write_all`, or the whole buffer once the previous one finished. The output has exactly `Progress` of the answers consumed bytes and follows the pattern, however the kernel splits the writes. |

## Left out

- The inline-assembly `write` (src/bin/asm_yes.rs:29-42, src/bin/no_std_asm_yes.rs:32-47): the register conventions are not modelled. Each call is one `Sys.Write` whose answer comes from the caller's sequence. Its `usize` return, which carries `-errno` wrapped around, becomes `Wrote(n)` or `Errno(code)`.
- What the kernel does with a call: pipe capacity, blocking, page gifting, the effect of `fcntl(F_SETPIPE_SZ)` and of `madvise(MADV_HUGEPAGE)`. These calls appear only in the trace, and their results are parameters the model never reads.
- The bytes a `vmsplice` loop puts into the pipe are not modelled: page transfer is kernel behaviour. Only the calls and the stopping rule are.
- A kernel answer `Wrote(n)` larger than the request is read as "took everything". The kernel never gives one.
- `std::alloc::alloc` and the raw pointers: `from_raw_parts_mut`, `as_mut_ptr`, the unchecked null result at src/bin/huge_page_yes.rs:14, and the pointer into a `const` temporary at src/main.rs:28. The allocation is a Dafny array. Its first contents are the array's default; `FillYes` is proved to overwrite any contents.
- The allocation's alignment is not visible in a Dafny array. Only the layout requested is modelled.
- `#![no_std]`, `#![no_main]`, `#[no_mangle]` and the panic handlers (src/main.rs:38-41, src/bin/no_std_asm_yes.rs:59-62): these are linkage with no behaviour to state.
- In `buffer_yes`, the line-buffering layer behind `io::stdout()` and its treatment of a closed descriptor as success are not modelled. `write_all` is taken to write straight to descriptor 1.
- Signals are not modelled. The four `#![no_main]` binaries (src/main.rs, src/bin/asm_yes.rs, src/bin/no_std_asm_yes.rs, src/bin/no_main_yes.rs) skip the standard start-up that ignores SIGPIPE, so a closed reader kills them through SIGPIPE's default action. The model's loops without exit stand for the code up to that signal. The three binaries with a standard `main` ignore SIGPIPE, so a closed reader shows up as the -1 or `Err` result the model handles.
- The loops are infinite in the program. The model observes a finite prefix of calls: the answers given. Throughput and the reader process are out of scope.
- MainYes.Run: it keeps the flags the code passes (0). The corrected flag value under Findings is proved on its own, because the flags only steer kernel behaviour, and that behaviour is not modelled.
- NoStdAsmYes.Run: it keeps the code's wholesale resubmission after a short write. The corrected behaviour under Findings is the one `BufferYes.Run` models.
- AsmYes.Run: it keeps the wholesale resubmission, as `NoStdAsmYes.Run` does.
- NoMainYes.Run: it keeps the wholesale resubmission, as `NoStdAsmYes.Run` does.

## Findings

| source | as written | input that shows it | evidently intended | confidence | as-written member | corrected member |
|---|---|---|---|---|---|---|
| src/main.rs:32 | the flag argument is `SPLICE_F_GIFT & SPLICE_F_NONBLOCK` | the expression itself: 8 AND 2 is 0, so the call requests neither gifting nor non-blocking | the bitwise OR of the two flags, which requests both | medium, not executed | `MainYes.SpliceFlags` | `MainYes.IntendedSpliceFlags` |
| src/bin/asm_yes.rs:48-50 | every `write` resubmits the whole buffer and drops the count written; src/bin/no_std_asm_yes.rs:53-55 and src/bin/no_main_yes.rs:28-30 do the same | a write that takes 1 byte, followed by a full write: the output begins `yy` | resubmit the unwritten remainder, as `write_all` does in src/bin/buffer_yes.rs:9, so that the output stays `y\n` repeated | low (a blocking pipe write of 1024 bytes, within `PIPE_BUF`, is atomic; a short write needs a file or a non-blocking output), not executed | `Transfer.OddShortWriteBreaksStream` | `BufferYes.Run` |
