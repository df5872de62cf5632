# cchunks — a Dafny model of range resolution and chunked copying

cchunks copies byte ranges of an input file, one after another, to an output
file. Each range is given on the command line as `[FROM]:[TO]`:

- FROM is an offset (START), negative to count back from the end of the
  input, or `+SKIP`, relative to the previous range's TO (SKIP may be
  negative);
- TO is an offset (END), negative to count back from the end, or `+LENGTH`,
  relative to FROM (LENGTH may not be negative);
- numbers may carry a unit: `k`/`m` (powers of 1000) or `K`/`M` (powers of 1024);
- an omitted FROM is 0, an omitted TO is the input size; once resolved, FROM
  is cropped to `[0, IN_SIZE]` and TO to `[FROM, IN_SIZE]`, so a reversed
  range copies nothing.

All offset arithmetic is on `off_t` and is checked for overflow. The width
of `off_t` depends on the build (the help text prints it); the model fixes
it at 64 bits. The model covers:

- `safe_arith.dfy` (module `SafeArith`): `off_t` as the subset type `Off` of
  `int` in `[-2^63, 2^63 - 1]`; `add_safe` and `mult_safe` as functions that
  return `None` exactly when the mathematical result is not an `off_t`. The
  four sign cases of `mult_safe` compare against quotients computed with C's
  truncating division, written out as `CDiv`, and a lemma per case proves its
  test equals the range test.
- `numeral.dfy` (module `Numeral`): `apply_suffix`, and `atooff` as a method
  with the source's digit loop, proved against a reference grammar
  (`ParseNumeral`: optional sign, digits, optional unit, value in range), plus
  the round trip from a decimal rendering back to its value.
- `range_resolver.dfy` (module `RangeResolver`): `get_range`, split into the
  FROM and TO halves of the source, proved equal to `Resolve`, which parses a
  descriptor into a `From`/`To` syntax tree and then resolves and crops it.
- `copy_driver.dfy` (module `CopyDriver`): the two loops of `main` — the
  validation pass, which resolves every descriptor against the previous TO
  and sums the expected output size, and the copy pass, which resolves each
  range again, seeks, and moves it through a 512 KiB buffer. The input file
  is a byte sequence, the output is the sequence of bytes written, and the
  whole copy is specified by `Extract`, the ranges' bytes concatenated.
- `usage_examples.dfy` (module `UsageExamples`): the usage text's sample
  ranges and units as proved facts about the model.

There are no Findings: every natural contract held of the code as written.

## Model

| member | source | states |
|---|---|---|
| SafeArith.CDiv | cchunks.c:362-376 | C's `/` on off_t: the remainder `a - q*b` is smaller than the divisor in magnitude and has the sign of the dividend (truncation toward zero) |
| SafeArith.AddSafe | cchunks.c:343-354 | add_safe succeeds exactly when `a + b` is an off_t, and then yields that sum |
| SafeArith.PositivePositive | cchunks.c:360-364 | for positive factors, `a > OFF_T_MAX / b` (C division) holds exactly when `a * b` is not an off_t |
| SafeArith.PositiveNonPositive | cchunks.c:365-368 | for `a > 0`, `b <= 0`, `b < OFF_T_MIN / a` holds exactly when `a * b` is not an off_t |
| SafeArith.NonPositivePositive | cchunks.c:370-374 | for `a <= 0`, `b > 0`, `a < OFF_T_MIN / b` holds exactly when `a * b` is not an off_t |
| SafeArith.NegativeNonPositive | cchunks.c:375-378 | for `a < 0`, `b <= 0`, `b < OFF_T_MAX / a` holds exactly when `a * b` is not an off_t |
| SafeArith.MultSafe | cchunks.c:357-384 | mult_safe succeeds exactly when `a * b` is an off_t, and then yields that product |
| Numeral.SuffixMultiplier | cchunks.c:389-396 | `k`, `m`, `K`, `M` map to 1000, 1000000, 1024, 1048576; every other character is an unknown unit |
| Numeral.ApplySuffix | cchunks.c:387-399 | an unknown unit fails; a known one succeeds exactly when value times multiplier is an off_t, and yields that product |
| Numeral.UnsignedRejects | cchunks.c:424-431 | a non-digit that is first or not last makes the text no numeral |
| Numeral.SuffixAccepted | cchunks.c:427-430 | a unit after at least one digit applies the multiplier to the value read so far |
| Numeral.OverflowIsFinal | cchunks.c:437-438 | once the value of a digit prefix leaves off_t, no continuation of the text is a numeral |
| Numeral.AllDigitsAccepted | cchunks.c:424-441 | a non-empty run of digits is read as its decimal value, rejected only when out of range |
| Numeral.AtoOff | cchunks.c:404-442 | atooff succeeds exactly when the text is an optional sign (where allowed), digits and an optional unit whose value is an off_t, and then yields that value |
| Numeral.DecimalTextValue | cchunks.c:424-439 | the reference grammar's decimal value (`DigitsValue`) of a number's decimal rendering is that number |
| Numeral.DecimalRoundTrip | cchunks.c:404-442 | every non-negative off_t written in decimal is read back as itself, with or without a sign allowed |
| Numeral.NegativeDecimalRoundTrip | cchunks.c:409-442 | every negative off_t, down to OFF_T_MIN, written as `-` and digits is read back as itself when a sign is allowed |
| RangeResolver.Crop | cchunks.c:86 | cc_crop yields a value in `[lo, hi]`: `a` itself inside, `lo` below, `hi` above |
| RangeResolver.IndexOf | cchunks.c:455 | strstr for ':' finds the first colon: the character there is ':' and none comes before it; no result when there is none |
| RangeResolver.ReadFrom | cchunks.c:459-488 | the FROM half of get_range yields exactly the resolved, cropped FROM of the parsed clause, and fails when its numeral does not parse; for a non-negative input size it fails only then |
| RangeResolver.ReadTo | cchunks.c:490-520 | the TO half of get_range yields exactly the resolved, cropped TO of the parsed clause, and fails when its numeral does not parse; for a non-negative input size it fails only then |
| RangeResolver.GetRange | cchunks.c:450-523 | get_range yields exactly `Resolve` of the descriptor: parse, resolve against the input size and prev_to, crop |
| RangeResolver.NoColonRejected | cchunks.c:455-457 | a descriptor without ':' is invalid |
| RangeResolver.SecondColonRejected | cchunks.c:503-505 | a descriptor with two colons is invalid (the TO numeral cannot contain ':') |
| RangeResolver.UnsignedRejectsColon | cchunks.c:424-431 | a numeral never contains ':' |
| RangeResolver.ResolvedWithinInput | cchunks.c:487-519 | every resolved range satisfies `0 <= from <= to <= in_size` |
| RangeResolver.ReversedRangeCollapses | cchunks.c:519 | a TO resolving at or before FROM yields the empty range at FROM, so data is never reversed |
| RangeResolver.BackFromEndNeverFails | cchunks.c:474-513 | on a non-negative input size resolution fails only by syntax: the two "unreachable" add_safe failures indeed never occur, and SKIP and LENGTH overflow clamp |
| RangeResolver.SkipOverflowClamps | cchunks.c:479-487 | a SKIP that overflows prev_to + SKIP clamps to OFF_T_MAX and then crops FROM to the input size |
| RangeResolver.LengthOverflowClamps | cchunks.c:511-519 | a LENGTH that overflows FROM + LENGTH clamps to OFF_T_MAX and then crops TO to the input size |
| RangeResolver.IndexOfAfterPrefix | cchunks.c:455 | the separator found is the first ':' of the descriptor |
| RangeResolver.NegativeLengthRejected | cchunks.c:498-505 | a `+LENGTH` with a minus sign is invalid |
| RangeResolver.WholeInput | cchunks.c:459-491 | ':' alone is the whole input, `[0, in_size)` |
| CopyDriver.ResolveAll | cchunks.c:216-231 | the ranges of all descriptors, each against the previous TO, one per descriptor and all within the input; none when any descriptor fails |
| CopyDriver.Extract | cchunks.c:271-307 | the expected output: the ranges' bytes in order, as many as the expected output size |
| CopyDriver.ResolveAllPrefix | cchunks.c:216-231 | resolving a prefix of the descriptors gives the prefix of the ranges |
| CopyDriver.ResolveAllFailsAfterPrefix | cchunks.c:218-221 | once a descriptor fails, resolving any longer prefix fails |
| CopyDriver.ResolveAllSnoc | cchunks.c:218-223 | one iteration of the validation loop: resolving descriptor i against prev_to extends the ranges, prev_to and the expected size, or fails the whole list |
| CopyDriver.ExtractPrefix | cchunks.c:271-307 | the output of a prefix of the ranges is a prefix of the whole output |
| CopyDriver.ValidateRanges | cchunks.c:216-231 | the validation loop succeeds exactly when every descriptor resolves, with expected_output_size the total length; otherwise it reports the first invalid descriptor |
| CopyDriver.CopyBlock | cchunks.c:286-292 | one fread/fwrite step of at most RW_BUFFSIZE bytes, the size of the buffer: success moves exactly the requested bytes, a failed read moves none, a short write fewer than requested; when the environment lets I/O through, it succeeds |
| CopyDriver.CopyRange | cchunks.c:281-306 | copying one range writes a prefix of its bytes; the logged blocks are each nonempty and at most RW_BUFFSIZE, they cover at least the bytes written and at most the range, and on success they add up to the range's length and exactly its bytes and count were written; when the environment lets I/O through, it succeeds |
| CopyDriver.RangeAgain | cchunks.c:276-279 | the copy pass resolves descriptor i to the same range as the validation pass, so its "internal" error is unreachable |
| CopyDriver.CopyComplete | cchunks.c:275 | stopping at the end of the descriptors, or at once when the expected size is 0, leaves nothing uncopied |
| CopyDriver.SumAppend | cchunks.c:295 | the byte count of two logs of blocks, one after the other, is the sum of their counts |
| CopyDriver.CopyRanges | cchunks.c:271-307 | after validation, the copy pass writes a prefix of the expected output, and on success all of it, with total_processed and the blocks' sizes both adding up to the expected size; when the environment lets I/O through, it succeeds |
| CopyDriver.Run | cchunks.c:216-307 | an invalid range is reported before any output, at the first descriptor that fails to resolve (every one before it resolves); otherwise the output is a prefix of the ranges' bytes, and all of them, in blocks adding up to the expected size, on success; when every descriptor resolves and the environment lets I/O through, the run succeeds |
| UsageExamples.SuffixExamples | cchunks.c:584 | `5K`, `5k`, `5M`, `5m` are 5120, 5000, 5242880, 5000000 |
| UsageExamples.RejectedNumerals | cchunks.c:401-403 | an unknown unit, an empty text, a bare sign, a unit without digits and a non-digit inside are no numeral |
| UsageExamples.SignExamples | cchunks.c:409-420 | a leading '-' is rejected where no sign is allowed and negates the value, unit included, where it is |
| UsageExamples.ResolvedFromTexts | cchunks.c:455-520 | FROM text, ':' and TO text resolve to the range the two clauses give |
| UsageExamples.LastHundred | cchunks.c:594 | `-100:` on 250 bytes is `[150, 250)`, the last 100 bytes |
| UsageExamples.AllButLastFifty | cchunks.c:593 | `0:-50` on 500 bytes is `[0, 450)` |
| UsageExamples.FirstHundred | cchunks.c:595 | `0:100` as the first range is `[0, 100)` |
| UsageExamples.SkipThenLength | cchunks.c:595 | `+2:+100` after a range ending at 100 is `[102, 202)` |
| UsageExamples.KibiRange | cchunks.c:551 | `5K:+2K` is `[5120, 7168)` on an input large enough |
| UsageExamples.NegativeSkip | cchunks.c:582 | `+-5:100` after a range ending at 50 is `[45, 100)` |
| UsageExamples.CroppedAtEnd | cchunks.c:585 | `200:900` on 300 bytes is cropped to `[200, 300)` |
| UsageExamples.ResolvedPair | cchunks.c:216-231 | two descriptors resolve in order, the second against the first's TO |
| UsageExamples.TwoRanges | cchunks.c:595 | `0:100 +2:+100` on 300 bytes resolve to `[0, 100)` and `[102, 202)` |
| UsageExamples.TwoRangesOutput | cchunks.c:595 | and so copy bytes 0..100 followed by bytes 102..202 of the input |

## Left out

- Option parsing, usage and help text, version output and verbose printing (cchunks.c:127-206 and the VERBOSE calls): command-line handling and messages, not range logic; the model starts from the list of descriptors.
- Opening and closing files, the refusal to overwrite an existing output without `-f`, and switching stdout to binary mode on Windows: file-system I/O.
- fsize: the input size is the length of the input byte sequence; a failed size query is I/O.
- Dummy mode (`-d`), which stops after validation, and the check that at least one range is given: option handling; `ValidateRanges` is the part dummy mode runs.
- Progress display (`-p`): it is computed in floating point and only prints to stderr.
- win_compat.h and the platform wrappers (cc_fopen, cc_fseek, cc_fprintf): portability glue around the C library.
- The model fixes off_t at 64 bits. The Windows build uses `__int64`, but a POSIX build uses the platform's `off_t`, which can be 32 bits wide on a platform that does not use a 64-bit off_t by default (cchunks.c:24-28); a build with a 32-bit off_t is not modelled.
- SafeArith.AddSafe, SafeArith.MultSafe, Numeral.ApplySuffix: on overflow the C code still stores a value, undefined by C's signed-overflow rules (in practice the wrapped result); no caller uses it, so the model returns None instead.
- CopyDriver.ValidateRanges, CopyDriver.CopyRanges: expected_output_size and total_processed are summed without an overflow check in the source; the model sums them as unbounded integers.
- CopyDriver.CopyRange, CopyDriver.CopyBlock: the file system is the parameter `ioOk`; when it is true every seek, read and write goes through in full, otherwise each may fail as a nondeterministic choice; a short write is modelled as writing a prefix of the block, and the file position as slicing the input sequence; the block sizes are recorded as requested.
- CopyDriver.CopyRange: every read and write it issues is bounded by RW_BUFFSIZE through CopyBlock's precondition, but the block log is tied to those calls only by its total and its per-block bound; that the log lists exactly the calls made, and that every block but the last is a full RW_BUFFSIZE, is not stated.
- Descriptors are strings without NUL characters, as command-line arguments are; `strlen` is the sequence length.
- A SKIP whose sum with prev_to falls below OFF_T_MIN also clamps to OFF_T_MAX, as the source does; it cannot arise from main, whose prev_to is never negative.
