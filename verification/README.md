# fixie-cadence: the Trackpoint block scanner, in Dafny

fixie-cadence reads a Garmin TCX file, one line at a time. For every
`<Trackpoint>` that has a speed and no cadence record, it writes a copy of
the file with a `            <Cadence>N</Cadence>` record added. N is the
pedalling cadence computed from the speed for a fixed-gear bicycle.

This project models the core of `main`, under these names:

- **The line loop** (`Scanner.Convert`). It is a method with a `for` loop over the
  input lines. It carries the loop's two variables:
  - `trackpoint_cadence`, modelled as `pending`;
  - `cadence_already_set_in_trackpoint`, modelled as `cadenceSeen`.

  It appends to an output sequence of lines. Each line goes through three
  substring checks in the source's order:
  1. `:Speed` sets the pending cadence.
  2. `Cadence` sets the flag.
  3. `</Trackpoint>` may inject a record, then resets both variables.

  The line itself is then written unchanged.
- **The block semantics** (`Scanner.BlockStart`, `Scanner.LastSpeed`,
  `Scanner.Injection`, `Scanner.Expected`). This is a declarative statement of
  what the loop must write. A block runs from just after one close line (or
  from the start of the file) up to and including the next close line. A
  close line injects when its block has a speed line and no `Cadence` line.
  The value then comes from the block's last speed line.

  `Convert` is proved to write exactly `Expected`, or to stop at the first
  speed line without a decimal, where the source's `unwrap` panics. The laws
  of the scanner are proved about `Expected`, in `ScannerLaws` and
  `BlockLaws`.
- **The speed extractor** (`SpeedField`). It gives the leftmost match of
  `([0-9]*[.])[0-9]+`, as `Regex::find` returns it, as a pure function. It is
  proved to be the leftmost, longest decimal of the line.
- **The cadence record** (`Scanner.CadenceLine`, `Numerals`). This is twelve
  spaces, `<Cadence>`, the `i32` rendered as `Display` renders it, then
  `</Cadence>`. Its numeral is proved to read back to the cadence.
- **The file names** (`Paths`). `is_tcx_file` and the output path
  `<input without .tcx>_with_cadence.tcx`.

Strings are `seq<char>` holding the bytes of the UTF-8 text, one `char`
per byte, as Rust's `str::len`, slicing and `str::contains` count them. Where a
byte value matters (the UTF-8 boundary test of `is_tcx_file`), a path has the
type `Text.Bytes`, whose `char`s are all below 256.

The speed-to-cadence computation is the parameter `cadenceOf: string -> int`.
It covers `str::parse::<f64>`, `Transmission::get_cadence_m_s`, `trunc`
and the cast to `i32`, applied to the matched text.

## Model

| member | source | states |
|---|---|---|
| Scanner.Convert | src/main.rs:58-103 | The loop converts iff every speed line carries a decimal, and then writes exactly `Expected`. Otherwise it stops at the first speed line without a decimal, having written `Expected` for the lines before it. |
| Scanner.ScanRuns | src/main.rs:58-103 | Run over the first `n` lines with no malformed speed line, the loop's variables hold the open block's pending cadence and flag. Its output is `Expected(n)`. |
| Scanner.ScanStops | src/main.rs:66-71 | The loop stops at the first speed line without a decimal, having written `Expected` for the lines before it, and stays stopped. |
| Scanner.RunningWellFormed | src/main.rs:71 | A loop still running has met no speed line without a decimal. |
| Scanner.FeedLaws | src/main.rs:63-102 | One iteration stops exactly at a speed line without a decimal, at that index and with the output unchanged. Otherwise it keeps everything written so far and appends, ending with the line itself. |
| Scanner.ScanStopped | src/main.rs:66-71 | A stopped loop stopped at an earlier line that is a speed line without a decimal. |
| Scanner.FeedStep | src/main.rs:63-102 | One iteration takes the block semantics' state and output before a line to the state and output after it. |
| Scanner.Step | src/main.rs:66-100 | Effect of one line. The speed check overwrites the pending cadence and the cadence check sets the flag. The close check then decides the injection from the updated values and clears both. |
| Scanner.ChunkStep | src/main.rs:84-102 | The expected output grows, line by line, by what the close check and the final `writeln!` write from the current state. |
| Scanner.BlockStart | src/main.rs:84-100 | A block starts just after the last close line before a line, or at the start of the file. No close line lies between the start and the line. |
| Scanner.LastSpeed | src/main.rs:66-74 | The speed line that sets the pending cadence is the last speed line in the window. No speed line follows it there. |
| Scanner.Injection | src/main.rs:84-97 | Only a close line that does not itself contain `Cadence` can inject. |
| Scanner.Expected | src/main.rs:58-103 | The expected output holds one line per input line, plus one per injection. |
| Scanner.Chunk | src/main.rs:87-102 | Each line is written as itself, after one record exactly when it injects. The record is `CadenceLine` of the injected value. |
| SpeedField.Extract | src/main.rs:71 | The extracted text is the slice of the line between the bounds `Find` returns. `None` (the panic of `unwrap`) exactly when there is no match. |
| SpeedField.Find | src/main.rs:71 | A found match lies inside the line, starts where `MatchAt` matches, and no earlier start matches. Without a match, no start matches. |
| SpeedField.MatchAt | src/main.rs:62 | A match at `i` is non-empty, ends inside the line, and is not followed by a digit, so its last run of digits is taken whole. |
| SpeedField.FindFrom | src/main.rs:71 | The first start at or after `i` where a match begins. No start before it matches, and none matches when `None`. |
| SpeedField.MatchAtSound | src/main.rs:62 | What is matched at a start is a word of `([0-9]*[.])[0-9]+`. |
| SpeedField.MatchAtLongest | src/main.rs:62 | Every decimal starting at `i` ends no later than the match found there. A match is found wherever a decimal starts. |
| SpeedField.FindIsLeftmostLongest | src/main.rs:62-71 | `Find` returns a decimal that starts at the leftmost start of any decimal, and no longer decimal starts there. With no match, the line contains no decimal. |
| Text.ContainsIff | src/main.rs:66 | The substring test holds iff the pattern occurs at some byte index of the line. |
| Text.ContainedBytes | src/main.rs:84 | A pattern that occurs in a line has all of its bytes in the line. |
| Text.Contains | src/main.rs:66-84 | A line contains a pattern only if it is at least as long as the pattern. |
| Numerals.NatToString | src/main.rs:93-95 | A cadence is rendered as a non-empty run of digits with no leading zero. |
| Numerals.IntRoundTrip | src/main.rs:93-95 | Reading back the rendered numeral gives the cadence. |
| Numerals.IntToString | src/main.rs:94 | The rendered cadence is non-empty and starts with `-` exactly when the cadence is negative. |
| Numerals.IntToStringBytes | src/main.rs:93-95 | The rendered numeral holds only digits and, for a negative cadence, a leading minus sign. |
| ScannerLaws.ChunkSize | src/main.rs:84-102 | One line is written per input line, plus one more exactly when that line injects. |
| ScannerLaws.OutputLength | src/main.rs:63-102 | Output length is the input length plus the number of injections. |
| ScannerLaws.OutputPlacement | src/main.rs:84-102 | Input line `k` is written unchanged at position `k + Injections(k + 1)`, so the lines keep their order. An injected record sits immediately before the close line that triggered it. |
| ScannerLaws.OutputOrigin | src/main.rs:84-102 | Every output position holds an input line at its place or an injected record just before its close line. Nothing else is written. |
| ScannerLaws.InjectionsStep | src/main.rs:87-96 | The injection count rises by one at a line exactly when that line injects. |
| ScannerLaws.InjectionIff | src/main.rs:66-96 | A line injects iff it contains `</Trackpoint>`, its block has a speed line, and its block has no `Cadence` line. The value is `cadenceOf` of the last speed line's decimal. |
| ScannerLaws.ResetAfterClose | src/main.rs:98-100 | After a close line, the pending cadence is `None` and the flag is false, whichever branch ran. |
| ScannerLaws.NoLeakAcrossBlocks | src/main.rs:98-100 | A close line after an earlier close line, with no speed line in between, injects nothing. |
| ScannerLaws.InjectionEndsBlock | src/main.rs:84-100 | At most one injection per block: a line that injects closes its block, so every later line lies in a later block. |
| ScannerLaws.SpeedOnCloseLine | src/main.rs:66-96 | A line with both `:Speed` and `</Trackpoint>`, in a block without `Cadence`, injects the cadence of that same line. |
| ScannerLaws.CadenceOnCloseLine | src/main.rs:80-96 | A line with both `Cadence` and `</Trackpoint>` injects nothing. |
| ScannerLaws.CadenceLineFormat | src/main.rs:93-95 | The record starts with exactly twelve spaces and then `<`. Reading its value back gives the cadence. |
| ScannerLaws.CadenceLineMarkers | src/main.rs:93-95 | Read again, a record counts as a `Cadence` line and as neither a speed line nor a close line. So every injected record is a `Cadence` line of its block. |
| BlockLaws.ExpectedPrefix | src/main.rs:63-102 | Appending lines never changes what was written for the earlier ones. |
| BlockLaws.BlocksIndependent | src/main.rs:98-100 | Cut just after a close line, the input converts as the two parts converted separately. |
| BlockLaws.NoInjectionIdentity | src/main.rs:102 | Where no line injects, the output is the input. |
| BlockLaws.OutputEndsBlock | src/main.rs:84-102 | An input that ends with a close line gives an output that ends with it. |
| BlockLaws.OneBlockIdempotent | src/main.rs:80-96 | Converting a single block's output again changes nothing. |
| BlockLaws.Idempotent | src/main.rs:58-103 | Converting the output again changes nothing. |
| BlockLaws.OutputWellFormed | src/main.rs:66-71 | Every speed line of the output carries a decimal when every speed line of the input does. |
| BlockLaws.Rerun | src/main.rs:58-103 | Run on its own output, the loop converts, and writes that output unchanged. |
| Paths.IsTcxFile | src/main.rs:109-115 | An accepted path is a non-empty base name followed by `.tcx`. |
| Paths.TcxPathsAccepted | src/main.rs:109-115 | Every non-empty base name followed by `.tcx` is accepted. |
| Paths.IsTcxFileAsWritten | src/main.rs:109-115 | The code as written panics exactly when the path has five or more bytes and byte `len - 4` is a UTF-8 continuation byte. It answers true only for a path that ends in `.tcx`. |
| Paths.OutputPath | src/main.rs:44-49 | The path is accepted iff `is_tcx_file` holds. Its output path keeps all of the input but the last four bytes, then `_with_cadence.tcx`. |
| Paths.OutputPathLaws | src/main.rs:44-49 | The output path passes `is_tcx_file` and differs from the input path. Distinct inputs give distinct outputs. |
| Paths.IsTcxFileExamples | src/main.rs:137-150 | `/file.tcx` is accepted; `/file.txc` and `a.c` are not. |
| Paths.AsWrittenPanics | src/main.rs:109-115 | The code as written panics on the path `é123`, where the intended answer is false. |
| Paths.AsWrittenAgrees | src/main.rs:109-115 | Wherever the code as written answers, `IsTcxFile` gives the same answer. Where it panics, `IsTcxFile` answers false. |

## Left out

- Loading `conf.ini` through the `ini` crate and parsing its three keys (src/main.rs:24-36). This is a foreign library and file I/O.
- Argument collection and the panic on a wrong argument count (src/main.rs:39-42). The "Not a valid file" panic is `Paths.OutputPath` returning `None`.
- Opening and creating files, `BufReader::lines`, `BufWriter` and the `expect`s on write errors, and all `println!` logging (src/main.rs:51-57, 64, 75-78, 104).
  - The input is given as its sequence of lines.
  - Line splitting, dropping of `\r\n`, and the panic on a line that is not UTF-8 are not modelled.
- Scanner.Convert: the bytes on disk when the loop panics are not modelled. `Aborted.written` is what the loop handed to the `BufWriter`. How much of it reaches the file depends on the buffer being flushed while unwinding.
- The floating-point cadence computation (src/main.rs:15-19, 72, 74): `str::parse::<f64>`, `get_cadence_m_s`, `trunc` and the saturating cast to `i32`. They are the parameter `cadenceOf`, applied to the matched text.
  - The model assumes the parse of the matched text succeeds. The pattern only matches digits around one point.
  - It does not bound `cadenceOf` to the `i32` range.
  - The test that 6.95 m/s gives 81 rpm (src/main.rs:126-135) needs floating point and is not part of this model.
- The internals of the `regex` crate. Only the meaning of the one pattern used is modelled.

## Findings

| source | as written | input that shows it | evidently intended | confidence | as-written member | corrected member |
|---|---|---|---|---|---|---|
| src/main.rs:114 | `is_tcx_file` slices `&path[(len - 4)..]` by byte and panics when byte `len - 4` falls inside a multi-byte UTF-8 character | the path `é123` (bytes C3 A9 31 32 33): five bytes, byte 1 is a continuation byte | answer false, since such a path cannot end in `.tcx` | high; not executed | Paths.AsWrittenPanics | Paths.IsTcxFile |
