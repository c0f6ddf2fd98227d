# qr: the output logic of a QR-code decoding command-line tool

`qr` is a small Swift command-line tool. It runs the platform QR detector
over an image file and prints what each detected code says. A code whose
message decodes as text is printed as that text. Otherwise the tool prints
the hex of its error-corrected payload bytes. With `--out <path>`, the tool
also re-encodes each text message as a fresh QR code and writes it to a PNG
file named after the `--out` value. With no code found, it writes
`No QR codes detected` to standard error and exits successfully.

The detection, the QR codec and the PNG writer are platform calls. This
project models the logic the tool itself owns, all of it in `QR.run`:

- **Output-file naming** (`naming.dfy`, `paths.dfy`, `digits.dfy`). A `--out`
  value whose path extension is exactly `png` loses that extension. With more
  than one code, `-N.png` is appended, where N is the one-based position.
  Otherwise `.png` is appended.
- **Hex rendering** (`hex.dfy`). Each payload byte becomes two lower-case,
  zero-padded hex digits (`%02hhx`), concatenated in payload order.
- **The report** (`report.dfy`). For every code in detection order, the tool
  prints one line. Then, if the code has a message and `--out` is given, it
  writes one file. The detector's answer is an input: a sequence of
  `Feature`s, each an optional message and a byte payload. Whether the
  generator and the PNG writer succeed for a given file name is an oracle
  `writable`. A run is an `Outcome`: standard output lines, standard error
  lines, the files written in order, and the exit status.

`Report.Emit` is the reference definition of the loop, written as a
recursive function. `Report.ReportCodes` is the imperative loop the source
runs, proved equal to it. The lemmas state what the tool promises about
`Emit` and `Report`.

Assumption about Foundation: `NSString.pathExtension` is modelled as the text
after the last `.` that comes after the last `/`, or the empty string when
there is no such dot. `deletingPathExtension` removes that dot and the text
after it. Extensions are compared case-sensitively with `png`.

## Model

| member | source | states |
|---|---|---|
| `Paths.LastIndexOf` | qr/main.swift:49-50 | the result is the last position of the character, or -1 exactly when it does not occur |
| `Paths.ExtensionDot` | qr/main.swift:49-50 | the result is the dot that starts the extension: nothing after it is a dot or a slash; without one, the last component has no dot |
| `Paths.PathExtension` | qr/main.swift:49 | the extension holds no dot and no slash, and the path ends with a dot followed by the extension |
| `Paths.DeletingPathExtension` | qr/main.swift:50 | the result is a prefix of the path; appending the dot and the extension back gives the path |
| `Paths.StripPngExtension` | qr/main.swift:49-50 | for a path with extension `png`, the stripped path followed by `.png` is the path again |
| `Digits.Decimal` | qr/main.swift:53 | the interpolated number is a non-empty string of decimal digits with no leading zero |
| `Digits.DecimalRoundTrip` | qr/main.swift:53 | reading the decimal digits back gives the number |
| `Digits.DecimalInjective` | qr/main.swift:53 | different numbers have different decimal forms |
| `Naming.BaseName` | qr/main.swift:49-51 | an `--out` value with extension exactly `png` is its base followed by `.png`; any other value is its own base |
| `Naming.OutputFileName` | qr/main.swift:52-56 | every derived file name ends in `.png` |
| `Naming.DeriveOutFile` | qr/main.swift:48-56 | the step-by-step reassignment of `outFile` yields the derived file name |
| `Naming.SingleCodeName` | qr/main.swift:49-55 | with one code: an `--out` value with extension `png` is used unchanged, any other gets `.png` appended, and there is no index suffix |
| `Naming.MultiCodeName` | qr/main.swift:49-53 | with several codes: the name is the `--out` value without its `.png` extension, `-`, the one-based position in decimal, and `.png` |
| `Naming.NamesDistinct` | qr/main.swift:52-53 | two different codes of one run get different file names |
| `Naming.UpperCaseExtensionKept` | qr/main.swift:49-55 | `x.PNG` keeps its extension and becomes `x.PNG.png` |
| `Naming.ThreeCodesExample` | qr/main.swift:49-53 | `shot.png` with three codes names the second one `shot-2.png` |
| `Hex.HexDigit` | qr/main.swift:73 | a nibble's digit is one of `0-9a-f` |
| `Hex.DigitValue` | qr/main.swift:73 | every hex digit stands for a nibble below 16 whose digit it is |
| `Hex.ByteHex` | qr/main.swift:73 | a byte renders as two hex digits, high nibble first, whose values give the byte back |
| `Hex.HexPayload` | qr/main.swift:73 | the rendering has exactly twice as many characters as the payload has bytes, all of them `0-9a-f` |
| `Hex.HexAt` | qr/main.swift:73 | byte i occupies characters 2i (high nibble) and 2i+1 (low nibble) |
| `Hex.HexDigitOrder` | qr/main.swift:73 | hex digits are ordered as the nibbles they stand for |
| `Hex.HexInjective` | qr/main.swift:73 | different payloads render differently |
| `Hex.ByteHexOrder` | qr/main.swift:73 | one byte is smaller than another exactly when its two-digit rendering comes first |
| `Hex.BeforeBlocks` | qr/main.swift:73 | strings built from two-character blocks compare block by block |
| `Hex.HexPreservesOrder` | qr/main.swift:73 | payloads compare lexicographically by byte value exactly as their hex renderings compare by character code |
| `Hex.BinaryPayloadExample` | qr/main.swift:73 | the bytes FF 00 AB render as `ff00ab` |
| `Report.Line` | qr/main.swift:46-74 | the line for a code with a message is that message; for one without, it is `2n` hex digits for an `n`-byte payload (reference definition; `ReportLines` and `HexAt` characterise it) |
| `Report.FileFor` | qr/main.swift:46-56 | a code has an output file exactly when it has a message and `--out` is given |
| `Report.Emit` | qr/main.swift:42-76 | the loop writes nothing to stderr, prints at most one line per code and never more files than lines, and a successful loop prints exactly one line per code (reference definition; `EmitLines`, `EmitSuccess` and `EmitFailure` characterise it) |
| `Report.Report` | qr/main.swift:28-76 | a failed detector or image gives a failure with no output and no file; stderr is written exactly when no code is found; otherwise at most one line per code and no more files than lines (reference definition; `Run` equals it, and `NoCodesReport`, `DetectionFailedReport`, `ReportLines`, `ReportExit` and the `ReportFiles` lemmas characterise it) |
| `Report.EmitNext` | qr/main.swift:46-75 | one iteration prints the code's line, then either writes its file and goes on, or fails after the print |
| `Report.CodeStep` | qr/main.swift:43-56 | the loop body prints the message, or the hex of the payload when there is none; it derives a file name only for a message with `--out` |
| `Report.Run` | qr/main.swift:28-41 | the run equals the reference report: detector or image failure gives a failure; no code gives the stderr line |
| `Report.ReportCodes` | qr/main.swift:42-76 | the imperative loop over the codes produces exactly the reference outcome `Emit` |
| `Report.EmitLines` | qr/main.swift:42-47 | the loop prints each reached code's line in order, one per code, and nothing to standard error |
| `Report.EmitSuccess` | qr/main.swift:42-76 | the loop succeeds exactly when every write succeeds; it then prints one line per code and writes every code's file in order |
| `Report.EmitFailure` | qr/main.swift:57-70 | a failing loop stops at the first failed write, after printing that code's line and writing the earlier codes' files |
| `Report.NamesExactly` | qr/main.swift:48-56 | a name is among the written names exactly when it is the file of one of those codes |
| `Report.NamesDistinctList` | qr/main.swift:52-53 | when no two codes share a file, no name is written twice |
| `Report.StepFilesDistinct` | qr/main.swift:52-56 | no two codes of one run are assigned the same file |
| `Report.NoCodesReport` | qr/main.swift:38-41 | with zero codes: one stderr line `No QR codes detected`, no stdout line, no file, success |
| `Report.DetectionFailedReport` | qr/main.swift:30-36 | a missing detector or an unreadable image ends with a failure and no output |
| `Report.ReportLines` | qr/main.swift:42-47 | with codes: nothing on stderr, and stdout line k is the message of code k, or the hex of its payload when it has none |
| `Report.ReportExit` | qr/main.swift:57-70 | with codes: the run succeeds exactly when every derived file can be written, and then it prints exactly one line per code |
| `Report.ReportWritten` | qr/main.swift:42-76 | the files written are the files of the codes before a bound `hi`: on success `hi` is the number of codes; on failure every write before `hi` succeeded and the write of code `hi` failed |
| `Report.ReportFilesNamed` | qr/main.swift:46-56 | every written file belongs to a code with a message, and only when `--out` is given |
| `Report.ReportFilesDistinct` | qr/main.swift:52-56 | a run never writes the same file twice |
| `Report.ReportFilesComplete` | qr/main.swift:46-70 | a successful run writes the file of every code that has a message when `--out` is given |
| `Report.ReportWithoutOut` | qr/main.swift:48 | without `--out`, no file is written and the run cannot fail after detection |

## Left out

- Image loading (`CIImage(contentsOf:)`) and QR detection (`CIDetector.features`) are platform calls. Their result is the input `detected`. `None` stands for a detector or image that could not be created.
- The QR codec itself (finder patterns, masking, BCH and Reed–Solomon codes) is not part of this repository, so it is not modelled.
- QR generation (`CIQRCodeGenerator`) and PNG writing (`writePNGRepresentation`) are platform calls. Whether they succeed for a file name is the oracle `writable`. A written file is modelled only by its name, not its contents.
- A `nil` result of `outputImage!` crashes the process rather than exiting with `ExitCode.failure`. The model counts it as a failed write, so it does not tell a crash from a failure exit.
- The forced cast to `CIQRCodeFeature` and the forced `symbolDescriptor!` are assumed to succeed. Every feature carries a payload.
- The UTF-8 conversion of the message for re-encoding has no effect the model observes.
- Argument parsing (ArgumentParser) is not modelled. The `--out` value arrives as an `Option<string>`.
- Paths.PathExtension: Foundation is not part of this model. The definition does not strip trailing slashes and does not special-case hidden files such as `.png`.
- Text is a sequence of characters. A printed line is one `print` call, without the newline; a message that itself contains newlines is still one line.
