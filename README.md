# SigRemover in Dafny

SigRemover is a Windows command-line tool that removes the Authenticode
signature from a PE file (an .exe or .dll). It reads the file into memory
and finds the PE headers. It then looks at the Certificate (Security)
data-directory entry, index 4 of the optional header's data directories
(Microsoft PE/COFF specification, section 3.4.3 "Optional Header Data
Directories", and the "Attribute Certificate Table (Image Only)" section).
When the certificate table is the tail of the file, the tool clears the
entry, cuts the file at the table's start, stores a recomputed image
checksum and writes the result to a new file.

This project models the core of that tool:

- `types.dfy`, module `Types`: the `EXIT_CODES` outcomes, the
  `CHECK_PTR_4_OVERRUN` bounds test and `SIZEOF_TEXT` from
  `SigRemover/Types.h`.
- `bytes.dfy`, module `Bytes`: bytes, WORDs and DWORDs, and little-endian
  reads and writes in a byte buffer.
- `pe_file.dfy`, module `PeFile`: `CSigRem::process_PE_File`.
  - `LocateHeaders` is the chain of header checks.
  - `Inspect` classifies the Security entry.
  - `Process` describes the whole routine as a function of the input image.
  - `ProcessPEFile` is the routine in place on an `array<byte>`, proved
    equal to `Process`. Both use the intended tail test of `Inspect`, not
    the wrapping sum the source computes (see "## Findings"); the
    classification as written is `InspectAsWritten`.
- `pe_file_properties.dfy`, module `PeFileProperties`: what the routine
  promises for each outcome, stated as lemmas about `Process`.
- `sig_rem.dfy`, module `SigRem`: the smaller helpers of `CSigRem`.
  - `IsCmdLineParam` recognises a command-line switch.
  - `NoSigFileName` and `OutputPath` build the generated output name.
  - `ErrorCodeText` picks the hexadecimal or decimal form of an OS error code.
  - `ScrubLineBreaks` is the loop that blanks CR and LF in an error message.
    It works in place on an `array<char>`.
- `format.dfy`, module `Format`: the `%u`, `%X` and `%04u` conversions. Each
  is proved to print only digits of its base, without superfluous leading
  zeros, that read back as the number.
- `sig_remover.dfy`, module `SigRemover`: `_tmain` from
  `SigRemover/SigRemover.cpp`.
  - `ScanArguments` is the argument loop, proved against `ScanFrom`.
  - `Execute` and `Run` choose the exit code and build the copyright years
    of the banner.

Some outside calls become parameters:

- `CheckSumMappedFile` is a parameter `checksum: seq<byte> -> Option<u32>`
  (`None` means the call failed). The OS error it leaves behind is a
  parameter `lastError`.
- The `FUZZING_BUILD` switch is the parameter `strict`. `strict` is false in
  a fuzzing build, which skips the NT-signature test.
- `PathFindExtension` is an extension offset `extOffset` into the path.
- `GetLocalTime` gives the parameter `year`.
- `CSigRem::RemoveDigitalSignature`, as `_tmain` calls it, is a parameter
  `remove`.

Integer widths:

- A DWORD is `u32`. The caller only hands over files shorter than `INT_MAX`
  (`SigRemover/CSigRem.cpp:44`), which is a precondition of
  `ProcessPEFile`.
- `size_t` is 64 bits wide (the x64 build), so `e_lfanew + 264` at
  `CSigRem.cpp:387` cannot wrap.

## Model

| member | source | states |
|---|---|---|
| Types.ExitCode.Value | SigRemover/Types.h:36-46 | The exit value of an outcome lies in -6..1. It is non-negative exactly for XC_Success and XC_BinaryHasNoSignature. |
| Types.FromValue | SigRemover/Types.h:36-46 | An exit value decodes to the outcome that has it. Only values outside -6..1 decode to nothing. |
| Types.ValueRoundTrip | SigRemover/Types.h:36-46 | Every outcome's exit value decodes back to that outcome. |
| Types.ValuesDistinct | SigRemover/Types.h:36-46 | Two different outcomes never share an exit value. |
| Types.Overruns | SigRemover/Types.h:51 | CHECK_PTR_4_OVERRUN holds exactly when the structure's end reaches the buffer end (a start at or past the end implies that). |
| Types.OverrunsIffNoByteFollows | SigRemover/Types.h:51 | CHECK_PTR_4_OVERRUN accepts a structure exactly when at least one byte of the buffer follows it. A structure that ends exactly at the buffer end is rejected. |
| Types.SizeofText | SigRemover/Types.h:53 | SIZEOF_TEXT (element count minus one) is the literal's length without its terminator. |
| PeFile.LocateHeaders | SigRemover/CSigRem.cpp:378-479 | When the header checks accept, the NT headers lie at e_lfanew and fit in the buffer, and the Security entry and the first section header are followed by buffer bytes. The section offset is e_lfanew+24+SizeOfOptionalHeader, and the bitness matches Magic 0x10b or 0x20b. |
| PeFile.LocateHeadersAccepts | SigRemover/CSigRem.cpp:378-479 | The header checks accept exactly when all of these hold: the buffer holds a DOS header; e_lfanew+264 fits; the signature is "PE\0\0" in a strict build; the first section header is followed by a byte; Magic is 0x10b, or it is 0x20b and at least one byte follows the 64-bit NT headers. |
| PeFile.StrictOnlyAddsSignatureTest | SigRemover/CSigRem.cpp:398-405 | The strict and fuzzing builds differ only by the rejection of a non-"PE\0\0" signature. |
| PeFile.TailMatchesAsWritten | SigRemover/CSigRem.cpp:492 | The DWORD sum VirtualAddress+Size matches the file size exactly when the exact sum is the file size or the file size plus 2^32. |
| PeFile.InspectAsWritten | SigRemover/CSigRem.cpp:483-497 | The classification with the source's wrapping DWORD sum VirtualAddress+Size. A strippable verdict comes from accepted headers and carries the entry's VirtualAddress (the new size), for a nonzero entry whose VirtualAddress+Size equals the file size modulo 2^32. |
| PeFile.Inspect | SigRemover/CSigRem.cpp:483-497 | The classification with the intended tail test. A strippable verdict carries a nonzero entry whose VirtualAddress+Size is exactly the file size, with VirtualAddress inside the file. |
| PeFile.AsWrittenDiffersOnlyByWrap | SigRemover/CSigRem.cpp:492 | The written and the intended tail tests disagree only when the source accepts an entry that the intended test rejects, and that entry's VirtualAddress lies past the end of the file. |
| PeFile.WrappedSumPassesEnd | SigRemover/CSigRem.cpp:492 | A DWORD sum that wraps onto the file size needs a VirtualAddress beyond the file size. |
| PeFile.AsWrittenAcceptsEntryPastEnd | SigRemover/CSigRem.cpp:492-505 | In any image with accepted headers, an entry with VirtualAddress+Size = file size + 2^32 passes the source's test and gives a new size past the end of the buffer. |
| PeFile.ClearSecurityEntry | SigRemover/CSigRem.cpp:507-509 | After clearing, the Security entry reads (0, 0). No byte outside its 8 bytes changes. |
| PeFile.ClearSecurityEntryInPlace | SigRemover/CSigRem.cpp:507-509 | Storing zero in Size and then in VirtualAddress leaves exactly the buffer ClearSecurityEntry describes. |
| PeFile.Process | SigRemover/CSigRem.cpp:370-526 | The routine never changes the length of the buffer. |
| PeFile.ProcessPEFile | SigRemover/CSigRem.cpp:370-526 | The in-place routine returns the outcome, new size and OS error of Process and leaves the buffer Process describes. |
| PeFileProperties.ShortImageIsNotPE | SigRemover/CSigRem.cpp:378-383 | A buffer shorter than 64 bytes gives XC_Not_PE_File with ERROR_BAD_EXE_FORMAT and stays unchanged. |
| PeFileProperties.NtHeadersOutsideIsNotPE | SigRemover/CSigRem.cpp:387-394 | e_lfanew+264 beyond the buffer gives XC_Not_PE_File with ERROR_BAD_EXE_FORMAT and the buffer stays unchanged. |
| PeFileProperties.StrictRejectsBadSignature | SigRemover/CSigRem.cpp:398-405 | In a strict build a signature other than "PE\0\0" gives XC_Not_PE_File with ERROR_BAD_EXE_FORMAT. |
| PeFileProperties.SectionsOrMagicRejected | SigRemover/CSigRem.cpp:408-465 | A first section header not followed by a byte, or a Magic other than 0x10b and 0x20b, gives XC_Not_PE_File. |
| PeFileProperties.NotPEExactlyWhenHeadersRejected | SigRemover/CSigRem.cpp:378-479 | The outcome is XC_Not_PE_File if and only if the header checks reject the buffer. |
| PeFileProperties.NoSignatureLeavesImage | SigRemover/CSigRem.cpp:483-488 | The outcome is XC_BinaryHasNoSignature if and only if the headers are accepted and the Security entry is (0, 0). Then no OS error is set and no byte changes. |
| PeFileProperties.MisplacedSignatureRejected | SigRemover/CSigRem.cpp:492-497 | With the intended tail test: the outcome is XC_BadSignature if and only if the entry is nonzero and does not end at the end of the file. Then the OS error is 1466 and the buffer is unchanged. |
| PeFileProperties.ValidationPrecedesMutation | SigRemover/CSigRem.cpp:378-501 | Only five outcomes are possible. Every outcome except success and a failed checksum leaves the buffer unchanged and sets no new size. |
| PeFileProperties.SuccessStripsSignature | SigRemover/CSigRem.cpp:505-525 | With the intended tail test: on success the new size is the original VirtualAddress, inside the file, and the entry ends at the file end. The entry now reads (0, 0). The CheckSum field holds the checksum of the first VirtualAddress bytes of the cleared buffer. No other byte changes. |
| PeFileProperties.FailedChecksumKeepsClearedEntry | SigRemover/CSigRem.cpp:508-518 | When the checksum fails, the OS error is the one the call left and the new size is already set. The buffer is exactly the image with the Security entry cleared: the clearing is not undone and the CheckSum field is not written. |
| PeFileProperties.WholeFileSignatureTruncatesToZero | SigRemover/CSigRem.cpp:483-525 | An entry (0, file size) passes every test. If the checksum call accepts an empty range, the routine succeeds with new size 0. |
| PeFileProperties.LocateOnAgreeingBuffer | SigRemover/CSigRem.cpp:378-479 | The header checks read nothing at or past the CheckSum field. A buffer that agrees below it is rejected or located at the same headers. |
| PeFileProperties.StrippedImageHasNoSignature | SigRemover/CSigRem.cpp:505-525 | Running the routine again on the stripped output finds no signature: "no signature" when its headers are accepted, otherwise "not a PE file". |
| SigRem.IsCmdLineParam | SigRemover/CSigRem.cpp:529-552 | A match needs a non-empty name, an argument one character longer that starts with '-', '/' or '\', and the rest of the argument equal to the name ignoring case. |
| SigRem.OneLetterSwitchSpellings | SigRemover/CSigRem.cpp:534-548 | An argument matches a one-letter switch exactly when it is '-', '/' or '\' followed by that letter in either case. |
| SigRem.KnownSwitchesExclusive | SigRemover/CSigRem.cpp:529-552 | No argument matches two of the switches i, o, ? and h. |
| SigRem.NoSigFileName | SigRemover/CSigRem.cpp:83-100 | The generated name is the path with " (NoSig)" at the extension offset. With its terminator it exactly fills the buffer of length+1+SIZEOF_TEXT(suffix) characters reserved for it. |
| SigRem.NoSigFileNameRoundTrip | SigRemover/CSigRem.cpp:94-100 | Removing the suffix from the generated name gives back the input path. |
| SigRem.OutputPath | SigRemover/CSigRem.cpp:76-104 | A non-empty -o path is used as given. Otherwise the result is the generated name NoSigFileName, which never equals the input path. |
| SigRem.UsesHexFormat | SigRemover/CSigRem.cpp:248 | The 0xC0000000 mask test on the code's bit pattern holds exactly for negative codes and codes from 2^30 up. |
| SigRem.HexFormatChoice | SigRemover/CSigRem.cpp:248 | The hexadecimal form is chosen exactly for negative codes and codes of 2^30 and above. |
| SigRem.ErrorCodeText | SigRemover/CSigRem.cpp:246-259 | The error-code text fits its 32-character buffer. In hexadecimal form it is "0x" followed by upper-case hexadecimal digits without a leading zero that read back as the code's unsigned pattern; in decimal form it is decimal digits without a leading zero (unless the code is 0) that read back as the code. |
| SigRem.Scrubbed | SigRemover/CSigRem.cpp:342-354 | The cleaned buffer keeps its length and ends in NUL, and its C string ends where it did. The C string holds no CR or LF, each changed character was a CR or LF that became a space, and nothing from the first NUL to the last element changes. |
| SigRem.ScrubbedIdempotent | SigRemover/CSigRem.cpp:342-354 | Cleaning an already cleaned buffer changes nothing. |
| SigRem.ScrubLineBreaks | SigRemover/CSigRem.cpp:342-354 | The in-place loop leaves the buffer Scrubbed describes. |
| Format.ToDigits | SigRemover/CSigRem.cpp:251-256 | The "%u" and "%X" digits of a number are never empty, are "0" for zero and have no leading zero otherwise. |
| Format.ToDigitsRoundTrip | SigRemover/CSigRem.cpp:251-256 | The "%u" and "%X" digits of a number read back as that number. |
| Format.ToDigitsLength | SigRemover/CSigRem.cpp:246-256 | A number below base^k prints in at most k digits, so a DWORD takes at most 10 decimal or 8 hexadecimal digits. |
| Format.ZeroPad4 | SigRemover/SigRemover.cpp:140 | "%04u" gives only decimal digits, at least four of them, that read back as the number; a text longer than four characters has no leading zero. |
| SigRemover.ScanFrom | SigRemover/SigRemover.cpp:51-108 | The loop ends with exit code 0 or -1. Exit code 0 (help) clears both paths, and so does an unsupported parameter. A captured path that differs from the earlier one is an argument of the command line. |
| SigRemover.ScanArguments | SigRemover/SigRemover.cpp:51-108 | The argument loop, with its ++p skip and its breaks, ends in the state ScanFrom describes from argv[1]. |
| SigRemover.LaterInputOverrides | SigRemover/SigRemover.cpp:59-63 | Once the rest of the command line captures an input path, the input path captured before makes no difference: a later -i wins wherever it stands. |
| SigRemover.LaterOutputOverrides | SigRemover/SigRemover.cpp:74-78 | Once the rest of the command line captures an output path, the output path captured before makes no difference: a later -o wins wherever it stands. |
| SigRemover.DanglingSwitchKeepsCaptured | SigRemover/SigRemover.cpp:59-84 | A final -i or -o without a path reports an error, stops the loop with exit code -1, and keeps the paths captured before. |
| SigRemover.CopyrightYears | SigRemover/SigRemover.cpp:134-141 | The banner years are "2021" up to 2021; after that "2021-" followed by decimal digits that read back as the year, at least four of them and without a leading zero when there are more. |
| SigRemover.Run | SigRemover/SigRemover.cpp:36-155 | A removal runs exactly when there are arguments and the scan captured an input path; it is given that path and the captured output path, and the exit code is its outcome's value. Without a removal the exit code is 0 or -1. The banner is printed exactly when there are no arguments; it then holds CopyrightYears(year), nothing is reported and the exit code is 0. |
| SigRemover.Execute | SigRemover/SigRemover.cpp:36-155 | The body of _tmain decides what Run describes. |
| SigRemover.NoArgumentsExitsZero | SigRemover/SigRemover.cpp:127-155 | Without arguments the exit code is 0 and nothing is removed. |
| SigRemover.HelpExitsZero | SigRemover/SigRemover.cpp:86-97 | -h or -? first gives exit code 0, no report and no removal. |
| SigRemover.UnsupportedParameterFails | SigRemover/SigRemover.cpp:98-107 | An unsupported parameter is reported, nothing is removed, and the exit code stays -1. |
| SigRemover.OutputWithoutInputFails | SigRemover/SigRemover.cpp:112-125 | An output path without an input path is reported last and gives exit code -1 with no removal. |
| SigRemover.DanglingOutputStillRemoves | SigRemover/SigRemover.cpp:59-115 | "-i a.exe -o" reports the missing -o path but still removes the signature of a.exe, writing to the generated name, and exits with that outcome. |

## Left out

- File I/O in `CSigRem::RemoveDigitalSignature` (`SigRemover/CSigRem.cpp:30-240`): opening, sizing, reading and writing files, and the per-outcome reports. `_tmain` sees the whole function as the parameter `remove`. Only its file-size precondition and the output-name step are modelled.
- The allocation and `StringCchPrintf` failure paths of the name construction (`CSigRem.cpp:101-119`) are not modelled. The name is proved to fit its buffer exactly, so formatting cannot fail for lack of room, and allocation failure is outside the model.
- The internals of `CheckSumMappedFile` are not visible. It is an abstract parameter that may fail. The debug-only `MapFileAndCheckSum` re-check (`CSigRem.cpp:158-167`) is not modelled.
- The debug assertion that the new size is positive (`CSigRem.cpp:66`) is not modelled. `PeFileProperties.WholeFileSignatureTruncatesToZero` shows an input that reaches it with size 0.
- SigRem.IsCmdLineParam: `CompareString` with `NORM_IGNORECASE` in the user's locale is modelled as case folding of the ASCII letters only. Locale-specific folding of other characters is not captured.
- `PathFindExtension` is the offset parameter `extOffset`, which is at most the path's length. How it finds the last extension is not modelled.
- `FormatMessage`, `GetLastError`, `SetLastError`, `GetModuleFileName` and `GetLocalTime` are OS calls. Their results are parameters (`lastError`, `year`) or are left out.
- Console output is left out: `wprintf`, `ShowHelpInfo`, the message bodies of `ReportOSError`, and the application name and version in the banner. The model keeps which error is reported (`SigRemover.Diagnostic`), the banner years and the exit code.
- `SigRemFuzzer/SigRemFuzzer/Program.cs` is a test driver that spawns the executable over directory trees. It is not part of this model.
- Raw pointer casts and alignment are left out. Every field is a byte offset into the buffer.
- On a 32-bit build, `e_lfanew + 264` at `CSigRem.cpp:387` could wrap in a 32-bit `size_t`. This model takes the 64-bit build.
- PeFile.Process: uses the intended tail test of `PeFile.Inspect`, not the wrapping DWORD sum of `CSigRem.cpp:492`. On an entry whose VirtualAddress + Size wraps onto the file size the source strips with a new size past the buffer, where `Process` reports XC_BadSignature; `PeFile.InspectAsWritten` and `PeFile.AsWrittenAcceptsEntryPastEnd` capture the source's behaviour there. So `PeFileProperties.MisplacedSignatureRejected` and `PeFileProperties.SuccessStripsSignature` hold for the corrected routine only.
- PeFile.Process: an out-parameter the routine does not assign is `None`. The caller's initial values (`-1` and `0`) are not modelled.

## Findings

| source | as written | input that shows it | evidently intended | confidence | as-written member | corrected member |
|---|---|---|---|---|---|---|
| SigRemover/CSigRem.cpp:492 | `VirtualAddress + Size` is a DWORD sum that wraps modulo 2^32 before it is compared with the file size. | Any accepted PE image of n bytes whose Security entry has VirtualAddress + Size = n + 2^32, for example VirtualAddress = 0xFFFFFFF0 and Size = n + 0x10. The test passes, and the new size 0xFFFFFFF0 lies past the buffer that the checksum and the write then read. | The signature must end exactly at the end of the file: VirtualAddress + Size = file size in unbounded arithmetic, which also keeps VirtualAddress inside the file. | not executed | PeFile.InspectAsWritten, PeFile.AsWrittenAcceptsEntryPastEnd | PeFile.Inspect |
