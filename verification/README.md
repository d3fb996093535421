# AMD PSP directory extractor — a Dafny model

`amdpsp_extract.py` reads an AMD flash image and extracts the firmware
segments listed in its PSP directory:

1. it finds the first occurrence of the signature `$PSP`;
2. it decodes the 16-byte directory header there (cookie, checksum,
   `TotalEntries`, reserved: little-endian u32s) and the `TotalEntries`
   16-byte entries behind it (type u32, size u32, location u64);
3. it dumps each entry in on-disk order:
   - it skips an entry whose size is the placeholder `0xffffffff`;
   - it translates the entry's flash address into an image offset by
     subtracting `0xff000000`;
   - it names the segment by the `PSP_DIRECTORY_ENTRY_TYPE` registry, or
     `Unknown_` + `hex(type)`;
   - it writes the raw segment to `<name>.bin`;
   - when the byte 0x100 past the segment start is `0x78`, the zlib CMF
     byte of section 2.2 of RFC 1950, it inflates the image from there
     and writes `<name>_decompressed.bin`.

The model keeps that structure, one module per concern:

| file | module | models |
|---|---|---|
| `wrappers.dfy` | `Wrappers` | `Option` / `Result` |
| `little_endian.dfy` | `LittleEndian` | byte and integer widths; the `Int32ul` / `Int64ul` field encoding |
| `hex.dfy` | `Hex` | Python's `hex()` on non-negative integers |
| `locator.dfy` | `DirectoryLocator` | `indata.find(b"$PSP")` |
| `directory.dfy` | `PspDirectory` | header and entry layouts; parsing the directory |
| `entry_types.dfy` | `EntryTypes` | the type registry and the `Unknown_` fallback |
| `segment.dfy` | `SegmentExtractor` | `dumpOneSegment` |
| `analyze.dfy` | `PspExtract` | `analyzePSP`'s loop and the locate-then-analyze pass of `main` |

Files are not written. Each write becomes an `Output`: the entry type, a
flag for the decompressed form, and the bytes. `FileName` renders the
file name. A run returns the outputs in write order, the outcome of each
processed entry, and how the run ended.

The pure parts are functions:

- decoding;
- address translation;
- classification;
- the zlib probe;
- `ExtractSegment` and `ProcessEntries`, which specify one entry and the entry loop.

The step-by-step parts are methods proved equal to those functions:

- `DumpOneSegment` emits the raw output, then the conditional decompressed output;
- `AnalyzePsp` runs the `for` loop over the entries. Its loop invariant ties
  the outputs so far to `ProcessEntries` on the first k entries.

Lemmas then prove what the tool promises about those functions.

On errors the model follows the code:

- **Decompression failure.** `zlib.decompress` raising is not caught
  (`amdpsp_extract.py:58`), so the run ends after that entry's raw output:
  `Aborted(InflateFailed(k))`. Later entries are not processed.
- **Missing signature.** When `$PSP` is absent, `find` returns -1 and
  parsing a header from the last byte raises: the run ends with no output.
  This is modelled as `Aborted(DirectoryNotFound)`.
- **Truncated directory.** A header or entry table that runs past the
  image end raises in the parser. This is modelled as
  `Aborted(Truncated(...))`, with no output.

On one point the model does not follow the code but the evidently
intended behaviour:

- **Out-of-range segments.** A segment that does not lie entirely inside
  the image is skipped with outcome `OutOfRange`: no output, and the run
  goes on with the next entry. The code instead slices with Python's
  rules and still probes for zlib (see Findings and "Left out").

## Model

| member | source | states |
|---|---|---|
| LittleEndian.DecodeEncode | amdpsp_extract.py:10-21 | decoding the little-endian encoding of a value gives the value back |
| LittleEndian.EncodeDecode | amdpsp_extract.py:10-21 | encoding a decoded byte string at its own width gives the bytes back, so a field's bytes determine its value and vice versa |
| LittleEndian.Decode | amdpsp_extract.py:11-20 | the unsigned value of a little-endian byte string, as `Int32ul`/`Int64ul` read it; it fits the string's width. See DecodeEncode, EncodeDecode |
| LittleEndian.DecodeAtIff | amdpsp_extract.py:10-21 | the bytes at p..p+w decode to v if and only if they are v's w-byte little-endian encoding |
| LittleEndian.U32At | amdpsp_extract.py:11-14 | an `Int32ul` field read at p is the value whose 4-byte little-endian encoding is exactly the bytes at p..p+4 |
| LittleEndian.U64At | amdpsp_extract.py:20 | an `Int64ul` field read at p is the value whose 8-byte little-endian encoding is exactly the bytes at p..p+8 |
| Hex.DigitValue | amdpsp_extract.py:51 | a lowercase hex digit's value is below 16 and is the digit's position in "0123456789abcdef" |
| Hex.Digits | amdpsp_extract.py:51 | the base-16 digits of n are non-empty and lowercase; a value below 16 is its single digit ("0" for zero), and a larger one does not start with '0' (no leading zeros) |
| Hex.ToHex | amdpsp_extract.py:51 | `hex(n)` starts with "0x" and has at least one digit |
| Hex.ParseDigitsOfDigits | amdpsp_extract.py:51 | reading back the digits of n gives n |
| Hex.ToHexInjective | amdpsp_extract.py:51 | distinct values have distinct `hex` renderings |
| DirectoryLocator.FindFrom | amdpsp_extract.py:76 | the result is the least index at or after `from` where "$PSP" starts, or none exists at or after `from` |
| DirectoryLocator.FindSignature | amdpsp_extract.py:76 | a directory offset is found if and only if "$PSP" occurs; "$PSP" starts at the offset, and at no earlier index |
| DirectoryLocator.FirstOccurrence | amdpsp_extract.py:76 | any occurrence of "$PSP" bounds the located offset from above |
| PspDirectory.EncodeHeader | amdpsp_extract.py:10-15 | a header occupies 16 bytes |
| PspDirectory.EncodeEntry | amdpsp_extract.py:17-21 | an entry occupies 16 bytes |
| PspDirectory.HeaderAt | amdpsp_extract.py:10-15 | the header read at `off` is the one whose encoding (cookie, checksum, TotalEntries, reserved; u32 LE each) is exactly the 16 bytes at `off` |
| PspDirectory.EntryAt | amdpsp_extract.py:17-21 | the entry read at `off` is the one whose encoding (type u32, size u32, location u64; LE) is exactly the 16 bytes at `off` |
| PspDirectory.ParseDirectory | amdpsp_extract.py:63-65 | parsing succeeds if and only if the header and all TotalEntries entries fit in the image; on success there are exactly TotalEntries entries; a failure reports the directory offset and a positive shortfall |
| PspDirectory.EncodeHeaderInjective | amdpsp_extract.py:10-15 | equal header encodings come from equal headers |
| PspDirectory.EncodeEntryInjective | amdpsp_extract.py:17-21 | equal entry encodings come from equal entries |
| PspDirectory.ParseDirectoryExact | amdpsp_extract.py:63-65 | parsing at `off` gives directory d if and only if d's header is stored at off and its entry k at off+16+16k, for each of its TotalEntries entries |
| EntryTypes.RegistryName | amdpsp_extract.py:23-41 | the registry names a code if and only if it is one of the 18 enum values 0x00-0x0D, 0x10, 0x12, 0x1A, 0x5F |
| EntryTypes.TypeName | amdpsp_extract.py:49-51 | the segment type name: the registry name of a registered code, else "Unknown_" + hex(code). See TypeNameRoundTrip, FallbackNameForm, TypeNameInjective |
| EntryTypes.RegistryNamesDistinct | amdpsp_extract.py:23-41 | distinct registered codes have distinct enum names |
| EntryTypes.RegistryRoundTrip | amdpsp_extract.py:23-41 | every enum name reads back, through the registry, as its own code |
| EntryTypes.RegistryNamesAreNotFallbacks | amdpsp_extract.py:23-41 | no enum name starts the way a fallback name does |
| EntryTypes.TypeNameRoundTrip | amdpsp_extract.py:49-51 | the type code is recovered from every segment name, registered or fallback |
| EntryTypes.FallbackNameForm | amdpsp_extract.py:50-51 | an unregistered code is named "Unknown_0x" followed by its lowercase hex digits, with no leading zeros, which read back as the code |
| EntryTypes.TypeNameInjective | amdpsp_extract.py:49-52 | two codes get the same segment name if and only if they are equal |
| SegmentExtractor.FileOffset | amdpsp_extract.py:47 | the image offset plus 0xff000000 is the location; it is negative exactly when the location lies below the flash base |
| SegmentExtractor.FileNamesDistinct | amdpsp_extract.py:52-59 | two outputs of the same kind go to the same file if and only if their entry types are equal |
| SegmentExtractor.FileName | amdpsp_extract.py:52-59 | an output's file name: type name + ".bin" for the raw segment, type name + "_decompressed.bin" for the inflated stream. See FileNamesDistinct, RawSegmentIsExact, DecompressionAttempt |
| SegmentExtractor.ZlibDetected | amdpsp_extract.py:55 | the probe: offset + 0x100 lies inside the image and the byte there is 0x78. See DecompressionAttempt |
| SegmentExtractor.ExtractSegment | amdpsp_extract.py:43-60 | the outputs and outcome of one entry: placeholder, out of range, raw only, raw and inflated, or raw then a failed inflate. See PlaceholderProducesNothing, OutputsExactlyForPresentSegments, RawSegmentIsExact, DecompressionAttempt |
| SegmentExtractor.DumpOneSegment | amdpsp_extract.py:43-60 | the outputs emitted step by step, and the entry's outcome, are exactly those of `ExtractSegment` |
| SegmentExtractor.PlaceholderProducesNothing | amdpsp_extract.py:45-46 | an entry of size 0xffffffff produces no output and no error |
| SegmentExtractor.OutputsExactlyForPresentSegments | amdpsp_extract.py:45-55 | an entry produces at most two outputs; it produces some if and only if it is not the placeholder and its segment lies in the image |
| SegmentExtractor.RawSegmentIsExact | amdpsp_extract.py:47-54 | the first output is the raw segment, named type name + ".bin": Size bytes, byte i being image byte Location - 0xff000000 + i |
| SegmentExtractor.DecompressionAttempt | amdpsp_extract.py:55-60 | decompression is attempted if and only if the segment is extracted, offset + 0x100 is inside the image and the byte there is 0x78; the decompressor gets the image from that byte to the end; its result is the second output, named type name + "_decompressed.bin"; on failure only the raw output exists |
| SegmentExtractor.PyBound | amdpsp_extract.py:54 | a Python slice bound lands in 0..n, and an in-range bound is kept |
| SegmentExtractor.PySlice | amdpsp_extract.py:54 | a Python slice is never longer than the sequence |
| SegmentExtractor.RawAsWritten | amdpsp_extract.py:54 | the raw bytes the code writes, with Python's slice rules, whatever the location. See RawAsWrittenAgreesInImage and Findings |
| SegmentExtractor.ProbeAsWritten | amdpsp_extract.py:55 | the code's probe: the length guard, then a lookup read from the end when negative; it raises exactly when offset + 0x100 < -len(indata) |
| SegmentExtractor.ProbeAsWrittenAgreesInImage | amdpsp_extract.py:55 | for a segment inside the image, the code's probe fires exactly when the model's does |
| SegmentExtractor.RawAsWrittenAgreesInImage | amdpsp_extract.py:54 | for a segment inside the image, the code's Python slice and the model's raw output agree |
| SegmentExtractor.NegativeOffsetIsMisread | amdpsp_extract.py:47-54 | a location just below the flash base makes the code write Size bytes from the wrong place, an empty segment, or the image's tail, depending on the size; the model skips the entry as out of range |
| SegmentExtractor.OverlongSegmentIsCutShort | amdpsp_extract.py:54 | a segment running past the image end is written with fewer than Size bytes; the model skips the entry as out of range |
| SegmentExtractor.LowLocationCrashesProbe | amdpsp_extract.py:47-55 | location 0 on an 8-byte image: the code writes a raw slice (empty in this example) and its probe raises; the model skips the entry as out of range |
| PspExtract.ProcessEntries | amdpsp_extract.py:67-68 | the entry loop: each entry's outputs appended in order until an inflate failure aborts the run. See ProcessEntriesOutcomes, ProcessEntriesStopsAtFailure, ProcessEntriesOutputs, AbortIsFinal |
| PspExtract.AllOutputsSnoc | amdpsp_extract.py:67-68 | the outputs of entries plus one more are the outputs of the entries followed by that entry's outputs |
| PspExtract.ProcessEntriesStep | amdpsp_extract.py:67-68 | one more loop iteration extends a completed run by that entry's outputs and outcome, and aborts it when that entry's decompression failed |
| PspExtract.AbortIsFinal | amdpsp_extract.py:67-68 | once the run has aborted, later entries change nothing |
| PspExtract.ProcessEntriesOutcomes | amdpsp_extract.py:67-68 | the run processes a prefix of the entries in on-disk order, entry k with the outcome `ExtractSegment` gives it |
| PspExtract.ProcessEntriesStopsAtFailure | amdpsp_extract.py:67-68 | a completed run processes every entry; an aborted run stops at, and reports, the first entry whose decompression failed, and only that entry failed |
| PspExtract.ProcessEntriesOutputs | amdpsp_extract.py:67-68 | the outputs are those of the processed entries, concatenated in entry order |
| PspExtract.AnalyzePsp | amdpsp_extract.py:62-68 | the loop over the parsed entries returns exactly the run `AnalyzeDirectory` specifies |
| PspExtract.AnalyzeDirectory | amdpsp_extract.py:62-68 | `analyzePSP`: a truncated directory aborts with no output, otherwise the entry loop runs over the parsed entries. See AnalyzePsp |
| PspExtract.RunImage | amdpsp_extract.py:74-77 | the whole pass: no "$PSP" aborts with no output, otherwise the directory at the first one is analyzed. See RunImageFailures, RunImageProcessesEveryEntry, ExtractFirmware |
| PspExtract.ExtractFirmware | amdpsp_extract.py:74-77 | locating "$PSP" and then analyzing there returns exactly the run `RunImage` specifies |
| PspExtract.RunImageFailures | amdpsp_extract.py:62-77 | the run reports a missing directory if and only if "$PSP" does not occur; it reports a truncated directory if and only if the first directory does not fit; either way nothing was output |
| PspExtract.RunImageProcessesEveryEntry | amdpsp_extract.py:63-68 | a completed run processes exactly TotalEntries entries of the first directory, entry k decoded from the 16 bytes at offset + 16 + 16k |
| PspExtract.SingleEntryRun | amdpsp_extract.py:62-77 | a directory of one entry whose decompression does not fail yields exactly that entry's outputs and outcome |
| PspExtract.ScenarioCookie | amdpsp_extract.py:11 | a header whose cookie is 0x50535024 is stored as the bytes "$PSP" |
| PspExtract.ScenarioLocated | amdpsp_extract.py:76 | in the sample image (16 zero bytes, then the directory) the directory is found at 16 |
| PspExtract.ScenarioParsed | amdpsp_extract.py:63-65 | the sample directory parses to its header and its one entry |
| PspExtract.ScenarioExtracted | amdpsp_extract.py:45-55 | the sample entry (type 0x06, size 4, at 0xff000030) yields the raw bytes "DATA"; its probe byte lies past the image end, so there is no decompression |
| PspExtract.SingleEntryScenario | amdpsp_extract.py:62-77 | the run on the sample image writes one output holding "DATA" and completes |
| PspExtract.ScenarioFileName | amdpsp_extract.py:52 | that output is written to BIOS_RTM_FIRMWARE.bin |

## Left out

- `zlib.decompress` is a parameter `inflate` that returns `None` where the library raises; its algorithm is not modelled. Only the detection condition and the input slice are.
- The `construct` library is not modelled. Its effect is little-endian decoding, with a failure result when the buffer is too short.
- File writes, `print`, `sys.argv`, the usage message and reading the input file are left out. The outputs are a sequence of `Output` values, and the image is a parameter.
- The cookie and the checksum are decoded but never validated, as in the code.
- Nested and secondary directories are not followed, as in the code.
- Python's negative-index reading and slice clamping are not reproduced by the model. A missing signature and an out-of-range segment become explicit results instead. The as-written slicing appears only under Findings.
- SegmentExtractor.ExtractSegment does not reproduce the code on a segment that is not entirely inside the image. The code writes the clamped or end-relative raw slice (line 54), then still applies the probe of line 55. With a non-negative offset whose segment runs past the end, the probe can fire: for example, a 0x200-byte image with byte 0x100 equal to 0x78 and an entry of size 0x1000 at 0xff000000. The code then inflates the image from 0x100 and writes `<name>_decompressed.bin`, or ends the run if the decompressor raises (line 58). With a negative offset, the probe index `fileOff + 0x100` behaves in three ways. When `-0x100 <= fileOff < 0`, the index is non-negative, so the probe reads a byte counted from the image start and can fire, inflate, and write `_decompressed.bin` or end the run. When the index lies in `[-len(indata), 0)`, it reads a byte counted from the image end. When the index is below `-len(indata)`, the lookup raises and the run ends, after the raw slice was written (empty in the example under Findings); this happens, for example, for `Location` 0 on any image shorter than 0xfeffff00 bytes. The model instead reports `OutOfRange`, produces no output, probes nothing and goes on with the next entry. The raw slice and the probe of the code as written are modelled (`RawAsWritten`, `ProbeAsWritten`), but not the rest of the run that follows from them.
- A failed decompression ends the run, as the uncaught exception does in the code. Skipping only the failed entry's decompressed output and carrying on is not modelled.
- EntryTypes.TypeName and SegmentExtractor.FileName carry no contract of their own. They are total renderings, and the lemmas above state what their results mean.
- The sample lemmas use one small image, in which the header's cookie is the `$PSP` the tool finds: 16 zero bytes, a one-entry directory, then "DATA" at offset 0x30.

## Findings

| source | as written | input that shows it | evidently intended | confidence | as-written member | corrected member |
|---|---|---|---|---|---|---|
| amdpsp_extract.py:47-54 | a location below 0xff000000 gives a negative `fileOff`; when `fileOff >= -len(indata)`, `indata[fileOff:fileOff + Size]` is the Size bytes from `len(indata) + fileOff` when `fileOff + Size < 0`, a segment taken from the wrong place; otherwise it is `indata[len(indata) + fileOff : min(fileOff + Size, len(indata))]`, which is empty unless Size > len(indata) or the segment passes the end (bounds below `-len(indata)` clamp to 0) | image of 8 bytes [0..7], entry type 0x06: size 2 at 0xfeff_fffa writes [2, 3]; size 4 at 0xfeff_fffe writes nothing; size 12 there writes [6, 7] | such an entry is rejected as outside the image | medium, not executed | SegmentExtractor.NegativeOffsetIsMisread | SegmentExtractor.RawSegmentIsExact |
| amdpsp_extract.py:54 | a segment running past the image end is silently clamped, so the file holds fewer than Size bytes; the zlib probe of line 55 still runs on it | image of 8 bytes, entry type 0x06, size 4, location 0xff000006: writes 2 bytes | the written segment holds exactly Size bytes, or the entry is rejected | medium, not executed | SegmentExtractor.OverlongSegmentIsCutShort | SegmentExtractor.RawSegmentIsExact |
| amdpsp_extract.py:55 | a location so far below 0xff000000 that `fileOff + 0x100 < -len(indata)` passes the length guard, and `indata[fileOff + 0x100]` raises IndexError, ending the run after the raw slice was written (empty in this example) | image of 8 bytes, entry type 0x06, size 4, location 0 | such an entry is rejected as outside the image and the run goes on | high, not executed | SegmentExtractor.LowLocationCrashesProbe | SegmentExtractor.OutputsExactlyForPresentSegments |
