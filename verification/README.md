# PatternCompress blocks, modelled in Dafny

This project models the byte-stream codec of PatternCompress. It has three parts.

- **Section framing** (`Protocol`). A section is a one-byte type tag, then a two-byte little-endian payload length, then the payload. Data is tag 0 and Code is tag 1.
  - The module builds sections and refuses payloads longer than 65535 bytes.
  - It reads a section's type, length and payload back, either at the start of a buffer or at an offset.
  - It merges two sections of one type. When their payloads do not fit together, the result is a full section plus an overflow section.
- **The additive compressor and its interpreter** (`AdditiveAlg`).
  - `Compress` scans the input for runs whose first difference (mod 256) stays constant. It turns each long run into a five-byte `DeltaIter` instruction in a Code section and everything else into literal Data sections. It then coalesces neighbouring sections of the same type in place.
  - `Decompress` walks the section stream with a cursor. It copies Data payloads and expands each `DeltaIter` into the bytes `(start + k * delta) mod 256`.
- **The minimal-byte encoder** (`Utils`). `ToMinimumBytes` writes each integer as its shortest little-endian byte string.

`Types` holds the machine integer types, `Option`/`Result` and the error values. The C# exceptions become `Err` values:
- `PayloadTooLarge` stands for the `ArgumentException` of `MakeSection`.
- `TypeMismatch` stands for the one raised by a merge.
- `OutOfRange` stands for an index or `BitConverter` read past the end of the buffer.
- `UnknownSectionType` and `UnknownOpcode` stand for the two exceptions thrown by `Decompress`.

The modules are laid out as follows.
- **Interpreter:** `Decompress` and its inner loops are methods proved equal to the specification function `Decoded`.
- **Compressor:** `Compress`, with its scan loop, coalescing loop and concatenation loop, is proved equal to `Compressed`.
- **Encoder:** `ToMinimumBytes` is proved equal to `MinimumBytesOf`.
- **Theorems:** the properties of the codec are lemmas about those functions.
  - What decompression of a compressed stream gives back (`CompressDecompress`, in terms of the image of the scan, `ScanImage`).
  - Where that equals the input.
  - Where it does not: the counterexample lemmas.
  - That a corrected scan round-trips every input.

The source's operations map to these functions, which the methods and lemmas in the table below are stated against:
- **Section readers.** `Protocol.GetSectionType` and `Protocol.GetSectionLength` model the readers at Protocol.cs lines 46-54. `Protocol.GetSectionTypeAt` and `Protocol.GetSectionLengthAt` model the offset readers at lines 63-71. `SectionRoundTrip` and `SectionRoundTripAt` show that they read a built section back as its type and length.
- **Interpreter.**
  - `AdditiveAlg.RunCode` is the instruction loop of a Code section (AdditiveAlg.cs lines 153-180). `RunCodeSection` implements it.
  - `AdditiveAlg.DecodeFrom` is the cursor loop from a given cursor (lines 135-188), and `AdditiveAlg.Decoded` is that loop from cursor 0. `Decompress` implements them.
- **Scan.**
  - `AdditiveAlg.ScanStep` is one step of the scan (lines 72-86). `EmitRun` implements it.
  - `AdditiveAlg.Scan` is the whole scan loop (lines 55-89). `ScanRuns` implements it.
- **Coalescing.** `AdditiveAlg.CoalesceInto` and `AdditiveAlg.Coalesce` are the coalescing loop (lines 91-108). `CoalesceRuns`, `CoalesceAt` and `MergeAt` implement them.
- **Whole compressor.** `AdditiveAlg.Compressed` is the whole of `Compress` (lines 47-117). The `Compress` method implements it.
- **Encoder.** `Utils.MinimumBytes` and `Utils.MinimumBytesOf` are the encoder's loops (Utils.cs lines 7-18). `ToMinimumBytes` implements them.

The model follows the code as written:
- **Instruction count.** The code writes the count as `j - i` (AdditiveAlg.cs line 72). The run it stands for is `data[i-1..j]`, which has `j - i + 1` bytes, so the count is one short. The model writes `j - i`.

Where the code and its own comments disagree, the code is followed:
- **Count width.** The opcode comment gives the count as `u32`, but the code writes and reads two bytes (AdditiveAlg.cs lines 78 and 163). The model uses two bytes, little-endian.

## Model

| member | source | states |
|---|---|---|
| Types.U16Bytes | src/blocks/PatternCompress.Blocks/Protocol.cs:23 | a 16-bit value is written as two bytes that read back little-endian as the value |
| Protocol.GetHeader | src/blocks/PatternCompress.Blocks/Protocol.cs:18-24 | the header is exactly HeaderSize = 3 bytes: the type, then the length mod 256, then the length / 256; it reads back as the length |
| Protocol.GetSectionData | src/blocks/PatternCompress.Blocks/Protocol.cs:56-61 | the payload read from the start of a buffer has exactly the length its header records |
| Protocol.GetSectionDataAt | src/blocks/PatternCompress.Blocks/Protocol.cs:73-78 | the payload read at an offset has exactly the length the header at that offset records |
| Protocol.TryMakeSection | src/blocks/PatternCompress.Blocks/Protocol.cs:26-36 | fails if and only if the payload exceeds 65535 bytes (so 65535 succeeds); on success the section is a well-framed section of 3 + \|d\| bytes whose type, length and payload read back as the inputs |
| Protocol.MakeSection | src/blocks/PatternCompress.Blocks/Protocol.cs:38-44 | returns TryMakeSection's section when that succeeds, and the too-large error exactly when the payload exceeds 65535 bytes |
| Protocol.SectionRoundTrip | src/blocks/PatternCompress.Blocks/Protocol.cs:46-61 | a built section reads back, from the start of a buffer, as the type, length and payload it was built from |
| Protocol.SectionRoundTripAt | src/blocks/PatternCompress.Blocks/Protocol.cs:63-78 | the same holds for the offset readers when the section sits between arbitrary bytes before and after it |
| Protocol.MergeSectionsAsMuchAsPossible | src/blocks/PatternCompress.Blocks/Protocol.cs:87-109 | sections with different type tags are a type mismatch; well-framed sections of one type merge into a section of that type; there is no overflow exactly when the payloads fit in 65535 bytes, and then the payload is p1 ++ p2; otherwise the first section is full, the overflow has the same type, and the two payloads together are p1 ++ p2 |
| Protocol.MergeFits | src/blocks/PatternCompress.Blocks/Protocol.cs:94-108 | when the payloads fit, the merge is exactly MakeSection(type, p1 ++ p2) with no overflow |
| Protocol.MergeOverflow | src/blocks/PatternCompress.Blocks/Protocol.cs:96-105 | when the payloads do not fit, the merged payload is exactly 65535 bytes and the overflow is \|p1\| + \|p2\| - 65535 bytes; both keep the input type; the two payloads in order are p1 ++ p2, so nothing is dropped or duplicated |
| AdditiveAlg.EmitDeltaIter | src/blocks/PatternCompress.Blocks/AdditiveAlg.cs:168-173 | the k loop appends exactly count bytes to the output, the k-th being (start + k * delta) mod 256 |
| AdditiveAlg.RunCodeSection | src/blocks/PatternCompress.Blocks/AdditiveAlg.cs:151-180 | the instruction loop of one Code section returns what the interpreter function RunCode gives, including its unknown-opcode and out-of-range errors |
| AdditiveAlg.Decompress | src/blocks/PatternCompress.Blocks/AdditiveAlg.cs:129-191 | the cursor loop returns exactly Decoded(compressed): the error of the first bad section, or the concatenated output of all sections |
| AdditiveAlg.DecodeAdvance | src/blocks/PatternCompress.Blocks/AdditiveAlg.cs:137-183 | a section the interpreter gets through moves the cursor by exactly 3 + length and appends its output (the Data payload verbatim, or the Code section's expansion) |
| AdditiveAlg.DecodeStops | src/blocks/PatternCompress.Blocks/AdditiveAlg.cs:137-187 | a truncated header or payload, a failing Code section or a type tag other than Data and Code ends the whole decoding with that error |
| AdditiveAlg.DeltaIterWraps | src/blocks/PatternCompress.Blocks/AdditiveAlg.cs:161-173 | start 250, count 10 and delta 5 expand to [250, 255, 4, 9, 14, 19, 24, 29, 34, 39] |
| AdditiveAlg.DecodeFailures | src/blocks/PatternCompress.Blocks/AdditiveAlg.cs:155-187 | a tag 2 is an unknown section type; opcode 99 is an unknown opcode; a payload, header or instruction cut short is out of range |
| AdditiveAlg.DecodeShift | src/blocks/PatternCompress.Blocks/AdditiveAlg.cs:135-188 | decoding depends only on the bytes from the cursor on: a prefix in front does not change what is decoded after it |
| AdditiveAlg.DecodeOkSection | src/blocks/PatternCompress.Blocks/AdditiveAlg.cs:137-187 | when decoding from a cursor succeeds, the header fits, the tag is Data or Code, a Data payload fits and a Code section interprets without error |
| AdditiveAlg.DecodeExtend | src/blocks/PatternCompress.Blocks/AdditiveAlg.cs:135-188 | a stream that decodes from a cursor, followed by any bytes, decodes to its output followed by the decoding of those bytes |
| AdditiveAlg.DecodeConcat | src/blocks/PatternCompress.Blocks/AdditiveAlg.cs:135-188 | compositionality: when a decodes, decoding a ++ b gives a's output followed by b's outcome |
| AdditiveAlg.RunCodeWellFormed | src/blocks/PatternCompress.Blocks/AdditiveAlg.cs:153-180 | a Code payload of whole DeltaIter instructions interprets to the runs of its instructions, in order |
| AdditiveAlg.DecodeSection | src/blocks/PatternCompress.Blocks/AdditiveAlg.cs:144-183 | a well-formed section on its own decodes to its payload (Data) or to its instructions' runs (Code) |
| AdditiveAlg.DecodeSections | src/blocks/PatternCompress.Blocks/AdditiveAlg.cs:135-188 | a list of well-formed sections, written one after the other, decodes to what its sections stand for, in order |
| AdditiveAlg.CodeMeaningLength | src/blocks/PatternCompress.Blocks/AdditiveAlg.cs:161-173 | a Code payload expands to as many bytes as the sum of its instruction counts |
| AdditiveAlg.MeaningLength | src/blocks/PatternCompress.Blocks/AdditiveAlg.cs:144-183 | what a list of sections stands for has the sum of its Data lengths plus the sum of its DeltaIter counts in bytes |
| AdditiveAlg.DecodedLength | src/blocks/PatternCompress.Blocks/AdditiveAlg.cs:135-188 | decoding well-formed sections succeeds, and the output length is the Data lengths plus the DeltaIter counts |
| AdditiveAlg.CodeAligned | src/blocks/PatternCompress.Blocks/AdditiveAlg.cs:161-166 | a Code payload of whole instructions is a multiple of 5 bytes long |
| AdditiveAlg.CodeAppend | src/blocks/PatternCompress.Blocks/AdditiveAlg.cs:153-180 | two Code payloads of whole instructions, joined, are one such payload that stands for both runs in order |
| AdditiveAlg.CodeSplit | src/blocks/PatternCompress.Blocks/Protocol.cs:101-103 | cutting a Code payload at a multiple of 5 leaves two payloads of whole instructions |
| AdditiveAlg.RunEnd | src/blocks/PatternCompress.Blocks/AdditiveAlg.cs:62-70 | the end of the run search lies between where it starts and the end of the data |
| AdditiveAlg.RunEndBreaks | src/blocks/PatternCompress.Blocks/AdditiveAlg.cs:62-70 | every difference before the run's end equals the search delta, and the difference at the end (if any) departs from it |
| AdditiveAlg.RunEndAtEnd | src/blocks/PatternCompress.Blocks/AdditiveAlg.cs:62-70 | when all remaining differences equal the search delta, the run reaches the end of the data |
| AdditiveAlg.ToUShort | src/blocks/PatternCompress.Blocks/AdditiveAlg.cs:78 | the ushort cast never increases a count |
| AdditiveAlg.ToUShortWraps | src/blocks/PatternCompress.Blocks/AdditiveAlg.cs:78 | a count between 65536 and 131071 loses exactly 65536 in the cast |
| AdditiveAlg.DeltaIterCode | src/blocks/PatternCompress.Blocks/AdditiveAlg.cs:78 | the instruction is 5 bytes, one whole DeltaIter, and stands for the run (start + k * delta) mod 256 of count bytes |
| AdditiveAlg.ProgressionRun | src/blocks/PatternCompress.Blocks/AdditiveAlg.cs:58-70 | bytes with a constant first difference d from data[lo] on are exactly the DeltaIter run of data[lo], m and d |
| AdditiveAlg.FrameMeaning | src/blocks/PatternCompress.Blocks/AdditiveAlg.cs:80-85 | every emitted section is well-formed, of type Code for an instruction and Data for a literal, and stands for its emission's bytes |
| AdditiveAlg.FrameAllMeaning | src/blocks/PatternCompress.Blocks/AdditiveAlg.cs:55-89 | the sections framed from a list of emissions are as many, all well-formed, and stand for the emissions' bytes in order |
| AdditiveAlg.ScanStepShape | src/blocks/PatternCompress.Blocks/AdditiveAlg.cs:72-86 | threshold rule: a step is an instruction if and only if j - i > 10; the instruction section is the header (Code, 5) then [0, data[i-1], count lo, count hi, delta] with count (j - i) mod 65536, followed by the break byte as Data when j is not the end; otherwise the step is one Data section data[i-1..j] of j - i + 1 <= 11 bytes |
| AdditiveAlg.StepMeaning | src/blocks/PatternCompress.Blocks/AdditiveAlg.cs:72-86 | what one scan step's sections stand for is its image: the first count bytes of the run from data[i-1] plus the break byte, or the literal slice |
| AdditiveAlg.StepImageBreak | src/blocks/PatternCompress.Blocks/AdditiveAlg.cs:76-81 | an instruction step that stops before the end gives back data[i-1..j-1] followed by data[j] |
| AdditiveAlg.ScanAfterIsScan | src/blocks/PatternCompress.Blocks/AdditiveAlg.cs:55-89 | the scan loop's accumulated emissions followed by the scan from its cursor are the emissions of the whole scan |
| AdditiveAlg.ScanMeaning | src/blocks/PatternCompress.Blocks/AdditiveAlg.cs:55-89 | what the scan's sections stand for is the scan's image, step by step |
| AdditiveAlg.MergePieces | src/blocks/PatternCompress.Blocks/AdditiveAlg.cs:95-103 | merging two well-formed sections of one type gives one or two well-formed sections of that type, the first full when there are two, standing for both inputs' bytes in order |
| AdditiveAlg.MergeFitsMeaning | src/blocks/PatternCompress.Blocks/AdditiveAlg.cs:95-106 | a merge that fits gives one well-formed section of the same type standing for both inputs in order |
| AdditiveAlg.MergeOverflowMeaning | src/blocks/PatternCompress.Blocks/AdditiveAlg.cs:95-103 | a merge that overflows gives a full well-formed section and a well-formed overflow of the same type that together stand for both inputs; Code payloads are never cut inside an instruction |
| AdditiveAlg.MergeIntoDone | src/blocks/PatternCompress.Blocks/AdditiveAlg.cs:93-106 | replacing the last section by its merge with the next keeps the list well-formed and appends the next section's bytes to what it stands for |
| AdditiveAlg.MergeIntoDonePacked | src/blocks/PatternCompress.Blocks/AdditiveAlg.cs:93-106 | that replacement keeps the list packed: neighbours of one type only where the first is full |
| AdditiveAlg.CoalesceIntoKeeps | src/blocks/PatternCompress.Blocks/AdditiveAlg.cs:91-108 | coalescing the rest into a packed prefix gives a packed, well-formed list standing for the prefix's bytes and then the rest's |
| AdditiveAlg.CoalesceKeeps | src/blocks/PatternCompress.Blocks/AdditiveAlg.cs:91-108 | the coalescing pass keeps what the sections stand for, in order, leaves only well-formed sections, and leaves neighbours of one type only where the first has a 65535-byte payload; it empties no non-empty list |
| AdditiveAlg.CoalescedCodeAligned | src/blocks/PatternCompress.Blocks/AdditiveAlg.cs:91-108 | after coalescing, every Code section's payload length is a multiple of 5, so no instruction is split across sections |
| AdditiveAlg.FindRunEnd | src/blocks/PatternCompress.Blocks/AdditiveAlg.cs:60-70 | the inner search loop stops at the run's end, RunEnd |
| AdditiveAlg.EmitRun | src/blocks/PatternCompress.Blocks/AdditiveAlg.cs:72-86 | the body of one scan step adds exactly the framed sections of ScanStep |
| AdditiveAlg.ScanRuns | src/blocks/PatternCompress.Blocks/AdditiveAlg.cs:55-89 | the scan loop, whose cursor jumps by the run length plus one, builds exactly the framed sections of Scan |
| AdditiveAlg.CoalesceAt | src/blocks/PatternCompress.Blocks/AdditiveAlg.cs:93-107 | one iteration of the coalescing loop keeps the final result of the pass and moves toward the end of the list |
| AdditiveAlg.MergeAt | src/blocks/PatternCompress.Blocks/AdditiveAlg.cs:95-106 | overwriting sections[i-1] with the merge and then either sections[i] with the overflow or removing it keeps the final result of the pass; the cursor then points after the merge |
| AdditiveAlg.CoalesceRuns | src/blocks/PatternCompress.Blocks/AdditiveAlg.cs:91-108 | the in-place coalescing loop yields exactly Coalesce of the scanned sections |
| AdditiveAlg.ConcatSections | src/blocks/PatternCompress.Blocks/AdditiveAlg.cs:110-114 | the output is the sections written one after the other, in order |
| AdditiveAlg.Compress | src/blocks/PatternCompress.Blocks/AdditiveAlg.cs:47-117 | returns exactly Compressed(data): one Data section for fewer than two bytes, otherwise the coalesced sections of the scan, concatenated |
| AdditiveAlg.CompressDecompress | src/blocks/PatternCompress.Blocks/AdditiveAlg.cs:27-44 | decompressing any compressed input succeeds; it gives back the input itself when it is shorter than two bytes, and the scan's image otherwise |
| AdditiveAlg.ScanImageLength | src/blocks/PatternCompress.Blocks/AdditiveAlg.cs:55-89 | the scan's image from cursor i has at most \|data\| + 1 - i bytes |
| AdditiveAlg.DecompressedNoLonger | src/blocks/PatternCompress.Blocks/AdditiveAlg.cs:31-34 | decompressing a compressed input never gives back more bytes than the input had |
| AdditiveAlg.LiteralOnlyImage | src/blocks/PatternCompress.Blocks/AdditiveAlg.cs:83-88 | when every step from cursor i on is literal and the last reaches the end, the scan's image is data[i-1..] |
| AdditiveAlg.LiteralOnlyRoundTrip | src/blocks/PatternCompress.Blocks/AdditiveAlg.cs:31-44 | such an input decompresses to itself |
| AdditiveAlg.ProgressionLosesLastByte | src/blocks/PatternCompress.Blocks/AdditiveAlg.cs:72-81 | a progression of 12 to 65536 bytes compresses to one instruction of count \|data\| - 1 and decompresses to all but its last byte |
| AdditiveAlg.TwelveEqualBytes | src/blocks/PatternCompress.Blocks/AdditiveAlg.cs:72-81 | twelve bytes 7 compress to [1, 5, 0, 0, 7, 11, 0, 0] and decompress to eleven 7s |
| AdditiveAlg.BreakByteTwice | src/blocks/PatternCompress.Blocks/AdditiveAlg.cs:81-88 | twelve zeros then 5, 9 decompress to eleven zeros then 5, 5, 9 |
| AdditiveAlg.LastByteDropped | src/blocks/PatternCompress.Blocks/AdditiveAlg.cs:55-88 | [0, 1, 5] decompresses to [0, 1] |
| AdditiveAlg.CountWraps | src/blocks/PatternCompress.Blocks/AdditiveAlg.cs:78 | a progression of 65548 bytes decompresses to its first eleven bytes only |
| AdditiveAlg.CorrectedRunLength | src/blocks/PatternCompress.Blocks/AdditiveAlg.cs:62-72 | the corrected run covers its anchor and at least one more byte, never more than 65535 bytes, and stays inside the data |
| AdditiveAlg.CorrectedRunConstant | src/blocks/PatternCompress.Blocks/AdditiveAlg.cs:62-70 | every first difference inside the corrected run is the one after the anchor |
| AdditiveAlg.CorrectedStepMeaning | src/blocks/PatternCompress.Blocks/AdditiveAlg.cs:72-86 | the corrected step stands for exactly the bytes of its run |
| AdditiveAlg.CorrectedScanMeaning | src/blocks/PatternCompress.Blocks/AdditiveAlg.cs:55-89 | the corrected scan's emissions stand for exactly the data from the anchor on |
| AdditiveAlg.CorrectedRoundTrip | src/blocks/PatternCompress.Blocks/AdditiveAlg.cs:31-44 | with the corrected scan, and the same framing, coalescing and interpreter, every input decompresses to itself |
| Utils.MinimumBytes | src/blocks/PatternCompress.Blocks/Utils.cs:9-17 | every number yields at least one byte |
| Utils.ToMinimumBytes | src/blocks/PatternCompress.Blocks/Utils.cs:5-19 | the loops yield exactly MinimumBytesOf(numbers): each number's bytes, in order |
| Utils.MinimumBytesOfAppend | src/blocks/PatternCompress.Blocks/Utils.cs:7-18 | the output for a sequence is the in-order concatenation of the outputs for its parts |
| Utils.OneByte | src/blocks/PatternCompress.Blocks/Utils.cs:11-17 | a value of at most 255 is one byte, value mod 256: the value itself when it is 0 to 255, its low eight bits when it is negative |
| Utils.MinimumBytesValue | src/blocks/PatternCompress.Blocks/Utils.cs:11-17 | for a non-negative value, the bytes read back little-endian give the value |
| Utils.MinimumBytesNoTrailingZero | src/blocks/PatternCompress.Blocks/Utils.cs:11-17 | for a value above 255, the last byte is nonzero |
| Utils.MinimumBytesLength | src/blocks/PatternCompress.Blocks/Utils.cs:11-14 | for a non-negative value, the byte count k is the least k >= 1 with value < 256^k |

## Left out

- `AdditiveAlg.Run` (AdditiveAlg.cs lines 11-45) is not modelled. It reads a file, prints to the console and computes a floating-point size ratio. The check it performs, that the decompressed bytes equal the input, is stated by `CompressDecompress`, `LiteralOnlyRoundTrip` and the counterexample lemmas.
- `CompressionBenchmark` (AdditiveAlg.cs lines 119-127) is not modelled, because it only wraps the platform's gzip stream.
- The static `data` field (AdditiveAlg.cs line 8) is not modelled, because it is experiment data. `Utils` is modelled on its own.
- The `Console.WriteLine` diagnostics in `Compress` and `Decompress` (AdditiveAlg.cs lines 112 and 142) are not modelled, because they have no effect on the result.
- Program.cs is not part of this model. It only dispatches by class name through reflection.
- Host byte order is not modelled. `BitConverter` is modelled as little-endian, and the platform query is left out.
- Exception types and messages are not modelled. Each exception is an `Err` value naming its cause.
- The Protocol readers (`GetSectionType`, `GetSectionLength`, `GetSectionData` and their offset forms) require in-bounds buffers instead of modelling an index exception. Inside `Decompress` and `MergeSectionsAsMuchAsPossible` the same reads are checked and give `OutOfRange`.
- `Protocol.MergeSectionsAsMuchAsPossible`: the contract says nothing about inputs that are not exactly one section each. The body still follows the C# code for them.
  - A buffer shorter than three bytes, or an overflowing merge whose payload slice runs past the buffer, is `OutOfRange`.
  - In a merge that fits, any bytes beyond the header's length are carried along, as the slices at Protocol.cs line 108 do. That can make the payload too large, which is `PayloadTooLarge`.
- `ToMinimumBytes` is not modelled as a lazy `yield` sequence. The model builds the whole output as a sequence.
- `AdditiveAlg.CoalesceKeeps` states that coalescing keeps what the sections stand for when decoded, in order, and not the literal concatenation of payloads within each maximal same-type run. Only for a list made of Data sections alone do the two coincide. In a mixed list, keeping the decoded bytes in order does not say which same-type run each byte ends up in. For Code sections the payloads' instructions are kept in order, and `CoalescedCodeAligned` shows none is cut.
- `Compress` and `Decompress` are modelled on immutable sequences, as the C# code works on `ImmutableArray` and local lists. The in-place list updates of the coalescing loop are sequence updates (`s[i := x]` and slicing out an element).

## Findings

| source | as written | input that shows it | evidently intended | confidence | as-written member | corrected member |
|---|---|---|---|---|---|---|
| src/blocks/PatternCompress.Blocks/AdditiveAlg.cs:72-81 | an instruction's count is j - i, one short of the run data[i-1..j] of j - i + 1 bytes; the break byte data[j] is emitted as Data and then again as the next step's anchor | twelve bytes 7 decode to eleven 7s; twelve zeros then 5, 9 decode to eleven zeros then 5, 5, 9 | the instruction covers the whole run and the next step starts right after it | high (not executed) | AdditiveAlg.TwelveEqualBytes | AdditiveAlg.CorrectedRoundTrip |
| src/blocks/PatternCompress.Blocks/AdditiveAlg.cs:55-88 | when a literal step breaks at the last index, the cursor passes the end and the last byte is never emitted | [0, 1, 5] decodes to [0, 1] | a last lone byte is emitted as literal data | high (not executed) | AdditiveAlg.LastByteDropped | AdditiveAlg.CorrectedRoundTrip |
| src/blocks/PatternCompress.Blocks/AdditiveAlg.cs:78 | the count is cast to ushort, so a run of more than 65535 steps wraps | a progression of 65548 bytes decodes to its first eleven bytes | runs are cut at the largest count an instruction holds | high (not executed) | AdditiveAlg.CountWraps | AdditiveAlg.CorrectedRoundTrip |
