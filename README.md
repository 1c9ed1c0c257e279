# Convert2Dsk: BinHex 4.0 and DiskCopy 4.2 decoding, in Dafny

convert2dsk turns classic Macintosh floppy images into raw `.dsk` disk data.

A `.hqx` file is a BinHex 4.0 text, handled in four stages:

- The decoder finds the signature `(This file must be converted with BinHex 4.0)` and takes the payload between the next two colons.
- It maps every character of the payload, skipping white space, to a six-bit value through the 64-character alphabet. It packs each eight values into six bytes, most significant bit first, and pads a trailing partial group with zero bits.
- It expands run-length sequences: 0x90 0x00 is a literal 0x90, and 0x90 n repeats the previous byte up to n copies in all.
- It parses the record from the expanded bytes:
  - the name length, the name, a zero byte, the type and the creator;
  - the Finder flags and the two fork lengths;
  - the header CRC;
  - the data fork with its CRC, then the resource fork with its CRC.

The data fork of that record is a DiskCopy 4.2 image. The same image may also arrive directly as a `.img` or `.image` file. The image reader demands:

- at least 400 KiB of input;
- the magic bytes 0x01 0x00 at 0x52;
- a big-endian data size at 0x40 of 400K, 800K or 1440K.

It returns the 84-byte header and that many data bytes.

The command line is parsed into three switches (verbose, version, help) and a list of paths.

The model has one module per stage. Each loop of the original is a method proved equal to a specification function, or fully determined by its ensures (`ReadString`):

- `DecodeSixBit` = `SixBitDecode`
- `ExpandRle` = `Expand`
- `ReadRecord` = `ParseRecord` (the parse from the name length through the resource fork's CRC)
- `BinHexDecoder.ReadFrom` = `BinHexDecoder.Decode`
- `DiskCopyImage.ReadFrom` against `DiskCopy.Decode`
- `ProgramArgs.ParseArgs` = `Parse`

Lemmas then state what those functions guarantee. Each stage also has an encoder as its partner, with a round trip through the stage. The whole-format round trip is `DecodeEncode`: any well-formed record, written as BinHex text, decodes back to itself.

Modules and files:

- `wrappers.dfy`: `Result`.
- `arith.dfy`: division facts.
- `byte_list.dfy`: `ByteListExtensions`.
- `mac_file.dfy`: the `MacFile` and `BinHexFile` records.
- `binhex_error.dfy`: the decoder's error kinds.
- `binhex_text.dfy`: the search and the six-bit stage.
- `binhex_modulate.dfy`: the six-bit encoder.
- `binhex_rle.dfy`: the run-length stage.
- `binhex_record.dfy`: the header and fork parse.
- `binhex_file.dfy`: `BinHexFile.ReadFrom` as a whole.
- `disk_copy.dfy`: `DiskCopyImage`.
- `program_args.dfy`: `ProgramArgs`.
- `pipeline.dfy`: the two conversions of `Program.cs`.

Each exception the original throws is an error value. For the BinHex decoder these are:

- `MissingHeader`, `MissingStartColon`, `MissingEndColon`;
- `InvalidCharacter(c, index)`;
- `TruncatedRun`, when a marker is read at the last byte, with no count after it;
- `MalformedRun`, when a repeat comes before any output;
- `MalformedHeader`, when the byte after the name is not zero;
- `TruncatedInput`, when a read runs past the end of the expanded bytes.

For DiskCopy they are `TooSmall`, `NotDiskCopyFormat`, `UnsupportedDataSize(size)` and `TruncatedData`.

## Model

The constants of the original appear in the rows that use them: the signature `BinHexHeader` (BinHexFile.cs:222) under DelimitersSearch, the alphabet `BinHexCharMap` (line 223) under CharMapAdjacent and CharValue, the marker `RLEFlag` 0x90 (line 224) under the BinHexRle rows, and `HeaderSizeInBytes` 0x54 (DiskCopyImage.cs:74) under DecodedSlices.

| member | source | states |
|---|---|---|
| ByteListExtensions.Wrap32 | src/Convert2Dsk/ByteListExtensions.cs:20-28 | unchecked `int` arithmetic: the result lies in the `int` range and has the same 32 bits as the exact value (they differ by a multiple of 2^32) |
| ByteListExtensions.AsUInt32 | src/Convert2Dsk/BinHexFile.cs:185-188 | the `(uint)` cast of an `int`: the same 32 bits read as unsigned, a non-negative value unchanged |
| ByteListExtensions.ByteToChar | src/Convert2Dsk/ByteListExtensions.cs:15 | the `(char)` cast of a byte, here and in the name, type and creator loops of BinHexFile.cs:155-180: the character whose code point is the byte |
| ByteListExtensions.BytesToString | src/Convert2Dsk/BinHexFile.cs:155-160 | each byte cast to a character, in order; BytesStringRoundTrip and StringBytesRoundTrip state that the conversion is invertible |
| ByteListExtensions.ReadString | src/Convert2Dsk/ByteListExtensions.cs:10-18 | succeeds exactly when length <= 0 or the whole range lies in the list; then the result has max(length, 0) characters, the i-th with the code point of byte offset + i |
| ByteListExtensions.ReadInt32 | src/Convert2Dsk/ByteListExtensions.cs:20-28 | succeeds exactly when four bytes exist at offset; the wrapping `int` sum is the big-endian value, less 2^32 when the top bit is set; it is negative exactly when that bit is set, and read as unsigned it is the big-endian value |
| ByteListExtensions.ReadUInt16 | src/Convert2Dsk/ByteListExtensions.cs:30-36 | succeeds exactly when two bytes exist at offset; the `ushort` sum loses no carry and is the big-endian value |
| ByteListExtensions.WrapShiftedByte | src/Convert2Dsk/ByteListExtensions.cs:23 | `b << 24` in `int` is b * 2^24, less 2^32 when b >= 0x80 |
| ByteListExtensions.ReadersAreLocal | src/Convert2Dsk/ByteListExtensions.cs:20-36 | each reader depends only on the bytes it reads |
| BinHexText.IndexOf | src/Convert2Dsk/BinHexFile.cs:35 | the first occurrence of the pattern at or after the start, or -1 exactly when there is none |
| BinHexText.IndexOfChar | src/Convert2Dsk/BinHexFile.cs:43-52 | the first index at or after the start holding the character, or -1 exactly when there is none |
| BinHexText.Delimiters | src/Convert2Dsk/BinHexFile.cs:35-57 | the three searches in the original's order, each failing with its own error; what they find and when each error is reported is stated by DelimitersSearch and DelimitersEndColon |
| BinHexText.DelimitersSearch | src/Convert2Dsk/BinHexFile.cs:35-57 | MissingHeader exactly when the signature occurs nowhere; MissingStartColon exactly when no colon follows the first signature; on success, the first signature, the first colon after it and the next colon after that |
| BinHexText.DelimitersEndColon | src/Convert2Dsk/BinHexFile.cs:52-57 | MissingEndColon exactly when the signature and a colon after it are found but no colon follows that opening colon |
| BinHexText.Payload | src/Convert2Dsk/BinHexFile.cs:59-61 | the text strictly between the two colons; PayloadBetweenColons states when it exists and that it holds no colon |
| BinHexText.PayloadBetweenColons | src/Convert2Dsk/BinHexFile.cs:59-61 | the payload is found exactly when both colons are, and holds no colon |
| BinHexText.CharMapIncreasing | src/Convert2Dsk/BinHexFile.cs:223 | the alphabet is strictly increasing, so its characters are distinct |
| BinHexText.CharMapAdjacent | src/Convert2Dsk/BinHexFile.cs:223 | the alphabet has 64 characters, each below the next |
| BinHexText.IsWhiteSpace | src/Convert2Dsk/BinHexFile.cs:75 | the characters `char.IsWhiteSpace` accepts: U+0009..U+000D, U+0020, U+0085, U+00A0 and the Unicode space, line and paragraph separators |
| BinHexText.CharValue | src/Convert2Dsk/BinHexFile.cs:80 | the alphabet index of a character, -1 exactly for characters outside the alphabet |
| BinHexText.CharValueOfMapChar | src/Convert2Dsk/BinHexFile.cs:223 | every alphabet character maps back to its own index |
| BinHexText.MapCharIsPlain | src/Convert2Dsk/BinHexFile.cs:223 | no alphabet character is white space or a colon, so the scan never skips or stops on one |
| BinHexText.SixBitValues | src/Convert2Dsk/BinHexFile.cs:73-84 | the character scan of the loop: white space skipped, alphabet characters as their values, the first other character an error; stated by ValuesAcceptance, ValuesSpellText and ValuesFirstInvalid |
| BinHexText.ValuesAcceptance | src/Convert2Dsk/BinHexFile.cs:73-84 | the character scan succeeds exactly when every character is white space or in the alphabet |
| BinHexText.ValuesSpellText | src/Convert2Dsk/BinHexFile.cs:73-84 | the values read name, in order, exactly the characters that are not white space |
| BinHexText.ValuesFirstInvalid | src/Convert2Dsk/BinHexFile.cs:80-84 | a failure reports the first character outside the alphabet that is not white space, and its index |
| BinHexText.ValuesFailurePersists | src/Convert2Dsk/BinHexFile.cs:83 | an invalid character in a prefix decides the result, whatever follows it |
| BinHexText.ShiftIn | src/Convert2Dsk/BinHexFile.cs:92 | `(ulong)v << (42 - 6k)` as multiplication by 2^(42 - 6k), for k = 0..7 |
| BinHexText.Chunk | src/Convert2Dsk/BinHexFile.cs:86-92 | the `inputChunk` accumulator after the values of a group are ORed into a freshly reset chunk; ChunkSnoc states one step of it and ChunkOfGroup its value for a full group |
| BinHexText.ByteOf | src/Convert2Dsk/BinHexFile.cs:99 | `(byte)(0xFF & (chunk >> (40 - 8j)))` as division by 2^(40 - 8j) modulo 256, for j = 0..5 |
| BinHexText.ChunkBytes | src/Convert2Dsk/BinHexFile.cs:97-112 | the six bytes flushed from a chunk; that they are its big-endian bytes is ChunkBytesOfValue |
| BinHexText.GroupBytes | src/Convert2Dsk/BinHexFile.cs:94-113 | the six bytes flushed for a group, full inside the loop or partial after it; GroupBytesFormula gives the bitwise layout of a full group and ShortGroupPadding the zero low bits of a short one |
| BinHexText.LastGroupStart | src/Convert2Dsk/BinHexFile.cs:86-103 | the start of the last group is a multiple of eight, and at most eight values precede the end |
| BinHexText.Demodulate | src/Convert2Dsk/BinHexFile.cs:68-113 | n six-bit values give 6 * ceil(n / 8) bytes |
| BinHexText.SixBitDecode | src/Convert2Dsk/BinHexFile.cs:68-113 | the whole six-bit stage: the scan, then the packing; stated by SixBitDecodeLength and ModulatedTextRoundTrip, and computed by DecodeSixBit |
| BinHexText.SixBitDecodeLength | src/Convert2Dsk/BinHexFile.cs:68-113 | the six-bit stage succeeds exactly on texts of white space and alphabet characters, and then gives 6 * ceil(n / 8) bytes for n non-white-space characters |
| BinHexText.DemodulateSnoc | src/Convert2Dsk/BinHexFile.cs:94-113 | one more group of up to eight values adds its six bytes after the earlier groups |
| BinHexText.ChunkSnoc | src/Convert2Dsk/BinHexFile.cs:92 | shifting value k in adds it at bits 47 - 6k .. 42 - 6k |
| BinHexText.ValuesStep | src/Convert2Dsk/BinHexFile.cs:75-84 | white space leaves the values unchanged, an alphabet character appends its value, and any other character fails the stage with its index |
| BinHexText.FlushChunk | src/Convert2Dsk/BinHexFile.cs:97-100 | emits the six bytes of the 48-bit chunk, most significant first |
| BinHexText.CompleteGroup | src/Convert2Dsk/BinHexFile.cs:94-101 | an eighth value completes a group and adds exactly its six bytes |
| BinHexText.NextCount | src/Convert2Dsk/BinHexFile.cs:103 | the counter advances by one and wraps to zero after seven |
| BinHexText.PushValue | src/Convert2Dsk/BinHexFile.cs:86-103 | keeps the packing invariant: the bytes flushed are the demodulation of the whole groups read, and the chunk holds the values of the group in progress |
| BinHexText.DecodeSixBit | src/Convert2Dsk/BinHexFile.cs:68-113 | the loop's result equals the six-bit stage's function, error included |
| BinHexModulation.ChunkBytesOfValue | src/Convert2Dsk/BinHexFile.cs:97-100 | the bytes of the 48-bit number of six bytes are those six bytes |
| BinHexModulation.GroupBytesFormula | src/Convert2Dsk/BinHexFile.cs:86-100 | packing by accumulation and shifts gives the bitwise layout of the eight values |
| BinHexModulation.ModulateGroup | src/Convert2Dsk/BinHexFile.cs:64-66 | six bytes give eight six-bit values |
| BinHexModulation.GroupRoundTrip | src/Convert2Dsk/BinHexFile.cs:64-101 | demodulating a modulated group gives back its six bytes |
| BinHexModulation.Modulate | src/Convert2Dsk/BinHexFile.cs:64-66 | 6k bytes give 8k values |
| BinHexModulation.DemodulateModulate | src/Convert2Dsk/BinHexFile.cs:68-113 | demodulation undoes modulation on whole six-byte blocks |
| BinHexModulation.ValuesOfText | src/Convert2Dsk/BinHexFile.cs:73-92 | the alphabet text of any values scans back to those values |
| BinHexModulation.ModulatedTextRoundTrip | src/Convert2Dsk/BinHexFile.cs:68-113 | the six-bit stage decodes the alphabet text of modulated bytes back to the bytes |
| BinHexModulation.ShortGroupPadding | src/Convert2Dsk/BinHexFile.cs:106-113 | a zero value appended to a short group changes none of the six bytes flushed |
| BinHexRle.Repeat | src/Convert2Dsk/BinHexFile.cs:134-137 | n copies of the byte |
| BinHexRle.ExpandFrom | src/Convert2Dsk/BinHexFile.cs:117-145 | the run-length loop from a given output on; its rules are ExpandPlain, ExpandLiteralFlag, ExpandRun, TrailingAfterComplete, ExpandLeadingRun and ExpandErrors |
| BinHexRle.Expand | src/Convert2Dsk/BinHexFile.cs:117-145 | the run-length stage from an empty output; RunLengthRoundTrip is its round trip |
| BinHexRle.ExpandRle | src/Convert2Dsk/BinHexFile.cs:117-145 | the loop's result equals the run-length stage's function, errors included |
| BinHexRle.ExpandPlain | src/Convert2Dsk/BinHexFile.cs:140-144 | bytes other than 0x90 are copied through |
| BinHexRle.ExpandIdentity | src/Convert2Dsk/BinHexFile.cs:117-145 | input without 0x90 expands to itself |
| BinHexRle.ExpandLiteralFlag | src/Convert2Dsk/BinHexFile.cs:124-129 | 0x90 0x00 is one literal 0x90 |
| BinHexRle.ExpandRun | src/Convert2Dsk/BinHexFile.cs:130-138 | x 0x90 n with n >= 1 stands for exactly n copies of x |
| BinHexRle.RepeatCons | src/Convert2Dsk/BinHexFile.cs:134-137 | one copy in front of n copies is n + 1 copies |
| BinHexRle.TrailingAfterComplete | src/Convert2Dsk/BinHexFile.cs:121-123 | after any bytes that expand completely, a 0x90 added as the last byte is read as a marker and fails with TruncatedRun |
| BinHexRle.ExpandTrailingFlag | src/Convert2Dsk/BinHexFile.cs:121-123 | a 0x90 read as a marker at the last byte fails with TruncatedRun: so does every expandable input with 0x90 appended |
| BinHexRle.ExpandLeadingRun | src/Convert2Dsk/BinHexFile.cs:133 | a repeat before any output fails with MalformedRun |
| BinHexRle.ExpandErrors | src/Convert2Dsk/BinHexFile.cs:117-145 | the run-length stage fails only with TruncatedRun or MalformedRun |
| BinHexRle.ExpandEncodedRun | src/Convert2Dsk/BinHexFile.cs:117-145 | an encoded run expands to its bytes, then expansion goes on |
| BinHexRle.ExpandEncodeRuns | src/Convert2Dsk/BinHexFile.cs:117-145 | encoded runs expand to the bytes they stand for, then expansion goes on with what follows |
| BinHexRle.RunLengthRoundTrip | src/Convert2Dsk/BinHexFile.cs:117-145 | expanding encoded runs gives the bytes of the runs |
| BinHexRle.SingleRuns | src/Convert2Dsk/BinHexFile.cs:117-145 | one valid run per byte |
| BinHexRle.SingleRunsBytes | src/Convert2Dsk/BinHexFile.cs:117-145 | runs of one stand for the bytes themselves |
| BinHexRle.ExpandEscapedPadded | src/Convert2Dsk/BinHexFile.cs:117-145 | escaped bytes followed by padding without 0x90 expand to those bytes and that padding |
| BinHexRecord.InlineUInt16 | src/Convert2Dsk/BinHexFile.cs:182 | the `ushort` field of two bytes, b0 shifted left by 8 and ORed with b1, the OR written as addition of disjoint bits; its value is InlineUInt16IsField |
| BinHexRecord.InlineUInt32 | src/Convert2Dsk/BinHexFile.cs:185 | the `uint` field of four bytes, shifted left by 24, 16, 8 and 0 and ORed, with the `int` wrap of the first shift; its value is InlineUInt32IsField |
| BinHexRecord.InlineUInt16IsField | src/Convert2Dsk/BinHexFile.cs:182-205 | the inline `ushort` field is the big-endian value at that offset |
| BinHexRecord.InlineUInt16Agrees | src/Convert2Dsk/BinHexFile.cs:182-191 | the inline `ushort` field equals ReadUInt16 at that offset |
| BinHexRecord.InlineUInt32IsField | src/Convert2Dsk/BinHexFile.cs:185-188 | the inline `uint` field is the unsigned big-endian value, though the `int` shift may set the sign |
| BinHexRecord.InlineUInt32Agrees | src/Convert2Dsk/BinHexFile.cs:185-188 | the inline `uint` field equals ReadInt32 at that offset, read as unsigned |
| BinHexRecord.HeaderOf | src/Convert2Dsk/BinHexFile.cs:149-192 | a parsed header's name length is the first byte, and the header fits in the input |
| BinHexRecord.ForksOf | src/Convert2Dsk/BinHexFile.cs:194-219 | the two forks and their CRCs after a header, at the offsets the lengths fix; TruncatedInput when they run past the end |
| BinHexRecord.ParseRecord | src/Convert2Dsk/BinHexFile.cs:149-219 | the header, then the forks; computed by ReadRecord, inverted by RecordRoundTrip and RecordPrefix |
| BinHexRecord.ParseRecordErrors | src/Convert2Dsk/BinHexFile.cs:151-206 | the parse fails only with MalformedHeader or TruncatedInput: MalformedHeader exactly when the byte after the name exists and is not zero, TruncatedInput exactly when the name, the fixed header fields or the forks with their CRCs run past the end |
| BinHexRecord.HeaderAgreesWithReaders | src/Convert2Dsk/BinHexFile.cs:182-191 | the flag, fork lengths and header CRC are what the list readers of ByteListExtensions read at the same offsets |
| BinHexRecord.ReadChars | src/Convert2Dsk/BinHexFile.cs:155-180 | the characters whose code points are the bytes of the range |
| BinHexRecord.ReadHeader | src/Convert2Dsk/BinHexFile.cs:149-192 | the cursor parse equals the header function, errors included, and ends at the data fork |
| BinHexRecord.ReadRecord | src/Convert2Dsk/BinHexFile.cs:149-219 | the cursor parse of the header and then the forks and their CRCs equals the record function, errors included |
| BinHexRecord.EncodeHeader | src/Convert2Dsk/BinHexFile.cs:149-192 | an encoded header is N + 22 bytes for a name of N bytes |
| BinHexRecord.BytesStringRoundTrip | src/Convert2Dsk/BinHexFile.cs:156-159 | reading byte-sized characters back as a string gives the string |
| BinHexRecord.StringBytesRoundTrip | src/Convert2Dsk/BinHexFile.cs:156-159 | bytes read as characters convert back to the bytes |
| BinHexRecord.HeaderFields | src/Convert2Dsk/BinHexFile.cs:149-192 | every header field of an encoded record sits where the parser reads it |
| BinHexRecord.ForkFields | src/Convert2Dsk/BinHexFile.cs:194-206 | the forks and CRCs of an encoded record sit where the parser reads them |
| BinHexRecord.HeaderRoundTrip | src/Convert2Dsk/BinHexFile.cs:149-192 | parsing an encoded header gives the record's header, whatever follows |
| BinHexRecord.ForksRoundTrip | src/Convert2Dsk/BinHexFile.cs:194-219 | the forks and CRCs after an encoded header read back as written |
| BinHexRecord.RecordRoundTrip | src/Convert2Dsk/BinHexFile.cs:149-219 | parsing an encoded well-formed record gives it back, whatever follows it |
| BinHexRecord.HeaderTextPrefix | src/Convert2Dsk/BinHexFile.cs:151-180 | the name length, name, zero byte, type and creator a successful parse reads are the encoding of what it returns |
| BinHexRecord.HeaderNumbersPrefix | src/Convert2Dsk/BinHexFile.cs:182-192 | the flag, fork lengths and header CRC a successful parse reads are the encoding of what it returns |
| BinHexRecord.HeaderPrefix | src/Convert2Dsk/BinHexFile.cs:149-192 | the header bytes a successful parse reads are the encoding of the returned record's header, and that record is well-formed |
| BinHexRecord.RecordPrefix | src/Convert2Dsk/BinHexFile.cs:149-219 | a successfully parsed input is the encoding of the returned record followed by bytes the parser ignores |
| BinHexDecoder.Decode | src/Convert2Dsk/BinHexFile.cs:33-219 | the four stages one after the other, the first failure ending the decode; stated by DecodeSearchErrors, DecodeInvalidCharacter and DecodeEncode |
| BinHexDecoder.FindPayload | src/Convert2Dsk/BinHexFile.cs:33-61 | the three searches and the substring equal Payload, errors included |
| BinHexDecoder.ReadFrom | src/Convert2Dsk/BinHexFile.cs:33-219 | the decoder equals the composition of search, six-bit stage, run-length stage and record parse, errors included |
| BinHexDecoder.LaterStageErrors | src/Convert2Dsk/BinHexFile.cs:61-219 | once the payload is found, no search error can be reported |
| BinHexDecoder.DecodeSearchErrors | src/Convert2Dsk/BinHexFile.cs:35-57 | the decoder reports a missing signature exactly when the text has none, a missing opening colon exactly when no colon follows the first signature, and a missing closing colon exactly when no colon follows that opening colon |
| BinHexDecoder.DecodeInvalidCharacter | src/Convert2Dsk/BinHexFile.cs:80-84 | an invalid-character error names a character of the payload at its index, outside the alphabet and not white space, with only acceptable characters before it |
| BinHexDecoder.Padding | src/Convert2Dsk/BinHexFile.cs:106-113 | zero bytes without 0x90 that complete the last six-byte block |
| BinHexDecoder.CompressedRecord | src/Convert2Dsk/BinHexFile.cs:117-145 | the compressed bytes come in whole six-byte blocks |
| BinHexDecoder.EncodedText | src/Convert2Dsk/BinHexFile.cs:52-61 | an encoded payload holds no colon, so the closing colon is found right after it |
| BinHexDecoder.ExpandCompressedRecord | src/Convert2Dsk/BinHexFile.cs:117-145 | the compressed record expands to the record followed by its padding |
| BinHexDecoder.PayloadOfEncoding | src/Convert2Dsk/BinHexFile.cs:35-61 | the search finds in an encoded text exactly the payload written there |
| BinHexDecoder.DecodeEncode | src/Convert2Dsk/BinHexFile.cs:33-219 | the BinHex text written for a well-formed record decodes back to that record |
| DiskCopy.DataSize | src/Convert2Dsk/DiskCopyImage.cs:57 | the weighted sum of the bytes at 0x40..0x43 in wrapping `int` arithmetic, cast to `uint`; its value is DataSizeIsBigEndian |
| DiskCopy.Decode | src/Convert2Dsk/DiskCopyImage.cs:41-65 | the four checks of ReadFrom in order, then the header and data slices; stated by DecodeAcceptance and DecodedSlices |
| DiskCopy.DiskCopyImage.constructor | src/Convert2Dsk/DiskCopyImage.cs:67-71 | the image holds the given header and data |
| DiskCopy.DiskCopyImage.ReadFrom | src/Convert2Dsk/DiskCopyImage.cs:31-72 | fails with the error the decode function gives; on success returns fresh header and data arrays holding exactly the decoded header and data |
| DiskCopy.DataSizeIsBigEndian | src/Convert2Dsk/DiskCopyImage.cs:57 | the wrapping `int` size computation, cast to `uint`, is the unsigned big-endian value at 0x40, which ReadInt32 reads as well |
| DiskCopy.DecodeAcceptance | src/Convert2Dsk/DiskCopyImage.cs:41-65 | decoding succeeds exactly when: at least 400 KiB; magic 0x01 0x00 at 0x52; a supported size at 0x40; that much data after the header. Otherwise the first failing check names the error: TooSmall, NotDiskCopyFormat, UnsupportedDataSize with the size read (500K, say), or TruncatedData |
| DiskCopy.DecodedSlices | src/Convert2Dsk/DiskCopyImage.cs:48-65 | the header is the first 0x54 bytes; the data is the declared 400K, 800K or 1440K bytes right after it |
| DiskCopy.ShortInputFails | src/Convert2Dsk/DiskCopyImage.cs:41-65 | no input shorter than the header plus 400 KiB decodes |
| DiskCopy.DecodeEncoded | src/Convert2Dsk/DiskCopyImage.cs:31-72 | a header declaring a supported size, followed by that many data bytes and any tail, decodes to that header and data |
| ProgramArguments.ToLower | src/Convert2Dsk/ProgramArgs.cs:29 | ASCII upper-case letters lowered, every other character kept |
| ProgramArguments.Step | src/Convert2Dsk/ProgramArgs.cs:29-51 | the switch statement for one argument: an alias of a switch sets it, anything else is appended to the paths |
| ProgramArguments.Parse | src/Convert2Dsk/ProgramArgs.cs:23-53 | the state after the loop over the arguments from a fresh object; stated by ParseSwitches, ParsePaths and SwitchesIgnoreOrder |
| ProgramArguments.ProgramArgs.constructor | src/Convert2Dsk/ProgramArgs.cs:11-19 | a fresh object has all switches off and no paths |
| ProgramArguments.ProgramArgs.ParseArgs | src/Convert2Dsk/ProgramArgs.cs:21-57 | returns a fresh object whose switches and paths are those the arguments set, one after the other |
| ProgramArguments.StepJoin | src/Convert2Dsk/ProgramArgs.cs:27-52 | one more argument acts only on the state of the run it follows |
| ProgramArguments.ParseConcat | src/Convert2Dsk/ProgramArgs.cs:27-52 | parsing two runs of arguments one after the other ORs their switches and concatenates their paths |
| ProgramArguments.ParseSwitches | src/Convert2Dsk/ProgramArgs.cs:29-48 | each switch is on exactly when some argument, lower-cased, is one of its aliases |
| ProgramArguments.PathsAndSwitches | src/Convert2Dsk/ProgramArgs.cs:29-51 | the path arguments and the switch arguments together are all the arguments, as a multiset and by count |
| ProgramArguments.ParsePathArgs | src/Convert2Dsk/ProgramArgs.cs:49-51 | the paths are exactly the arguments that name no switch, in order and as spelt |
| ProgramArguments.ParsePaths | src/Convert2Dsk/ProgramArgs.cs:27-52 | the paths are the non-switch arguments, and with the switch arguments they account for every argument |
| ProgramArguments.SwitchesIgnoreOrder | src/Convert2Dsk/ProgramArgs.cs:29-48 | the switches depend only on which arguments occur, not on their order or repetition |
| ProgramArguments.StepIgnoresCase | src/Convert2Dsk/ProgramArgs.cs:29 | an argument and its lower-cased spelling set the same switches |
| Conversion.ConvertBinHex | src/Convert2Dsk/Program.cs:168 | DiskCopy decoding of the data fork of the decoded BinHex file, each failure tagged with its stage |
| Conversion.ConvertDiskCopy | src/Convert2Dsk/Program.cs:174 | DiskCopy decoding of the input, the failure tagged |
| Conversion.BinHexConversionIsDiskCopyOfFork | src/Convert2Dsk/Program.cs:164-175 | a decoded .hqx converts exactly when its data fork would convert as an image, to the same disk: a supported-size slice of the fork after its header |
| Conversion.ConvertEncodedImage | src/Convert2Dsk/Program.cs:168 | a disk inside a DiskCopy image carried as the data fork of a BinHex file comes out of the .hqx conversion unchanged |

## Left out

- The stream overloads `BinHexFile.ReadFrom(Stream)` and `DiskCopyImage.ReadFrom(Stream)` are not modelled, nor their null checks. The model starts from the text or the bytes those overloads read to the end.
- Null arguments are not modelled: Dafny sequences and arrays are never null. This covers `args` in `ParseArgs`, `rawData` in `DiskCopyImage.ReadFrom(byte[])` and a null string in `args`.
- `MacBinaryFile.ReadFrom` is not part of this model: apart from its null check it returns an object with every field unset, and nothing in convert2dsk calls it.
- `Program.cs` is not part of this model apart from the two conversion expressions at lines 168 and 174. Left out are the file system, the dispatch on extensions, the existing-output check, writing the `.dsk` file, help and version output, and `Logger` and `AppInfo`.
- CRC values are read and returned; they are not checked, because the original never checks them. No CRC computation is modelled.
- IsWhiteSpace is modelled as the fixed character set `char.IsWhiteSpace` accepts. `ToLower` is modelled as lowering only A-Z. The original, even under the invariant culture, also lowers letters outside ASCII (É to é, Ω to ω); that changes no switch recognition except through the characters named at the end of this line, because every alias is ASCII and paths keep their original spelling. It also follows the current culture: under a Turkish or Azerbaijani culture `I` lowers to dotless `ı`, so `/VERSION` or `/HELP` is a path there but a switch in the model. Characters outside ASCII that some cultures lower to an ASCII letter (U+0130, U+212A) are kept as they are, so an alias spelt with one of them is a path in the model. `string.IndexOf(string)` is modelled as an ordinal search; a culture-sensitive match that ignores zero-width characters is not modelled.
- Bitwise OR is modelled as addition, because the bits combined are disjoint. Shifts are modelled as multiplication and division by powers of two, with 32-bit wrap-around written out where `int` arithmetic can overflow (`Wrap32`).
- Strings are sequences of Unicode scalar values, while .NET strings are UTF-16. Indices into the text before the payload can differ, but the payload found is the same. A character outside the Basic Multilingual Plane is never white space and never in the alphabet, so it can only end the six-bit stage as the first invalid character. There the original reports its high surrogate, and `InvalidCharacter` carries the whole character; the index is the same, because every earlier payload character is in the Basic Multilingual Plane.
- Exceptions become error values. The messages are not modelled, only which check failed; the invalid character and its index are kept.
- BinHexRecord.ReadRecord: an out-of-range list read, a failed allocation of a 4 GiB fork and a negative `(int)` cast of a fork length above 2^31 all end in an exception. The model reports all of them as `TruncatedInput`.
- DiskCopy.DiskCopyImage.ReadFrom: `Array.Copy` past the end of the input (when the declared size exceeds what follows the header) is reported as `TruncatedData`.
- BinHexText.PushValue and BinHexText.FlushChunk are the body of the six-bit loop and its inner byte loop, written as methods. BinHexRecord.ReadHeader and BinHexRecord.ReadRecord split the single parse of the original at the data fork. The reads, assignments and the zero-byte check are the original's, in its order. The length checks are the model's own: one before the name, one before the fixed fields and one before the forks each stand for the several list reads after it that throw one by one in the original. Because the zero-byte check comes before the fixed fields' length check there as well, the error reported is the same.
- The encoders (`Modulate`, `EncodeRuns`, `EncodeRecord`, `BinHexEncode`, `DiskCopy.HeaderDeclares`) have no counterpart in convert2dsk, which only reads these formats. They exist as partners of the decoders. The BinHex encoder escapes every byte and never compresses repeats; the round trip for compressed runs is `RunLengthRoundTrip`.
