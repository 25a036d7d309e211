# Intel HEX engine and CAN frame codec

This project models two parts of the QuCLib Qt library.

The first is `QuCLib::HexFileParser`, an Intel HEX engine. It loads HEX text
line by line into address-tagged fragments, keeping an error list and a
warning list. It merges the sorted fragments into contiguous chunks: gaps up
to a configurable size are filled, and each chunk is aligned to the address
alignment. The loaded image can be read (`extract`), patched (`replace`) and
extended (`insert`). `saveToFile` writes the image back as extended segment
address records, data records of up to 16 bytes, and an end-of-file line.

The second is the frame codec of `CANbeSerial`. It maps between DLC codes and
CAN FD data lengths. It encodes a CAN frame into the adapter's byte layout:
a zero timestamp, the identifier big-endian, a flag word, the data and
optional padding. It decodes that layout back, and it builds the
configuration payload.

Modules:

- `HexTypes`: the value types (Chunk, Range, FileError, ErrorType), and
  uint32/uint16 wrap-around.
- `HexLineCodec`: the checks of one line, with the record format stated on
  its own. Also the encoder of a record line.
- `HexRecordInterpreter`: what one line and a sequence of lines do to the
  parse state.
- `HexChunkCombiner`: the merge loop and chunk alignment. Also an
  independent layout of what merging means.
- `HexImageStore`: extract, replace and insert on the chunk list.
- `HexWriter`: the records and lines `saveToFile` writes.
- `HexRoundTrip`: what the loader makes of written lines.
- `HexParser`: the class `HexFileParser`. Its fields are the parser's state,
  and every method is proved against the functions above.
- `CanBeSerial`: the DLC table, the frame codec, and the class `CanSerial`
  with the adapter's configuration fields.

Integer widths are modelled explicitly:

- uint32 sums of addresses wrap modulo 2^32 (`Wrap32`).
- uint16 line addresses wrap modulo 2^16 (`Wrap16`).
- The CAN size handed to a `uint8_t` parameter wraps modulo 256.
- Qt 6 `qsizetype` length arithmetic is signed 64-bit, so it is done on
  unbounded integers. A length minus an offset may therefore be negative, as
  in `extract`, `replace` and the writer's `length - 16` loop bound.

## Model

| member | source | states |
|---|---|---|
| HexTypes.Wrap32 | source/hexFileParser.cpp:305-306 | uint32 arithmetic: a value in range is itself, one wrap away is shifted by 2^32 |
| HexTypes.Fill | source/hexFileParser.cpp:371-374 | n copies of the fill byte |
| HexTypes.ErrorMessageDistinct | source/hexFileParser.cpp:61-77 | every error kind has its own message, from which the kind can be read back; the fallback "Unknwon Error" names no kind |
| HexLineCodec.HexPair | source/hexFileParser.cpp:259 | two characters read as a byte exactly when both are hex digits |
| HexLineCodec.ByteField | source/hexFileParser.cpp:259-297 | a two-digit field at a position reads as a byte exactly when it lies inside the line and is hex |
| HexLineCodec.HexNumber | source/hexFileParser.cpp:329 | a field reads as a number exactly when it is non-empty and all hex |
| HexLineCodec.DataField | source/hexFileParser.cpp:286-296 | the data bytes read exactly when every pair is hex; then n bytes, byte k from the pair at 9 + 2k |
| HexLineCodec.Checksum | source/hexFileParser.cpp:79-87 | the checksum makes the byte sum zero modulo 256 |
| HexLineCodec.ChecksumUnique | source/hexFileParser.cpp:79-87 | no other byte does |
| HexLineCodec.DecodedFields | source/hexFileParser.cpp:252-301 | an accepted line starts with ':', has length 2n + 11 for its byte count n, and every field is hex |
| HexLineCodec.DecodedWellFormed | source/hexFileParser.cpp:252-301 | a line that passes every check is well formed, and its record is made of the bytes it spells |
| HexLineCodec.WellFormedDecodes | source/hexFileParser.cpp:252-301 | a well-formed line passes every check |
| HexLineCodec.DecodeLineAccepts | source/hexFileParser.cpp:252-301 | the checks, in QuCLib's order, accept a line exactly when it is well formed (start code, hex pairs, count matching length, bytes summing to 0 modulo 256); the record is the bytes read |
| HexLineCodec.HexChar | source/hexFileParser.cpp:208-209 | an upper-case hex digit of the given value |
| HexLineCodec.HexString | source/hexFileParser.cpp:208-209 | two upper-case digits per byte, high nibble first |
| HexLineCodec.EncodeRecord | source/hexFileParser.cpp:199-209 | a written record line starts with ':' and has 2n + 11 characters |
| HexLineCodec.EncodeDecodeRecord | source/hexFileParser.cpp:218-240 | a written record whose count matches its data is an upper-case well-formed line that decodes back to the record |
| HexLineCodec.EncodeDecodes | source/hexFileParser.cpp:218-240 | the same round trip, with the line non-empty |
| HexLineCodec.DecodeEncodeLine | source/hexFileParser.cpp:252-301 | an upper-case well-formed line is exactly the writer's encoding of the record it decodes to |
| HexLineCodec.EncodeRecordOfBytes | source/hexFileParser.cpp:252-301 | an upper-case well-formed line is the encoding of the record its bytes spell |
| HexLineCodec.ChecksumIsLast | source/hexFileParser.cpp:297-300 | when the bytes sum to 0 modulo 256, the last byte is the checksum of the rest |
| HexRecordInterpreter.AddressField | source/hexFileParser.cpp:329 | the 02/04 field is the up-to-four characters at position 9; a line of at most 9 characters has none |
| HexRecordInterpreter.StartSession | source/hexFileParser.cpp:150-155 | load starts with no fragments, no errors, the warnings kept, no upper address bits and file range (0xFFFFFFFF, 0) |
| HexRecordInterpreter.InterpretDecoded | source/hexFileParser.cpp:303-351 | a line that passes the checks is handled by the switch on its record type |
| HexRecordInterpreter.InterpretLinesSnoc | source/hexFileParser.cpp:162-168 | one more line is applied after the others, numbered one past them |
| HexRecordInterpreter.DecodeErrorKinds | source/hexFileParser.cpp:252-301 | a rejected line gets one of the six structural error kinds |
| HexRecordInterpreter.FieldErrorMeaning | source/hexFileParser.cpp:265-296 | past the start-code and length checks, a record-type, address or data error occurs exactly when some field is not hex |
| HexRecordInterpreter.ChecksumErrorMeaning | source/hexFileParser.cpp:285-300 | for an all-hex line of the right length, the checksum error occurs exactly when the bytes do not sum to 0 modulo 256 |
| HexRecordInterpreter.PassedFields | source/hexFileParser.cpp:252-296 | a line that reaches the checksum test has a start code, a matching length and hex fields |
| HexRecordInterpreter.InterpretRejects | source/hexFileParser.cpp:252-301 | a line that is not well formed appends exactly one error with its index and changes nothing else |
| HexRecordInterpreter.WellFormedRecord | source/hexFileParser.cpp:252-301 | a well-formed line decodes to its bytes, with a count equal to its data length |
| HexRecordInterpreter.ApplyDataRecord | source/hexFileParser.cpp:304-323 | a data record goes through the window test at high + address, ending at high + address + n - 1, both modulo 2^32 |
| HexRecordInterpreter.DecodedDataLine | source/hexFileParser.cpp:304-323 | the same, for a line that decodes to a data record |
| HexRecordInterpreter.DataRecordStep | source/hexFileParser.cpp:304-323 | the same, for a well-formed data line in terms of its bytes |
| HexRecordInterpreter.ApplyDataLaw | source/hexFileParser.cpp:305-322 | the window law: the file range always widens; below the window gives a TooLow warning, above it a TooHigh warning, both dropping the fragment; inside it stores one fragment; errors and upper bits unchanged |
| HexRecordInterpreter.DataRecordLaw | source/hexFileParser.cpp:304-323 | the window law for a well-formed data line |
| HexRecordInterpreter.InertRecords | source/hexFileParser.cpp:325-346 | end-of-file and start-address records change nothing |
| HexRecordInterpreter.UnsupportedRecordType | source/hexFileParser.cpp:348-350 | a well-formed record of type above 5 only appends an InvalidRecordType error |
| HexRecordInterpreter.HexNumberOfFour | source/hexFileParser.cpp:329 | four hex digits read most significant first |
| HexRecordInterpreter.HexNumberOfTwo | source/hexFileParser.cpp:337 | two hex digits read most significant first |
| HexRecordInterpreter.AddressFieldValue | source/hexFileParser.cpp:328-342 | for a well-formed line the field is the two bytes after the header, or the checksum byte alone when there is no data |
| HexRecordInterpreter.AddressRecordLaw | source/hexFileParser.cpp:328-342 | a well-formed 04 record sets the upper bits to its field shifted by 16, a 02 record to its field shifted by 4, and nothing else changes |
| HexRecordInterpreter.InterpretLinesAppends | source/hexFileParser.cpp:163-168 | reading lines only appends, to the fragments, the errors and the warnings |
| HexRecordInterpreter.OneLineAppends | source/hexFileParser.cpp:250-352 | one line only appends |
| HexRecordInterpreter.OrderedStep | source/hexFileParser.cpp:162-168 | a line adding at most one error with its index keeps the new errors ordered |
| HexRecordInterpreter.ErrorIndices | source/hexFileParser.cpp:162-168 | the new errors number at most one per line and carry strictly increasing indices within 1..n |
| HexRecordInterpreter.OneLineErrors | source/hexFileParser.cpp:250-352 | a line keeps the errors or adds exactly one, tagged with its own index |
| HexRecordInterpreter.OneLineAccepted | source/hexFileParser.cpp:250-352 | a line adds no error exactly when it is well formed with a record type of at most 5 |
| HexRecordInterpreter.NoErrorsIffAccepted | source/hexFileParser.cpp:162-171 | reading lines adds no error exactly when every line is accepted |
| HexRecordInterpreter.AllAcceptedSplit | source/hexFileParser.cpp:162-168 | all lines are accepted exactly when all but the last are and the last is |
| HexChunkCombiner.AlignChunkLayout | source/hexFileParser.cpp:405-431 | the aligned chunk starts at offset - offset % align, a multiple of align; then offset % align fill bytes, the original bytes, and at most align further fill bytes |
| HexChunkCombiner.AlignedStart | source/hexFileParser.cpp:408-412 | the aligned start is a multiple of the alignment |
| HexChunkCombiner.AlignedStartPadsLength | source/hexFileParser.cpp:419-428 | for an aligned start with no wrap-around, the length is padded up to the next multiple of the alignment |
| HexChunkCombiner.AlignOneIsIdentity | source/hexFileParser.cpp:405-431 | alignment 1, the default, changes nothing |
| HexChunkCombiner.AlignExample | source/hexFileParser.cpp:405-431 | 32 bytes at 0x10064 aligned to 16 get 4 fill bytes in front and 12 behind, starting at 0x10060 |
| HexChunkCombiner.AlignEndsUnaligned | source/hexFileParser.cpp:420-421 | the end test uses the unaligned offset: 2 bytes at 1 with alignment 4 end unaligned |
| HexChunkCombiner.AlignGainsBlock | source/hexFileParser.cpp:420-428 | and 3 bytes at 1 with alignment 4 gain a whole extra block |
| HexChunkCombiner.InsertByOffset | source/hexFileParser.cpp:130 | insertion into a list sorted by offset keeps it sorted and adds exactly the one chunk |
| HexChunkCombiner.SortByOffset | source/hexFileParser.cpp:356 | the sort yields a sorted permutation of the chunks |
| HexChunkCombiner.SortedUnique | source/hexFileParser.cpp:356 | with distinct offsets, the sorted permutation is unique |
| HexChunkCombiner.SortedSameHead | source/hexFileParser.cpp:362 | with distinct offsets, every sorted permutation starts with the same chunk |
| HexChunkCombiner.MergeDropsEmptyRun | source/hexFileParser.cpp:379-384 | an open chunk holding only an empty fragment is dropped when a gap closes it |
| HexChunkCombiner.MergeOverlapWraps | source/hexFileParser.cpp:364-398 | overlapping fragments pass the gap test and the uint32 gap wraps: [z] at 1 after two bytes at 0 gets 0xFFFF_FFFF fill bytes before it |
| HexChunkCombiner.Layout | source/hexFileParser.cpp:364-397 | the intended merge: a fragment within the gap of the previous one's end joins its chunk after fill bytes, others open a chunk; never empty |
| HexChunkCombiner.AlignAll | source/hexFileParser.cpp:380 | every chunk aligned, index by index |
| HexChunkCombiner.MergeablePrefix | source/hexFileParser.cpp:364-397 | the merge theorem's assumption holds for every non-empty prefix |
| HexChunkCombiner.LayoutLast | source/hexFileParser.cpp:364-397 | the last layout chunk ends where the last fragment ends |
| HexChunkCombiner.MergeStepFollows | source/hexFileParser.cpp:364-397 | one pass of the loop extends the layout by one fragment |
| HexChunkCombiner.MergeFoldFollowsLayout | source/hexFileParser.cpp:364-397 | after the passes for the fragments, the finished chunks are the aligned layout chunks but the last, which is the open one |
| HexChunkCombiner.MergeIsLayout | source/hexFileParser.cpp:354-398 | for separated, non-empty fragments that stay below 2^32, the merge is the layout with every chunk aligned |
| HexChunkCombiner.AlignAllSnoc | source/hexFileParser.cpp:380 | aligning one more chunk appends its aligned form |
| HexChunkCombiner.LayoutCount | source/hexFileParser.cpp:364-397 | the layout has one chunk more than there are breaks between fragments |
| HexChunkCombiner.LayoutPlaces | source/hexFileParser.cpp:364-397 | every fragment lies, byte for byte, in the layout chunk numbered by the breaks before it |
| HexChunkCombiner.PlaceLast | source/hexFileParser.cpp:364-397 | the last fragment lands in the last layout chunk |
| HexChunkCombiner.PlaceEarlier | source/hexFileParser.cpp:364-397 | a fragment placed earlier stays placed when one more fragment is added |
| HexChunkCombiner.LayoutKeepsEarlier | source/hexFileParser.cpp:364-397 | adding a fragment only appends bytes to an earlier layout chunk |
| HexChunkCombiner.PlacedInExtended | source/hexFileParser.cpp:396 | appending bytes to a chunk keeps every fragment placed in it |
| HexImageStore.BytesAt | source/hexFileParser.cpp:100 | n bytes of the chunk, from the address's position in it |
| HexImageStore.Patch | source/hexFileParser.cpp:118 | the range holds the new bytes, every other byte is kept, the length is unchanged |
| HexImageStore.ReplaceAll | source/hexFileParser.cpp:108-123 | replace keeps the number of chunks |
| HexImageStore.ExtractFirstHolder | source/hexFileParser.cpp:94-106 | extract returns the bytes of the first chunk that holds the whole range |
| HexImageStore.ExtractNoHolder | source/hexFileParser.cpp:94-106 | extract returns nothing when no chunk holds the range |
| HexImageStore.ExtractLength | source/hexFileParser.cpp:94-106 | a non-empty extract has exactly the requested length and comes from a holding chunk |
| HexImageStore.ReplaceKeepsShape | source/hexFileParser.cpp:108-123 | replace keeps every offset and every length |
| HexImageStore.ReplaceEffect | source/hexFileParser.cpp:108-123 | every chunk that holds the range reads back the new bytes there and keeps all its other bytes; other chunks are unchanged |
| HexImageStore.ReplaceNoHolder | source/hexFileParser.cpp:108-123 | replacing a range no chunk holds changes nothing |
| HexImageStore.ReplaceIdempotent | source/hexFileParser.cpp:108-123 | replacing twice with the same bytes equals replacing once |
| HexImageStore.ReplaceInIdempotent | source/hexFileParser.cpp:112-120 | the same, for one chunk |
| HexImageStore.ReplaceThenExtract | source/hexFileParser.cpp:94-123 | extract after replace reads back the bytes written when some chunk holds the range |
| HexImageStore.FirstHolding | source/hexFileParser.cpp:97-104 | when some chunk holds a range there is a first one that does |
| HexImageStore.InsertDeterminedByOffsets | source/hexFileParser.cpp:125-131 | with distinct offsets the result of insert is determined |
| HexWriter.FullRecords | source/hexFileParser.cpp:213-228 | the signed loop bound: no full records for up to 16 bytes, otherwise all but 1 to 16 bytes go into full records |
| HexWriter.DataRecord | source/hexFileParser.cpp:216-237 | a data record announces as many bytes as it carries |
| HexWriter.ChunkRecords | source/hexFileParser.cpp:213-240 | one record per full 16 bytes plus the final one |
| HexWriter.LinesOf | source/hexFileParser.cpp:208-209 | one line per record |
| HexWriter.EndOfFileLineIsRecord | source/hexFileParser.cpp:242 | the fixed end-of-file text is the encoding of an empty type-01 record |
| HexWriter.ChunkRecordsCover | source/hexFileParser.cpp:213-240 | a chunk's records carry its bytes in order, 16 per record except the last, which carries 1 to 16; record j is at the low 16 bits of offset + 16j |
| HexWriter.PayloadOfPieces | source/hexFileParser.cpp:213-240 | the first m records carry the first 16m bytes |
| HexWriter.FileRecordsCounted | source/hexFileParser.cpp:191-241 | every record written announces as many bytes as it carries |
| HexWriter.WrittenLinesDecode | source/hexFileParser.cpp:191-242 | every written line is an upper-case well-formed line decoding to its record; the last is end of file |
| HexWriter.LastSegmentPrefixPastData | source/hexFileParser.cpp:213-240 | data records written after a segment record leave the last written prefix unchanged |
| HexWriter.LastSegmentPrefixOfRecord | source/hexFileParser.cpp:196-210 | after a segment record for p, the last written prefix is p |
| HexWriter.PrefixAfterIsLastWritten | source/hexFileParser.cpp:191-241 | the prefix the writer remembers after the chunks is the prefix of the last segment record among the records actually written (0 when none) |
| HexWriter.SegmentRecordWritten | source/hexFileParser.cpp:193-211 | the records for chunk k follow those for the chunks before it: a segment record for its prefix comes first exactly when the chunk starts above 0xFFFF and that prefix differs from the last segment record already in the file, then the chunk's data records; afterwards the file's last segment record carries the chunk's prefix |
| HexWriter.SegmentPrefixBase | source/hexFileParser.cpp:195 | the written prefix denotes the segment base offset & 0xFF000 |
| HexRoundTrip.SegmentLineLoads | source/hexFileParser.cpp:336-342 | a written segment record sets the upper bits to its prefix times 16 and nothing else |
| HexRoundTrip.DataLineLoads | source/hexFileParser.cpp:304-323 | a written data record is stored at high + address through the window test |
| HexRoundTrip.EndOfFileLineLoads | source/hexFileParser.cpp:325-326 | the end-of-file line changes nothing when loaded |
| HexRoundTrip.WrittenSingleByte | source/hexFileParser.cpp:191-242 | one byte at 0x11000 is written as a segment record for 0x1100, a data record at 0x1000 and end of file |
| HexRoundTrip.InterpretThree | source/hexFileParser.cpp:162-168 | three lines are applied in order with indices 1, 2, 3 |
| HexRoundTrip.SegmentPrefixMisplaces | source/hexFileParser.cpp:195 | as written, a byte saved at 0x11000 loads back at 0x12000 |
| HexRoundTrip.IntendedSegmentReloads | source/hexFileParser.cpp:195 | with the prefix (offset >> 4) & 0xF000, every data record of a chunk below 1 MiB within one 64 KiB segment loads back at offset + 16j with its bytes |
| HexRoundTrip.DataLineStoresAt | source/hexFileParser.cpp:304-323 | a data record whose address plus upper bits is a, below 2^32, is stored at a inside the window |
| HexRoundTrip.RecordCounted | source/hexFileParser.cpp:213-240 | every data record of a chunk announces as many bytes as it carries |
| HexRoundTrip.IntendedRecordAddress | source/hexFileParser.cpp:217 | with the intended prefix, record j's upper bits plus address is offset + 16j |
| HexRoundTrip.SegmentOfOffset | source/hexFileParser.cpp:217 | below 1 MiB, the intended prefix times 16 plus the low 16 bits of offset + k is offset + k |
| HexRoundTrip.PiecesAt | source/hexFileParser.cpp:213-240 | record j holds bytes 16j onwards of the chunk, at the low 16 bits of offset + 16j |
| HexRoundTrip.EndOfFileOnlyLeavesNoFragments | source/hexFileParser.cpp:161-171 | a file of only the end-of-file line reads without an error and leaves no fragment for the merge |
| HexRoundTrip.WrittenAcrossSegment | source/hexFileParser.cpp:191-242 | 32 bytes at 0xFFF8 are written as two data records at the 16-bit addresses 0xFFF8 and 0x0008, with no segment record between them, and end of file |
| HexRoundTrip.SegmentCrossingMisplaces | source/hexFileParser.cpp:193-217 | as written, the second record of those 32 bytes at 0xFFF8 loads back at 0x0008 instead of 0x10008 |
| HexRoundTrip.DataLineLoadsAs | source/hexFileParser.cpp:304-323 | the line of a counted data record is loaded, in any state, as that record's window test at high + address |
| HexRoundTrip.SegmentLineLoadsAs | source/hexFileParser.cpp:336-342 | the line of a segment record is loaded, in any state, as setting the upper bits to its prefix times 16 |
| HexRoundTrip.WrittenLineLoadsAs | source/hexFileParser.cpp:191-242 | every line of a kind the writer produces is loaded as its record |
| HexRoundTrip.LinesLoadAsRecords | source/hexFileParser.cpp:162-168 | reading lines that load as records is loading those records in order, numbered from 1 |
| HexRoundTrip.LoadWrittenRecords | source/hexFileParser.cpp:162-168 | the lines of writer records are non-empty and loading them is loading the records |
| HexRoundTrip.DataRecordLoadsAt | source/hexFileParser.cpp:304-323 | a data record whose upper bits plus address is a, inside the window, is stored at a with no error or warning |
| HexRoundTrip.SegmentRecordLoads | source/hexFileParser.cpp:336-342 | a segment record sets the upper bits to its prefix times 16 and changes nothing else |
| HexRoundTrip.RecordInSegment | source/hexFileParser.cpp:213-240 | record j of a chunk below 1 MiB is a non-empty counted data record inside the chunk, and the prefix of offset + 16j times 16 plus its address is offset + 16j |
| HexRoundTrip.SegmentedSnoc | source/hexFileParser.cpp:193-211 | the per-record writer rule puts a segment record before the last record exactly when its prefix differs from the one written last |
| HexRoundTrip.SegmentedWritten | source/hexFileParser.cpp:191-241 | everything the per-record rule writes is a counted data record or a segment record |
| HexRoundTrip.SegmentedStep | source/hexFileParser.cpp:304-342 | loading one more record under the per-record rule stores it under its own prefix and leaves errors and warnings alone |
| HexRoundTrip.SegmentedLoads | source/hexFileParser.cpp:304-342 | records written under the per-record rule, each inside the window, load back each under its own prefix with no error or warning, the upper bits ending at the last prefix |
| HexRoundTrip.StoredAt | source/hexFileParser.cpp:304-323 | the loaded fragment for record k is at its prefix times 16 plus its address, modulo 2^32 |
| HexRoundTrip.IntendedRecordsStored | source/hexFileParser.cpp:213-240 | under the intended per-record prefixes every record of a chunk below 1 MiB lies inside the window and lands at offset + 16j |
| HexRoundTrip.IntendedChunkRoundTrip | source/hexFileParser.cpp:191-242 | with a segment record before every record whose own 64 KiB segment differs from the one written last, a non-empty chunk below 1 MiB, even one crossing 64 KiB boundaries, loads back record j at offset + 16j, the records carry the chunk's bytes in order, and no error or warning is added |
| HexParser.HexFileParser.constructor | source/hexFileParser.cpp:5-18 | the constructor runs clear: full window, gap 16, alignment 1, fill 0xFF, no chunks |
| HexParser.HexFileParser.Clear | source/hexFileParser.cpp:10-18 | clear resets the window and the merge settings and empties the chunks; diagnostics and ranges stay |
| HexParser.HexFileParser.SetMemoryRange | source/hexFileParser.cpp:20-23 | the window is the given range |
| HexParser.HexFileParser.SetMemorySize | source/hexFileParser.cpp:25-29 | the window is from offset to offset + size modulo 2^32 |
| HexParser.HexFileParser.SetAddressGapSize | source/hexFileParser.cpp:31-34 | the gap size is set |
| HexParser.HexFileParser.SetAddressAlignment | source/hexFileParser.cpp:36-39 | the alignment is set, unchecked |
| HexParser.HexFileParser.ParseLine | source/hexFileParser.cpp:250-352 | the parse state after a line is Interpret of the state before |
| HexParser.HexFileParser.StoreRecord | source/hexFileParser.cpp:303-351 | the switch on the record type is ApplyRecord |
| HexParser.HexFileParser.StoreData | source/hexFileParser.cpp:304-323 | the data case is ApplyData: file range, window test, fragment or warning |
| HexParser.HexFileParser.Load | source/hexFileParser.cpp:148-179 | load resets errors, chunks, upper bits and file range but not warnings; an unopened file gives only FileNotOpen at line 0; otherwise it succeeds exactly when no line gave an error; on success the chunks are the merged sorted fragments and the binary range their span; on failure the raw fragments stay |
| HexParser.HexFileParser.LoadLines | source/hexFileParser.cpp:161-174 | the lines read, then merged when there is no error |
| HexParser.HexFileParser.ReadLines | source/hexFileParser.cpp:162-168 | the read loop is InterpretLines with lines numbered from 1 |
| HexParser.HexFileParser.CombineBinaryChunks | source/hexFileParser.cpp:354-403 | the chunks become Merge of the fragments sorted by offset; the binary range is first offset to last end - 1 in uint32 |
| HexParser.HexFileParser.MergeFragment | source/hexFileParser.cpp:364-397 | one loop pass is MergeStep |
| HexParser.HexFileParser.FixChunkAddressAlignment | source/hexFileParser.cpp:405-431 | the result is AlignChunk |
| HexParser.HexFileParser.Extract | source/hexFileParser.cpp:94-106 | the result is ExtractFrom |
| HexParser.HexFileParser.Replace | source/hexFileParser.cpp:108-123 | the chunks become ReplaceAll |
| HexParser.HexFileParser.Insert | source/hexFileParser.cpp:125-131 | the chunks become a sorted permutation of the old chunks plus the new one |
| HexParser.HexFileParser.CalculateChecksum | source/hexFileParser.cpp:79-87 | the uint8 loop computes Checksum |
| HexParser.HexFileParser.WriteRecord | source/hexFileParser.cpp:199-209 | the line is EncodeRecord |
| HexParser.HexFileParser.SaveToFile | source/hexFileParser.cpp:181-248 | the lines written are FileLines of the chunks |
| HexParser.HexFileParser.WriteChunk | source/hexFileParser.cpp:193-240 | a chunk's lines are ChunkOutput, and the prefix after it is updated only above 0xFFFF |
| HexParser.HexFileParser.WriteDataRecords | source/hexFileParser.cpp:213-240 | a chunk's data lines are ChunkRecords encoded |
| HexParser.ReplaceAllIndex | source/hexFileParser.cpp:110-122 | a list agreeing with the per-chunk replace at every index is ReplaceAll |
| HexParser.MergeFoldTake | source/hexFileParser.cpp:364 | the loop over i + 1 fragments is one pass after the loop over i |
| HexParser.ChunkRecordsTake | source/hexFileParser.cpp:213-240 | record j of a chunk is a full record before the last, and the final record last |
| HexParser.FullRecordsStep | source/hexFileParser.cpp:214 | the loop test i < n - 16 holds for i = 16j exactly while j is below the number of full records |
| HexParser.FullRecordsEnd | source/hexFileParser.cpp:214 | when it fails, j is the number of full records and at most 16 bytes remain |
| CanBeSerial.DlcToLength | source/CANbeSerial.cpp:184-188 | the table entry, or -1 exactly for a code past the table |
| CanBeSerial.SmallestDlc | source/CANbeSerial.cpp:190-201 | a code of the table or -1 |
| CanBeSerial.DlcTableShape | source/CANbeSerial.cpp:196-199 | the table lengths increase strictly, and codes 0 to 8 are their own length |
| CanBeSerial.SmallestDlcMeaning | source/CANbeSerial.cpp:190-201 | no code exactly above 64 bytes; up to 8 the length itself; otherwise the smallest code whose length holds the bytes |
| CanBeSerial.BigEndian32 | source/CANbeSerial.cpp:166-169 | four bytes |
| CanBeSerial.BigEndianRoundTrip | source/CANbeSerial.cpp:112-122 | reading the four big-endian bytes back gives the value |
| CanBeSerial.EncodeRejects | source/CANbeSerial.cpp:145-156 | the encoder gives nothing exactly when the size modulo 256 is above 64, or is not a table length while padding is off |
| CanBeSerial.FrameBytesShape | source/CANbeSerial.cpp:160-181 | an encoded frame is four zero bytes, the identifier big-endian, the flag word, the data and the padding |
| CanBeSerial.EncodedLength | source/CANbeSerial.cpp:143-182 | a frame of up to 64 bytes encodes to 10 + its code's length, with its data at 10 and the padding value after it |
| CanBeSerial.PaddingFits | source/CANbeSerial.cpp:154-158 | up to the table length, data and padding make exactly the table length |
| CanBeSerial.PaddedAtLeast | source/CANbeSerial.cpp:154-158 | data and padding are never shorter than the table length |
| CanBeSerial.FlagsOfFrame | source/CANbeSerial.cpp:148-152 | the flag byte carries the code in bits 4 to 7 and extended, rtr and fd in bits 0 to 2, bit 3 clear |
| CanBeSerial.DecodeEncodeFrame | source/CANbeSerial.cpp:106-182 | decoding an encoded frame gives a valid frame with timestamp 0, the identifier and flags, no bit rate switch, and the data followed by the padding |
| CanBeSerial.DecodeOfLayout | source/CANbeSerial.cpp:106-141 | bytes in the encoder's layout decode to their parts |
| CanBeSerial.DecodeValid | source/CANbeSerial.cpp:106-141 | bytes with a known code and enough data decode field by field |
| CanBeSerial.DecodeRejects | source/CANbeSerial.cpp:108-136 | the decoder gives the default frame for fewer than 10 bytes, and otherwise exactly when the bytes are too short for their code |
| CanBeSerial.FlagsCode | source/CANbeSerial.cpp:124-134 | the code field is the high nibble of byte 8 |
| CanBeSerial.DecodedFields | source/CANbeSerial.cpp:106-141 | a valid decoded frame takes everything from byte 10 (at least the code's length) as data, its timestamp and identifier from bytes 0 to 7 and its flags from byte 8 alone |
| CanBeSerial.LowBitsOfFlags | source/CANbeSerial.cpp:124-133 | the flag bits of the word are those of its low byte |
| CanBeSerial.LowBitsUnder | source/CANbeSerial.cpp:124-133 | adding a multiple of 16 or 256 keeps bits 0 to 3 |
| CanBeSerial.BusByteBits | source/CANbeSerial.cpp:92-95 | the bus byte has enabled, automatic retransmission and silent mode in bits 1, 2 and 3, bit 0 clear, below 16 |
| CanBeSerial.OversizedFrameEncodes | source/CANbeSerial.cpp:145 | as written, a 257-byte frame with padding is encoded with code 1 and all 257 bytes |
| CanBeSerial.CheckedFrameAnnouncesLength | source/CANbeSerial.cpp:145-146 | with sizes above 64 rejected, every encoded frame is exactly 10 + the length its code announces |
| CanBeSerial.CanSerial.constructor | source/CANbeSerial.cpp:5-8 | the configuration fields hold the given values |
| CanBeSerial.CanSerial.ConfigurationPayload | source/CANbeSerial.cpp:90-104 | the payload is baudrate, data baudrate, the bus byte with enabled, retransmission and silent bits, and a zero high byte |
| CanBeSerial.CanSerial.SetEnabled | source/CANbeSerial.cpp:16-20 | enabled is set, nothing else changes, and the configuration payload is sent |
| CanBeSerial.CanSerial.SetBaudrate | source/CANbeSerial.cpp:22-25 | the baudrate is set and nothing else changes |
| CanBeSerial.CanSerial.SetDataBaudrate | source/CANbeSerial.cpp:27-30 | the data baudrate is set and nothing else changes |
| CanBeSerial.CanSerial.SetTxPaddingEnable | source/CANbeSerial.cpp:32-36 | padding and its value are set and nothing else changes |
| CanBeSerial.CanSerial.LengthToDlc | source/CANbeSerial.cpp:190-201 | the table search gives the smallest fitting code, and -1 exactly above 64 bytes |
| CanBeSerial.CanSerial.EncodeFrame | source/CANbeSerial.cpp:143-182 | the bytes are FrameBytes under the object's padding settings |

## Left out

- File I/O. A file to load is its list of trimmed lines, or `None` when it
  cannot be opened (`HexParser.HexFile`). `saveToFile` returns its lines; the
  open failure it reports with `false` is not modelled.
- Qt signals and their emission. Also `write`, `receive`, `_parseMessage`
  and `_buildMessage` of CANbeSerial, together with the COBS framing and
  CRC16 checking they rely on. COBS and CRC are not part of this model.
- The leniency of `QString::toUInt`. It also accepts leading or trailing
  spaces and a sign. Here a field counts as a number only when every
  character is a hex digit.
- The Qt 5 `int` lengths. The model follows Qt 6, where lengths are signed
  64-bit `qsizetype`.
- The upper limit of the uint32 line index. Line numbers are unbounded
  `nat`s.
- HexParser.HexFileParser.Load:
  - It requires non-empty lines: QuCLib reads `line.at(0)` of every line.
  - When no line gives an error, so that the merge runs, it requires a
    non-zero alignment and at least one fragment. The merge computes `% 0`
    with alignment 0, and calls `first()` on the fragment list, which is
    undefined for an empty list. A file with an error is answered with
    `false` before the merge, whatever the alignment.
  - A file with no data record inside the window and no error, such as the
    single line `:00000001FF`, leaves no fragment
    (`HexRoundTrip.EndOfFileOnlyLeavesNoFragments`), so that case is outside
    the model.
- HexParser.HexFileParser.CombineBinaryChunks:
  - It requires a non-empty fragment list, for the same reason.
  - It sorts with one fixed order for chunks of equal offset. `std::sort`
    leaves that order unspecified. `SortedUnique` shows that the order is
    determined whenever offsets are distinct.
- HexParser.HexFileParser.Insert: the result is stated as any sorted
  permutation, because `std::sort` is unstable.
- HexParser.HexFileParser.constructor: the fields that `clear` does not set
  have no initial value in the C++ implementation. Here they start empty or zero.
- The getters (`errorCount`, `warningCount`, `errors`, `warnings`, `binary`,
  `fileAddressRange`, `binaryAddressRange`, `memoryAddressRange`) read the
  class's fields directly. `ErrorCount` and `WarningCount` are plain
  functions without a contract of their own.
- The general save-then-load round trip of a whole file, and the absence of
  overlap after alignment. `HexRoundTrip` proves the laws for single records
  and, for the corrected writer, for one chunk below 1 MiB;
  `MergeIsLayout` covers the merge before alignment.
- Overlapping or duplicate fragments. In the merge loop they make the uint32
  gap wrap around, so about 4 GiB of fill bytes are appended
  (`HexChunkCombiner.MergeOverlapWraps`). The model keeps that arithmetic;
  `MergeIsLayout` is proved only for separated fragments.
- The test file test/hexFileParser/test_hexFileParser.hpp:79-94 counts
  window violations with `errorCount()`, but hexFileParser.cpp:311-318
  records them as warnings. The model follows the code.
- CANbeSerial.h is not part of this model. From it the model takes:
  - the DLC table (the CAN FD lengths);
  - `CanBusFrame`, with its default value;
  - `Baudrate` as one byte;
  - the initial configuration, as constructor parameters.
- HexParser.HexFileParser.SaveToFile and CanBeSerial.CanSerial.EncodeFrame
  keep the behaviour as written, including the findings below. The corrected
  definitions are proved separately in `HexRoundTrip` and `CanBeSerial`. For
  the writer they cover one non-empty chunk below 1 MiB, not a whole file.

## Findings

| source | as written | input that shows it | evidently intended | confidence | as-written member | corrected member |
|---|---|---|---|---|---|---|
| source/hexFileParser.cpp:195 | the segment prefix is `(offset >> 4) & 0xFF00`, so it denotes base `offset & 0xFF000`, while data records carry the low 16 bits of the address; bits 12 to 15 are counted twice | one byte saved at 0x11000 loads back at 0x12000 | prefix `(offset >> 4) & 0xF000`, the 64 KiB segment of the offset; proved for the records of a chunk below 1 MiB that stays within one 64 KiB segment | not executed | HexRoundTrip.SegmentPrefixMisplaces | HexRoundTrip.IntendedSegmentReloads |
| source/hexFileParser.cpp:193-217 | one segment record is written per chunk, before its first record, while every data record carries only the low 16 bits of its own address | 32 bytes at 0xFFF8 reload as 16 bytes at 0xFFF8 and 16 bytes at 0x0008 | a segment record before every record whose 64 KiB segment differs from the one written last; proved for one non-empty chunk below 1 MiB | not executed | HexRoundTrip.SegmentCrossingMisplaces | HexRoundTrip.IntendedChunkRoundTrip |
| source/CANbeSerial.cpp:145 | the frame size goes to `_lengthToDlc(uint8_t)` modulo 256 | a 257-byte frame with padding on is encoded with code 1 (one byte) but carries all 257 bytes | reject frames longer than 64 bytes | not executed | CanBeSerial.OversizedFrameEncodes | CanBeSerial.CheckedFrameAnnouncesLength |
