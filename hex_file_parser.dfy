/**
 * QuCLib::HexFileParser: the Intel HEX engine as an object. Loading
 * interprets the lines one by one into fragments and diagnostics, then
 * merges the fragments into aligned chunks; the loaded chunks can be read,
 * patched and extended, and written back as lines.
 *
 * Every method is proved against the specification functions of the other
 * modules: ParseLine against Interpret, Load against InterpretLines and
 * Merge, CombineBinaryChunks against Merge, FixChunkAddressAlignment against
 * AlignChunk, Extract against ExtractFrom, Replace against ReplaceAll,
 * Insert against InsertResult and SaveToFile against FileLines.
 */
module HexParser {
  import opened Wrappers
  import opened HexTypes
  import opened HexLineCodec
  import opened HexRecordInterpreter
  import opened HexChunkCombiner
  import opened HexImageStore
  import opened HexWriter

  /**
   * What merging demands of the fragments: at least one, since QuCLib
   * reads the first element of the list (a file whose data records all fall
   * outside the window, or that has none, leaves none).
   */
  predicate Combinable(fragments: seq<Chunk>)
  {
    |fragments| > 0
  }

  /** The binary address range after a merge: first offset to last offset + length - 1, in uint32. */
  function AddressSpan(binary: seq<Chunk>): Range
    requires |binary| > 0
  {
    var last := binary[|binary| - 1];
    Range(binary[0].offset, Wrap32(last.offset + |last.data| - 1))
  }

  /** The lines a load reads; None when the file cannot be opened. */
  type HexFile = Option<seq<string>>

  /**
   * What Load demands: every line is non-empty and, when no line gives an
   * error so that the merge runs, the alignment is not zero and the fragments
   * can be merged. A file with an error is answered with false before the
   * merge, whatever the alignment.
   */
  predicate Loadable(file: HexFile, warnings: seq<FileError>, memorySize: Range, addressAlignment: u32)
  {
    file.Some? ==>
      NonEmptyLines(file.value)
      && var s := InterpretLines(StartSession(warnings), memorySize, file.value);
         s.errors == [] ==> addressAlignment > 0 && Combinable(s.binary)
  }

  class HexFileParser {
    /** The loaded chunks (before merging: the raw fragments). */
    var binary: seq<Chunk>
    var errors: seq<FileError>
    var warnings: seq<FileError>
    /** The upper address bits set by the last 02/04 record. */
    var high: u32
    /** The address range of all data records read, inside the window or not. */
    var fileAddress: Range
    /** The address window; data records outside it are dropped with a warning. */
    var memorySize: Range
    /** The address range of the merged chunks. */
    var binaryAddress: Range
    var addressGapSize: u32
    var addressAlignment: u32
    var fillValue: byte

    /** The fields reading lines changes. */
    function ParseState(): Session
      reads this
    {
      Session(high, fileAddress, binary, errors, warnings)
    }

    /** The fields merging is configured by. */
    function Config(): MergeConfig
      reads this
    {
      MergeConfig(addressGapSize, addressAlignment, fillValue)
    }

    /**
     * The constructor runs clear. The fields clear does not set have no
     * initial value in the C++ implementation; here they start empty or zero.
     */
    constructor ()
      ensures memorySize == Range(0, 0xFFFF_FFFF) && Config() == MergeConfig(16, 1, 0xFF) && binary == []
      ensures errors == [] && warnings == [] && high == 0
      ensures fileAddress == Range(0, 0) && binaryAddress == Range(0, 0)
    {
      errors := [];
      warnings := [];
      high := 0;
      fileAddress := Range(0, 0);
      binaryAddress := Range(0, 0);
      memorySize := Range(0, 0xFFFF_FFFF);
      addressGapSize := 16;
      addressAlignment := 1;
      fillValue := 0xFF;
      binary := [];
    }

    /** Default window and merge settings, no chunks; the diagnostics and ranges stay. */
    method Clear()
      modifies this
      ensures memorySize == Range(0, 0xFFFF_FFFF) && Config() == MergeConfig(16, 1, 0xFF) && binary == []
      ensures errors == old(errors) && warnings == old(warnings) && high == old(high)
      ensures fileAddress == old(fileAddress) && binaryAddress == old(binaryAddress)
    {
      memorySize := Range(0, 0xFFFF_FFFF);
      addressGapSize := 16;
      addressAlignment := 1;
      fillValue := 0xFF;
      binary := [];
    }

    method SetMemoryRange(range: Range)
      modifies this`memorySize
      ensures memorySize == range
    {
      memorySize := range;
    }

    /** The window from addressOffset to addressOffset + size, the sum taken modulo 2^32. */
    method SetMemorySize(addressOffset: u32, size: u32)
      modifies this`memorySize
      ensures memorySize == Range(addressOffset, Wrap32(addressOffset + size))
    {
      memorySize := Range(addressOffset, Wrap32(addressOffset + size));
    }

    method SetAddressGapSize(gap: u32)
      modifies this`addressGapSize
      ensures addressGapSize == gap
    {
      addressGapSize := gap;
    }

    /** Any value is accepted; merging then demands a non-zero alignment. */
    method SetAddressAlignment(alignment: u32)
      modifies this`addressAlignment
      ensures addressAlignment == alignment
    {
      addressAlignment := alignment;
    }

    function ErrorCount(): nat
      reads this
    {
      |errors|
    }

    function WarningCount(): nat
      reads this
    {
      |warnings|
    }

    /**
     * One trimmed line, numbered index: a line that fails a check gets one
     * error; a data record updates the file range and is stored or dropped
     * with a warning by the window test; 02/04 records set the upper
     * address bits; unknown record types are errors.
     */
    method ParseLine(index: nat, line: string)
      requires |line| > 0
      modifies this`high, this`fileAddress, this`binary, this`errors, this`warnings
      ensures ParseState() == Interpret(old(ParseState()), memorySize, index, line)
    {
      var decoded := DecodeLine(line);
      if decoded.Err? {
        errors := errors + [FileError(index, decoded.error)];
        return;
      }
      InterpretDecoded(ParseState(), memorySize, index, line, decoded.value);
      StoreRecord(index, line, decoded.value);
    }

    /**
     * The switch on the record type of a line that passed every check: a
     * data record updates the file range and is stored or dropped with a
     * warning by the window test; 02/04 records set the upper address bits
     * (to 0, with an error, when their field is not hex); 01, 03 and 05 do
     * nothing; other types are errors.
     */
    method StoreRecord(index: nat, line: string, r: Record)
      modifies this`high, this`fileAddress, this`binary, this`errors, this`warnings
      ensures ParseState() == ApplyRecord(old(ParseState()), memorySize, index, line, r)
    {
      if r.recordType == DATA {
        var start := Wrap32(high + r.address);
        var end := Wrap32(high + r.address + r.byteCount - 1);
        ApplyDataRecord(ParseState(), memorySize, index, line, r);
        StoreData(index, start, end, r.data);
      } else if r.recordType == END_OF_FILE {
        return;
      } else if r.recordType == EXTENDED_LINEAR_ADDRESS || r.recordType == EXTENDED_SEGMENT_ADDRESS {
        var shift := if r.recordType == EXTENDED_LINEAR_ADDRESS then 0x1_0000 else 0x10;
        var field := AddressField(line);
        if field.None? {
          high := 0;
          errors := errors + [FileError(index, InvalidAddressByte)];
          return;
        }
        high := Wrap32(field.value * shift);
      } else if r.recordType == START_SEGMENT_ADDRESS || r.recordType == START_LINEAR_ADDRESS {
      } else {
        errors := errors + [FileError(index, InvalidRecordType)];
      }
    }

    /** A data record from start to end: the file range widened, then the window test. */
    method StoreData(index: nat, start: u32, end: u32, data: seq<byte>)
      modifies this`fileAddress, this`binary, this`warnings
      ensures ParseState() == ApplyData(old(ParseState()), memorySize, index, start, end, data)
    {
      if fileAddress.minimum > start {
        fileAddress := fileAddress.(minimum := start);
      }
      if fileAddress.maximum < end {
        fileAddress := fileAddress.(maximum := end);
      }
      if memorySize.minimum > start {
        warnings := warnings + [FileError(index, AddressRangeTooLow)];
        return;
      }
      if memorySize.maximum < end {
        warnings := warnings + [FileError(index, AddressRangeTooHigh)];
        return;
      }
      binary := binary + [Chunk(start, data)];
    }

    /**
     * Load resets the errors, the chunks, the upper address bits and the
     * file range (not the warnings), then reads the lines numbered from 1.
     * It succeeds exactly when no line gave an error, and then the chunks
     * are the merged fragments; after a failure the raw fragments stay. A
     * file that cannot be opened gives the single error FileNotOpen at line 0.
     */
    method Load(file: HexFile) returns (ok: bool)
      requires Loadable(file, warnings, memorySize, addressAlignment)
      modifies this`high, this`fileAddress, this`binary, this`errors, this`warnings, this`binaryAddress
      ensures file.None? ==>
        !ok && ParseState() == StartSession(old(warnings)).(errors := [FileError(0, FileNotOpen)])
        && binaryAddress == old(binaryAddress)
      ensures file.Some? ==> LoadedFrom(file.value, StartSession(old(warnings)), old(binaryAddress), ok)
    {
      errors := [];
      binary := [];
      high := 0;
      fileAddress := Range(0xFFFF_FFFF, 0);
      if file.None? {
        errors := errors + [FileError(0, FileNotOpen)];
        return false;
      }
      ok := LoadLines(file.value);
    }

    /**
     * What load leaves after reading lines from the session start (the
     * binary range was range before): the interpreted session with, on
     * success (no errors), the fragments merged and their span recorded.
     */
    ghost predicate LoadedFrom(lines: seq<string>, start: Session, range: Range, ok: bool)
      requires NonEmptyLines(lines)
      reads this
    {
      var s := InterpretLines(start, memorySize, lines);
      (ok <==> s.errors == [])
      && errors == s.errors && warnings == s.warnings && high == s.high && fileAddress == s.fileAddress
      && (!ok ==> binary == s.binary && binaryAddress == range)
      && (ok ==> addressAlignment > 0 && |s.binary| > 0 && binary == Merge(SortByOffset(s.binary), Config()) && |binary| > 0 && binaryAddress == AddressSpan(binary))
    }

    /** The lines read and, when none gave an error, the fragments merged. */
    method LoadLines(lines: seq<string>) returns (ok: bool)
      requires NonEmptyLines(lines)
      requires var s := InterpretLines(ParseState(), memorySize, lines); s.errors == [] ==> addressAlignment > 0 && Combinable(s.binary)
      modifies this`high, this`fileAddress, this`binary, this`errors, this`warnings, this`binaryAddress
      ensures LoadedFrom(lines, old(ParseState()), old(binaryAddress), ok)
    {
      ReadLines(lines);
      if |errors| > 0 {
        return false;
      }
      ghost var fragments := binary;
      CombineBinaryChunks();
      assert binary == Merge(SortByOffset(fragments), Config());
      return true;
    }

    /** The lines applied in order, numbered from 1 (the read loop of load). */
    method ReadLines(lines: seq<string>)
      requires NonEmptyLines(lines)
      modifies this`high, this`fileAddress, this`binary, this`errors, this`warnings
      ensures ParseState() == InterpretLines(old(ParseState()), memorySize, lines)
    {
      var lineIndex := 0;
      while lineIndex < |lines|
        invariant lineIndex <= |lines|
        invariant NonEmptyLines(lines[..lineIndex])
        invariant ParseState() == InterpretLines(old(ParseState()), memorySize, lines[..lineIndex])
      {
        assert lines[..lineIndex + 1] == lines[..lineIndex] + [lines[lineIndex]];
        InterpretLinesSnoc(old(ParseState()), memorySize, lines[..lineIndex], lines[lineIndex]);
        lineIndex := lineIndex + 1;
        ParseLine(lineIndex, lines[lineIndex - 1]);
      }
      assert lines[..lineIndex] == lines;
    }

    /**
     * The fragments sorted by offset and merged by QuCLib's loop, each
     * finished chunk aligned; the binary range is then the span of the
     * chunks.
     */
    method CombineBinaryChunks()
      requires Combinable(binary) && addressAlignment > 0
      modifies this`binary, this`binaryAddress
      ensures binary == Merge(SortByOffset(old(binary)), Config())
      ensures binaryAddress == AddressSpan(binary)
    {
      var sorted := SortByOffset(binary);
      var m := MergeStart(sorted[0]);
      var i := 0;
      while i < |sorted|
        invariant i <= |sorted|
        invariant m == MergeFold(MergeStart(sorted[0]), sorted[..i], Config())
      {
        MergeFoldTake(MergeStart(sorted[0]), sorted, i, Config());
        m := MergeFragment(m, sorted[i]);
        i := i + 1;
      }
      assert sorted[..i] == sorted;
      var last := FixChunkAddressAlignment(m.chunkOffset, m.nextData);
      binary := m.combined + [last];
      binaryAddress := AddressSpan(binary);
    }

    /**
     * One pass of the merge loop for fragment f, on the loop variables m
     * (finished chunks, open chunk's bytes and start, next expected
     * address): a fragment within the gap size of the next address is
     * joined after fill bytes, one further away finishes the open chunk
     * (aligned, when it has bytes), and a fragment then opens a chunk if
     * none is open.
     */
    method MergeFragment(m: Merger, f: Chunk) returns (r: Merger)
      requires addressAlignment > 0
      ensures r == MergeStep(m, f, Config())
    {
      var combined := m.combined;
      var nextData := m.nextData;
      var chunkOffset := m.chunkOffset;
      var nextOffset := m.nextOffset;
      if nextOffset != f.offset {
        if f.offset <= Wrap32(nextOffset + addressGapSize) {
          var gapFillSize := Wrap32(f.offset - nextOffset);
          var k := 0;
          while k < gapFillSize
            invariant k <= gapFillSize
            invariant nextData == m.nextData + Fill(k, fillValue)
          {
            nextData := nextData + [fillValue];
            k := k + 1;
          }
          nextOffset := Wrap32(nextOffset + gapFillSize + |f.data|);
        } else {
          if |nextData| > 0 {
            var aligned := FixChunkAddressAlignment(chunkOffset, nextData);
            combined := combined + [aligned];
          }
          nextData := [];
          chunkOffset := NO_CHUNK;
        }
      } else {
        nextOffset := Wrap32(f.offset + |f.data|);
      }
      assert Merger(combined, nextData, chunkOffset, nextOffset) == MergeAdvance(m, f, Config());
      if chunkOffset == NO_CHUNK {
        nextOffset := Wrap32(f.offset + |f.data|);
        chunkOffset := f.offset;
      }
      nextData := nextData + f.data;
      r := Merger(combined, nextData, chunkOffset, nextOffset);
    }

    /**
     * The chunk moved down to a multiple of the alignment with fill bytes
     * in front, and fill bytes appended when the original offset plus the
     * new length is not a multiple of it.
     */
    method FixChunkAddressAlignment(offset: u32, data: seq<byte>) returns (c: Chunk)
      requires addressAlignment > 0
      ensures c == AlignChunk(offset, data, addressAlignment, fillValue)
    {
      RemainderBounds(offset, addressAlignment);
      ghost var lead := offset % addressAlignment;
      var d := data;
      var alignedOffset := offset;
      if offset % addressAlignment != 0 {
        var fillCount := offset - (offset - offset % addressAlignment);
        assert fillCount == lead;
        alignedOffset := alignedOffset - fillCount;
        var i := 0;
        while i < fillCount
          invariant i <= fillCount
          invariant d == Fill(i, fillValue) + data
        {
          d := [fillValue] + d;
          i := i + 1;
        }
      }
      assert alignedOffset == offset - lead && d == Fill(lead, fillValue) + data;
      RemainderBounds(|d|, addressAlignment);
      var chunkEndAddress := Wrap32(offset + |d|);
      if chunkEndAddress % addressAlignment != 0 {
        var fillCount := addressAlignment - |d| % addressAlignment;
        ghost var padded := d;
        var i := 0;
        while i < fillCount
          invariant i <= fillCount
          invariant d == padded + Fill(i, fillValue)
        {
          d := d + [fillValue];
          i := i + 1;
        }
      }
      c := Chunk(alignedOffset, d);
    }

    /** The size bytes from address out of the first chunk that holds all of them, or nothing. */
    method Extract(address: u32, size: u32) returns (output: seq<byte>)
      ensures output == ExtractFrom(binary, address, size)
    {
      output := [];
      var i := 0;
      while i < |binary|
        invariant i <= |binary|
        invariant ExtractFrom(binary[i..], address, size) == ExtractFrom(binary, address, size)
      {
        var c := binary[i];
        if c.offset <= address {
          if |c.data| - (address - c.offset) >= size {
            output := c.data[address - c.offset .. address - c.offset + size];
            return;
          }
        }
        assert binary[i..][1..] == binary[i + 1..];
        i := i + 1;
      }
    }

    /** The bytes from address overwritten in every chunk that holds the whole range. */
    method Replace(address: u32, data: seq<byte>)
      modifies this`binary
      ensures binary == ReplaceAll(old(binary), address, data)
    {
      var i := 0;
      while i < |binary|
        invariant i <= |binary| == |old(binary)|
        invariant forall j :: 0 <= j < i ==> binary[j] == ReplaceIn(old(binary)[j], address, data)
        invariant forall j :: i <= j < |binary| ==> binary[j] == old(binary)[j]
      {
        ghost var before := binary;
        if binary[i].offset <= address {
          var chunk := binary[i];
          var index := address - chunk.offset;
          if |chunk.data| - index >= |data| {
            chunk := Chunk(chunk.offset, Patch(chunk.data, index, data));
            binary := binary[i := chunk];
          }
        }
        assert binary == before[i := ReplaceIn(old(binary)[i], address, data)];
        i := i + 1;
      }
      ReplaceAllIndex(old(binary), address, data, binary);
    }

    /** The chunk appended without any check, and the list sorted by offset again. */
    method Insert(c: Chunk)
      modifies this`binary
      ensures InsertResult(old(binary), c, binary)
    {
      binary := SortByOffset(binary + [c]);
    }

    /** The two's-complement checksum: the byte sum modulo 256, negated. */
    static method CalculateChecksum(data: seq<byte>) returns (output: byte)
      ensures output == Checksum(data)
    {
      output := 0;
      var i := 0;
      while i < |data|
        invariant i <= |data|
        invariant output == Sum(data[..i]) % 256
      {
        assert data[..i + 1][..i] == data[..i];
        var before := Sum(data[..i]);
        assert Sum(data[..i + 1]) == before + data[i];
        ModShift(256, before / 256, output + data[i]);
        assert before + data[i] == 256 * (before / 256) + (output + data[i]);
        output := (output + data[i]) % 256;
        i := i + 1;
      }
      assert data[..i] == data;
      output := (0xFF - output + 1) % 256;
    }

    /** One record as an upper-case hex line with its checksum. */
    static method WriteRecord(r: Record) returns (line: string)
      ensures line == EncodeRecord(r)
    {
      var body := RecordBody(r);
      var checksum := CalculateChecksum(body);
      line := ":" + HexString(body + [checksum]);
    }

    /**
     * The lines written for the chunks: per chunk above 0xFFFF a segment
     * record when its prefix changes, data records of 16 bytes and a final
     * one with the rest; an end-of-file line after all chunks.
     */
    method SaveToFile() returns (lines: seq<string>)
      ensures lines == FileLines(binary)
    {
      lines := [];
      var offsetPrefix: u16 := 0;
      var ci := 0;
      while ci < |binary|
        invariant ci <= |binary|
        invariant lines == LinesOf(FileRecords(binary[..ci]))
        invariant offsetPrefix == PrefixAfter(binary[..ci])
      {
        var c := binary[ci];
        ghost var done := FileRecords(binary[..ci]);
        var chunkLines;
        chunkLines, offsetPrefix := WriteChunk(c, offsetPrefix);
        LinesOfAppend(done, ChunkOutput(c, PrefixAfter(binary[..ci])));
        lines := lines + chunkLines;
        assert binary[..ci + 1][..ci] == binary[..ci];
        ci := ci + 1;
      }
      assert binary[..ci] == binary;
      lines := lines + [END_OF_FILE_LINE];
    }

    /**
     * The lines of one chunk after the prefix offsetPrefix: a segment
     * record first when the chunk lies above 0xFFFF and its prefix differs,
     * then its data records; the prefix after it.
     */
    static method WriteChunk(c: Chunk, offsetPrefix: u16) returns (lines: seq<string>, prefix: u16)
      ensures lines == LinesOf(ChunkOutput(c, offsetPrefix))
      ensures prefix == if c.offset > 0xFFFF then SegmentPrefix(c.offset) else offsetPrefix
    {
      lines := [];
      prefix := offsetPrefix;
      ghost var segment: seq<Record> := [];
      if c.offset > 0xFFFF {
        var offset := SegmentPrefix(c.offset);
        if offset != prefix {
          prefix := offset;
          var line := WriteRecord(SegmentRecord(prefix));
          segment := [SegmentRecord(prefix)];
          lines := [line];
        }
      }
      assert lines == LinesOf(segment);
      var dataLines := WriteDataRecords(c);
      LinesOfAppend(segment, ChunkRecords(c));
      lines := lines + dataLines;
    }

    /** The data records of one chunk: 16 bytes each while i < length - 16, then one with the rest. */
    static method WriteDataRecords(c: Chunk) returns (lines: seq<string>)
      ensures lines == LinesOf(ChunkRecords(c))
    {
      lines := [];
      var n := |c.data|;
      var i := 0;
      ghost var j := 0;
      while i < n - 16
        invariant i == 16 * j && j <= FullRecords(n)
        invariant lines == LinesOf(ChunkRecords(c)[..j])
      {
        FullRecordsStep(n, j);
        var r := DataRecord(c, i, 16);
        var line := WriteRecord(r);
        ChunkRecordsTake(c, j);
        LinesOfSnoc(ChunkRecords(c)[..j], r);
        lines := lines + [line];
        i := i + 16;
        j := j + 1;
      }
      FullRecordsEnd(n, j);
      var r := DataRecord(c, i, n - i);
      var line := WriteRecord(r);
      ChunkRecordsTake(c, j);
      LinesOfSnoc(ChunkRecords(c)[..j], r);
      lines := lines + [line];
    }
  }

  /** A list agreeing with ReplaceIn at every index is ReplaceAll. */
  lemma ReplaceAllIndex(binary: seq<Chunk>, a: u32, d: seq<byte>, r: seq<Chunk>)
    requires |r| == |binary| && forall j :: 0 <= j < |r| ==> r[j] == ReplaceIn(binary[j], a, d)
    ensures r == ReplaceAll(binary, a, d)
  {
  }

  // ---------------------------------------------------------------- lemmas for the merge loop

  /** The fold over the first i + 1 fragments is one more pass after the fold over the first i. */
  lemma MergeFoldTake(m: Merger, s: seq<Chunk>, i: nat, cfg: MergeConfig)
    requires cfg.align > 0 && i < |s|
    ensures MergeFold(m, s[..i + 1], cfg) == MergeStep(MergeFold(m, s[..i], cfg), s[i], cfg)
  {
    assert s[..i + 1][..i] == s[..i];
  }

  // ---------------------------------------------------------------- lemmas for the writer's loops

  lemma LinesOfAppend(a: seq<Record>, b: seq<Record>)
    ensures LinesOf(a + b) == LinesOf(a) + LinesOf(b)
  {
  }

  lemma LinesOfSnoc(rs: seq<Record>, r: Record)
    ensures LinesOf(rs + [r]) == LinesOf(rs) + [EncodeRecord(r)]
  {
  }

  /** The first j + 1 records of a chunk are its first j records and record j. */
  lemma ChunkRecordsTake(c: Chunk, j: nat)
    requires j <= FullRecords(|c.data|)
    ensures ChunkRecords(c)[..j + 1] == ChunkRecords(c)[..j] + [ChunkRecords(c)[j]]
    ensures j < FullRecords(|c.data|) ==> ChunkRecords(c)[j] == DataRecord(c, 16 * j, 16)
    ensures j == FullRecords(|c.data|) ==> ChunkRecords(c)[j] == DataRecord(c, 16 * j, |c.data| - 16 * j) && ChunkRecords(c)[..j + 1] == ChunkRecords(c)
  {
  }

  /** The loop test i < n - 16 holds for i = 16 j exactly while j is below FullRecords(n). */
  lemma FullRecordsStep(n: nat, j: nat)
    requires j <= FullRecords(n) && 16 * j < n - 16
    ensures j < FullRecords(n) && 16 * j + 16 <= n
  {
  }

  lemma FullRecordsEnd(n: nat, j: nat)
    requires j <= FullRecords(n) && 16 * j >= n - 16
    ensures j == FullRecords(n) && 16 * j <= n && n - 16 * j <= 16
  {
  }
}
