/**
 * The lines HexFileParser::saveToFile writes for a chunk list: per chunk an
 * optional extended segment address record, data records of 16 bytes and
 * one final data record with the rest, and an end-of-file line after all
 * chunks.
 */
module HexWriter {
  import opened Wrappers
  import opened HexTypes
  import opened HexLineCodec

  /** The end-of-file line written after the last chunk. */
  const END_OF_FILE_LINE: string := ":00000001FF"

  /** The prefix the writer computes for a chunk offset: (offset >> 4) & 0xFF00. */
  function SegmentPrefix(offset: u32): u16
  {
    ((offset / 16) / 256 % 256) * 256
  }

  /** An extended segment address record holding a 16-bit prefix, big-endian. */
  function SegmentRecord(prefix: u16): Record
  {
    Record(2, 0, EXTENDED_SEGMENT_ADDRESS, [prefix / 256, prefix % 256])
  }

  /**
   * How many 16-byte records the loop writes for n bytes: it runs while
   * i < n - 16 (compared as signed numbers, so not at all when n <= 16).
   */
  function FullRecords(n: nat): (k: nat)
    ensures 16 * k <= n
    ensures n > 0 ==> 0 < n - 16 * k <= 16
    ensures n == 0 ==> k == 0
  {
    if n <= 16 then 0 else (n - 1) / 16
  }

  /** The data record for bytes i .. i + n of c, at the low 16 bits of c.offset + i. */
  function DataRecord(c: Chunk, i: nat, n: nat): (r: Record)
    requires i + n <= |c.data| && n <= 16
    ensures r.byteCount == |r.data| == n && r.recordType == DATA
  {
    Record(n, Wrap16(c.offset + i), DATA, c.data[i .. i + n])
  }

  /** The data records of one chunk: FullRecords of 16 bytes, then one with the rest. */
  function ChunkRecords(c: Chunk): (rs: seq<Record>)
    ensures |rs| == FullRecords(|c.data|) + 1
  {
    var k := FullRecords(|c.data|);
    seq(k, j requires 0 <= j < k => DataRecord(c, 16 * j, 16)) + [DataRecord(c, 16 * k, |c.data| - 16 * k)]
  }

  /** The records for chunk c when the last prefix written is prefix. */
  function ChunkOutput(c: Chunk, prefix: u16): seq<Record>
  {
    (if c.offset > 0xFFFF && SegmentPrefix(c.offset) != prefix then [SegmentRecord(SegmentPrefix(c.offset))] else [])
    + ChunkRecords(c)
  }

  /** The last prefix written after the given chunks (0 before any). */
  function PrefixAfter(binary: seq<Chunk>): u16
    decreases |binary|
  {
    if binary == [] then 0
    else
      var c := binary[|binary| - 1];
      if c.offset > 0xFFFF then SegmentPrefix(c.offset) else PrefixAfter(binary[..|binary| - 1])
  }

  /** All records of a chunk list, in output order. */
  function FileRecords(binary: seq<Chunk>): seq<Record>
    decreases |binary|
  {
    if binary == [] then []
    else
      var init := binary[..|binary| - 1];
      FileRecords(init) + ChunkOutput(binary[|binary| - 1], PrefixAfter(init))
  }

  /** Each record written as an upper-case hex line. */
  function LinesOf(rs: seq<Record>): (lines: seq<string>)
    ensures |lines| == |rs|
  {
    seq(|rs|, i requires 0 <= i < |rs| => EncodeRecord(rs[i]))
  }

  /** The whole output of the writer. */
  function FileLines(binary: seq<Chunk>): seq<string>
  {
    LinesOf(FileRecords(binary)) + [END_OF_FILE_LINE]
  }

  // ---------------------------------------------------------------- lemmas

  /** The fixed end-of-file text is the encoding of an empty type-01 record. */
  lemma EndOfFileLineIsRecord()
    ensures END_OF_FILE_LINE == EncodeRecord(Record(0, 0, END_OF_FILE, []))
  {
    var body := RecordBody(Record(0, 0, END_OF_FILE, []));
    assert body == [0, 0, 0, 1];
    SumOfFour(0, 0, 0, 1);
    var bs: seq<byte> := [0, 0, 0, 1, 0xFF];
    assert body + [Checksum(body)] == bs;
    var h := HexString(bs);
    forall j | 0 <= j < 10 ensures h[j] == "00000001FF"[j] {
      HexStringChar(bs, j);
    }
    assert h == "00000001FF";
  }

  /** The bytes of a list of records, one after the other. */
  function Payload(rs: seq<Record>): seq<byte>
    decreases |rs|
  {
    if rs == [] then [] else Payload(rs[..|rs| - 1]) + rs[|rs| - 1].data
  }

  /**
   * A chunk's data records carry its bytes in order, 16 per record except
   * the last, which carries between 1 and 16 (none for an empty chunk);
   * record j is addressed at the low 16 bits of offset + 16 j.
   */
  lemma ChunkRecordsCover(c: Chunk)
    ensures var rs := ChunkRecords(c);
      Payload(rs) == c.data
      && (forall j :: 0 <= j < |rs| ==>
            rs[j].recordType == DATA && rs[j].byteCount == |rs[j].data|
            && rs[j].address == (c.offset + 16 * j) % 0x1_0000)
      && (forall j :: 0 <= j < |rs| - 1 ==> |rs[j].data| == 16)
      && (|c.data| > 0 ==> 0 < |rs[|rs| - 1].data| <= 16)
  {
    var rs := ChunkRecords(c);
    PayloadOfPieces(c, |rs| - 1);
    assert rs[..|rs| - 1 + 1] == rs;
  }

  /** The first m records of a chunk carry its first 16 m bytes. */
  lemma {:induction false} PayloadOfPieces(c: Chunk, m: nat)
    requires m < |ChunkRecords(c)|
    ensures Payload(ChunkRecords(c)[..m]) == c.data[..16 * m]
    ensures Payload(ChunkRecords(c)[..m + 1]) == c.data[..16 * m + |ChunkRecords(c)[m].data|]
  {
    var rs := ChunkRecords(c);
    if m > 0 {
      PayloadOfPieces(c, m - 1);
      assert rs[..m][..m - 1] == rs[..m - 1];
    }
    assert rs[..m + 1][..m] == rs[..m];
    assert c.data[..16 * m] + c.data[16 * m .. 16 * m + |rs[m].data|] == c.data[..16 * m + |rs[m].data|];
  }

  /** Every record the writer emits announces exactly as many bytes as it carries. */
  lemma {:induction false} FileRecordsCounted(binary: seq<Chunk>)
    ensures forall j :: 0 <= j < |FileRecords(binary)| ==> FileRecords(binary)[j].byteCount == |FileRecords(binary)[j].data|
    decreases |binary|
  {
    if binary != [] {
      var init := binary[..|binary| - 1];
      FileRecordsCounted(init);
      ChunkRecordsCover(binary[|binary| - 1]);
    }
  }

  /**
   * Every written line is a well-formed upper-case record line that decodes
   * to the record it was written from; the last line is the end-of-file
   * record.
   */
  lemma WrittenLinesDecode(binary: seq<Chunk>, j: nat)
    requires j < |FileLines(binary)|
    ensures var line := FileLines(binary)[j];
      WellFormedLine(line) && UpperHex(line) && |line| > 0
      && DecodeLine(line) == Ok(if j < |FileRecords(binary)| then FileRecords(binary)[j] else Record(0, 0, END_OF_FILE, []))
  {
    var rs := FileRecords(binary);
    if j < |rs| {
      FileRecordsCounted(binary);
      EncodeDecodeRecord(rs[j]);
    } else {
      EndOfFileLineIsRecord();
      EncodeDecodeRecord(Record(0, 0, END_OF_FILE, []));
    }
  }

  /**
   * The prefix carried by the last extended segment address record among
   * rs, read back big-endian from its two data bytes; 0 when there is none.
   */
  function LastSegmentPrefix(rs: seq<Record>): u16
    decreases |rs|
  {
    if rs == [] then 0
    else
      var r := rs[|rs| - 1];
      if r.recordType == EXTENDED_SEGMENT_ADDRESS && |r.data| == 2 then r.data[0] * 256 + r.data[1]
      else LastSegmentPrefix(rs[..|rs| - 1])
  }

  /** Data records leave the last segment prefix as it was. */
  lemma {:induction false} LastSegmentPrefixPastData(rs: seq<Record>, ds: seq<Record>)
    requires forall j :: 0 <= j < |ds| ==> ds[j].recordType == DATA
    ensures LastSegmentPrefix(rs + ds) == LastSegmentPrefix(rs)
    decreases |ds|
  {
    if ds != [] {
      var init := ds[..|ds| - 1];
      assert (rs + ds)[..|rs + ds| - 1] == rs + init;
      assert (rs + ds)[|rs + ds| - 1] == ds[|ds| - 1];
      LastSegmentPrefixPastData(rs, init);
    } else {
      assert rs + ds == rs;
    }
  }

  /** A segment record just written is the last one, and its prefix reads back. */
  lemma LastSegmentPrefixOfRecord(rs: seq<Record>, p: u16)
    ensures LastSegmentPrefix(rs + [SegmentRecord(p)]) == p
  {
    assert (rs + [SegmentRecord(p)])[|rs|] == SegmentRecord(p);
  }

  /**
   * The prefix the writer tracks after a list of chunks is the prefix of
   * the last segment record it has written, or 0 when it has written none.
   */
  lemma {:induction false} PrefixAfterIsLastWritten(binary: seq<Chunk>)
    ensures LastSegmentPrefix(FileRecords(binary)) == PrefixAfter(binary)
    decreases |binary|
  {
    if binary != [] {
      var init := binary[..|binary| - 1];
      var c := binary[|binary| - 1];
      PrefixAfterIsLastWritten(init);
      var before := FileRecords(init);
      var data := ChunkRecords(c);
      ChunkRecordsAreData(c);
      assert FileRecords(binary) == before + ChunkOutput(c, PrefixAfter(init));
      if c.offset > 0xFFFF && SegmentPrefix(c.offset) != PrefixAfter(init) {
        var seg := SegmentRecord(SegmentPrefix(c.offset));
        assert FileRecords(binary) == (before + [seg]) + data;
        LastSegmentPrefixPastData(before + [seg], data);
        LastSegmentPrefixOfRecord(before, SegmentPrefix(c.offset));
      } else {
        assert FileRecords(binary) == before + data;
        LastSegmentPrefixPastData(before, data);
      }
    }
  }

  /** The records of a chunk's bytes are all data records. */
  lemma ChunkRecordsAreData(c: Chunk)
    ensures forall j :: 0 <= j < |ChunkRecords(c)| ==> ChunkRecords(c)[j].recordType == DATA
  {
  }

  /**
   * The records of chunk k follow those of the chunks before it. A segment
   * record for the chunk's prefix comes first exactly when the chunk lies
   * above 0xFFFF and its prefix differs from that of the last segment
   * record written (0 when none was); so the data records of a chunk above
   * 0xFFFF always follow a segment record carrying its prefix.
   */
  lemma SegmentRecordWritten(binary: seq<Chunk>, k: nat)
    requires k < |binary|
    ensures var before := FileRecords(binary[..k]);
      var c := binary[k];
      var emit := c.offset > 0xFFFF && SegmentPrefix(c.offset) != LastSegmentPrefix(before);
      var segment := if emit then [SegmentRecord(SegmentPrefix(c.offset))] else [];
      FileRecords(binary[..k + 1]) == before + segment + ChunkRecords(c)
      && (c.offset > 0xFFFF ==> LastSegmentPrefix(before + segment) == SegmentPrefix(c.offset))
  {
    assert binary[..k + 1][..k] == binary[..k];
    PrefixAfterIsLastWritten(binary[..k]);
    LastSegmentPrefixOfRecord(FileRecords(binary[..k]), SegmentPrefix(binary[k].offset));
    assert FileRecords(binary[..k]) + [] == FileRecords(binary[..k]);
  }

  /** The prefix the writer emits keeps bits 12 to 19 of the offset: the segment base it denotes is offset & 0xFF000. */
  lemma SegmentPrefixBase(offset: u32)
    ensures SegmentPrefix(offset) * 16 == offset / 4096 % 256 * 4096
  {
    assert (offset / 16) / 256 == offset / 4096;
  }
}
