/**
 * What the loader makes of the lines the writer produces: where a written
 * data record lands once the preceding extended segment address record
 * has been applied.
 */
module HexRoundTrip {
  import opened HexTypes
  import opened HexLineCodec
  import opened HexRecordInterpreter
  import opened HexWriter

  /** A written segment record sets the loader's upper address bits to its prefix times 16, and nothing else. */
  lemma SegmentLineLoads(s: Session, window: Range, index: nat, p: u16)
    ensures Interpret(s, window, index, EncodeRecord(SegmentRecord(p))) == s.(high := p * 16)
  {
    var r := SegmentRecord(p);
    EncodeDecodeRecord(r);
    EncodedBytes(r);
    var line := EncodeRecord(r);
    var b := LineBytes(line);
    assert b[0] == 2 && b[3] == EXTENDED_SEGMENT_ADDRESS && b[4] == p / 256 && b[5] == p % 256;
    AddressRecordLaw(s, window, index, line);
  }

  /** A written data record is stored at high + address, both modulo 2^32, through the window test. */
  lemma DataLineLoads(s: Session, window: Range, index: nat, r: Record)
    requires r.recordType == DATA && r.byteCount == |r.data|
    ensures Interpret(s, window, index, EncodeRecord(r))
      == ApplyData(s, window, index, Wrap32(s.high + r.address), Wrap32(s.high + r.address + r.byteCount - 1), r.data)
  {
    EncodeDecodes(r);
    InterpretDecoded(s, window, index, EncodeRecord(r), r);
    ApplyDataRecord(s, window, index, EncodeRecord(r), r);
  }

  /** The end-of-file line the writer appends changes nothing when loaded. */
  lemma EndOfFileLineLoads(s: Session, window: Range, index: nat)
    ensures Interpret(s, window, index, END_OF_FILE_LINE) == s
  {
    EndOfFileLineIsRecord();
    EncodeDecodeRecord(Record(0, 0, END_OF_FILE, []));
  }

  /**
   * As written, the writer's prefix (offset >> 4) & 0xFF00 denotes the
   * segment base offset & 0xFF000, while the data records carry the low 16
   * bits of the address: a single byte saved at 0x11000 is read back at
   * 0x12000.
   */
  lemma SegmentPrefixMisplaces(x: byte)
    ensures
      var lines := FileLines([Chunk(0x11000, [x])]);
      NonEmptyLines(lines)
      && InterpretLines(StartSession([]), Range(0, 0xFFFF_FFFF), lines).binary == [Chunk(0x12000, [x])]
  {
    var c := Chunk(0x11000, [x]);
    var seg := SegmentRecord(0x1100);
    var rec := Record(1, 0x1000, DATA, [x]);
    WrittenSingleByte(x);
    var w := Range(0, 0xFFFF_FFFF);
    var s0 := StartSession([]);
    SegmentLineLoads(s0, w, 1, 0x1100);
    var s1 := s0.(high := 0x11000);
    DataLineLoads(s1, w, 2, rec);
    var s2 := Interpret(s1, w, 2, EncodeRecord(rec));
    assert s2.binary == [Chunk(0x12000, [x])];
    EndOfFileLineLoads(s2, w, 3);
    InterpretThree(s0, w, EncodeRecord(seg), EncodeRecord(rec), END_OF_FILE_LINE);
  }

  /** The lines written for one byte at 0x11000: a segment record for 0x1100, a data record at 0x1000, end of file. */
  lemma WrittenSingleByte(x: byte)
    ensures FileLines([Chunk(0x11000, [x])])
      == [EncodeRecord(SegmentRecord(0x1100)), EncodeRecord(Record(1, 0x1000, DATA, [x])), END_OF_FILE_LINE]
  {
    var c := Chunk(0x11000, [x]);
    assert SegmentPrefix(0x11000) == 0x1100;
    assert FullRecords(1) == 0;
    assert c.data[0..1] == [x];
    assert DataRecord(c, 0, 1) == Record(1, 0x1000, DATA, [x]);
    assert ChunkRecords(c) == [DataRecord(c, 0, 1)];
    assert [c][..0] == [];
    assert FileRecords([c]) == [SegmentRecord(0x1100), Record(1, 0x1000, DATA, [x])];
  }

  /** Three lines are applied in order, numbered 1, 2 and 3. */
  lemma InterpretThree(s: Session, window: Range, a: string, b: string, e: string)
    requires |a| > 0 && |b| > 0 && |e| > 0
    ensures NonEmptyLines([a, b, e])
    ensures InterpretLines(s, window, [a, b, e])
      == Interpret(Interpret(Interpret(s, window, 1, a), window, 2, b), window, 3, e)
  {
    assert [] + [a] == [a] && [a] + [b] == [a, b] && [a, b] + [e] == [a, b, e];
    InterpretLinesSnoc(s, window, [], a);
    InterpretLinesSnoc(s, window, [a], b);
    InterpretLinesSnoc(s, window, [a, b], e);
  }

  /** The prefix the segment record evidently should carry: (offset >> 4) & 0xF000, the 64 KiB segment of the offset. */
  function IntendedSegmentPrefix(offset: nat): u16
  {
    (offset / 16) / 4096 % 16 * 4096
  }

  /**
   * With the intended prefix, every data record of a chunk below 1 MiB
   * that stays inside one 64 KiB segment is stored at offset + 16 j with
   * the record's bytes, which are the chunk's bytes from 16 j on.
   */
  lemma IntendedSegmentReloads(s: Session, window: Range, index: nat, c: Chunk, j: nat)
    requires c.offset < 0x10_0000 && c.offset % 0x1_0000 + |c.data| <= 0x1_0000
    requires j < |ChunkRecords(c)|
    ensures
      var r := ChunkRecords(c)[j];
      var t := Interpret(s.(high := IntendedSegmentPrefix(c.offset) * 16), window, index, EncodeRecord(r));
      Wrap32(IntendedSegmentPrefix(c.offset) * 16 + r.address) == c.offset + 16 * j
      && r.data == c.data[16 * j .. 16 * j + |r.data|]
      && (window.minimum <= c.offset + 16 * j && c.offset + 16 * j + |r.data| - 1 <= window.maximum && |r.data| > 0
          ==> t.binary == s.binary + [Chunk(c.offset + 16 * j, r.data)])
  {
    var r := ChunkRecords(c)[j];
    IntendedRecordAddress(c, j);
    RecordCounted(c, j);
    DataLineStoresAt(s, window, index, IntendedSegmentPrefix(c.offset) * 16, r, c.offset + 16 * j);
  }

  /**
   * A data record whose address plus the upper bits is a, with all its
   * bytes below 2^32, is stored at a when it lies inside the window.
   */
  lemma DataLineStoresAt(s: Session, window: Range, index: nat, base: u32, r: Record, a: nat)
    requires r.recordType == DATA && r.byteCount == |r.data|
    requires base + r.address == a < TWO_32 && a + |r.data| <= TWO_32
    ensures
      var t := Interpret(s.(high := base), window, index, EncodeRecord(r));
      Wrap32(base + r.address) == a && t.high == base && t.errors == s.errors
      && (window.minimum <= a && a + |r.data| - 1 <= window.maximum && |r.data| > 0
          ==> t.binary == s.binary + [Chunk(a, r.data)] && t.warnings == s.warnings)
  {
    var st := s.(high := base);
    DataLineLoads(st, window, index, r);
    var end := Wrap32(base + r.address + r.byteCount - 1);
    if |r.data| > 0 {
      assert end == a + |r.data| - 1;
    }
    ApplyDataLaw(st, window, index, a, end, r.data);
  }

  /** Every data record of a chunk announces as many bytes as it carries. */
  lemma RecordCounted(c: Chunk, j: nat)
    requires j < |ChunkRecords(c)|
    ensures ChunkRecords(c)[j].byteCount == |ChunkRecords(c)[j].data| && ChunkRecords(c)[j].recordType == DATA
  {
  }

  /** The address arithmetic of a reloaded record, with the intended prefix. */
  lemma IntendedRecordAddress(c: Chunk, j: nat)
    requires c.offset < 0x10_0000 && c.offset % 0x1_0000 + |c.data| <= 0x1_0000
    requires j < |ChunkRecords(c)|
    ensures var r := ChunkRecords(c)[j];
      16 * j + |r.data| <= |c.data| && r.data == c.data[16 * j .. 16 * j + |r.data|]
      && IntendedSegmentPrefix(c.offset) * 16 + r.address == c.offset + 16 * j < TWO_32
  {
    var r := ChunkRecords(c)[j];
    PiecesAt(c, j);
    assert c.offset % 0x1_0000 + 16 * j < 0x1_0000 by {
      if |r.data| == 0 {
        assert j == 0;
      }
    }
    SegmentOfOffset(c.offset, 16 * j);
  }

  /** Below 1 MiB, the intended prefix times 16 plus the low 16 bits of offset + k is offset + k, when that stays in the segment. */
  lemma SegmentOfOffset(offset: u32, k: nat)
    requires offset < 0x10_0000 && offset % 0x1_0000 + k < 0x1_0000
    ensures IntendedSegmentPrefix(offset) * 16 + (offset + k) % 0x1_0000 == offset + k
  {
    var q := offset / 0x1_0000;
    var rm := offset % 0x1_0000;
    assert offset == 0x1_0000 * q + rm;
    var a := offset / 16;
    assert offset == 16 * a + offset % 16;
    assert a == 4096 * q + rm / 16 by {
      assert offset == 16 * (4096 * q + rm / 16) + rm % 16;
      ModOfMultiplePlus(16, 4096 * q + rm / 16, rm % 16);
    }
    ModOfMultiplePlus(4096, q, rm / 16);
    assert a / 4096 == q;
    assert q < 16;
    ModOfMultiplePlus(0x1_0000, q, rm + k);
  }

  lemma PiecesAt(c: Chunk, j: nat)
    requires j < |ChunkRecords(c)|
    ensures var r := ChunkRecords(c)[j];
      16 * j + |r.data| <= |c.data| && r.data == c.data[16 * j .. 16 * j + |r.data|]
      && r.address == (c.offset + 16 * j) % 0x1_0000
      && (|r.data| == 0 ==> j == 0)
  {
  }

  // ------------------------------------------------ chunks across 64 KiB

  /** The lines written for 32 bytes at 0xFFF8: two data records, the second at the wrapped address 0x0008. */
  lemma WrittenAcrossSegment(x: byte)
    ensures FileLines([Chunk(0xFFF8, Fill(32, x))])
      == [EncodeRecord(Record(16, 0xFFF8, DATA, Fill(16, x))), EncodeRecord(Record(16, 0x0008, DATA, Fill(16, x))), END_OF_FILE_LINE]
  {
    var c := Chunk(0xFFF8, Fill(32, x));
    assert FullRecords(32) == 1;
    assert c.data[0..16] == Fill(16, x);
    assert c.data[16..32] == Fill(16, x);
    assert DataRecord(c, 0, 16) == Record(16, 0xFFF8, DATA, Fill(16, x));
    assert DataRecord(c, 16, 16) == Record(16, 0x0008, DATA, Fill(16, x));
    assert ChunkRecords(c) == [DataRecord(c, 0, 16), DataRecord(c, 16, 16)];
    assert [c][..0] == [];
    assert FileRecords([c]) == ChunkRecords(c);
  }

  /**
   * As written, the writer emits at most one segment record per chunk and
   * cuts each record's address to 16 bits, so a chunk whose records cross a
   * 64 KiB boundary reloads 64 KiB low from there on: 32 bytes saved at
   * 0xFFF8 come back as 16 bytes at 0xFFF8 and 16 bytes at 0x0008.
   */
  lemma SegmentCrossingMisplaces(x: byte)
    ensures
      var lines := FileLines([Chunk(0xFFF8, Fill(32, x))]);
      NonEmptyLines(lines)
      && InterpretLines(StartSession([]), Range(0, 0xFFFF_FFFF), lines).binary
         == [Chunk(0xFFF8, Fill(16, x)), Chunk(0x0008, Fill(16, x))]
  {
    var r1 := Record(16, 0xFFF8, DATA, Fill(16, x));
    var r2 := Record(16, 0x0008, DATA, Fill(16, x));
    WrittenAcrossSegment(x);
    var w := Range(0, 0xFFFF_FFFF);
    var s0 := StartSession([]);
    DataLineLoads(s0, w, 1, r1);
    var s1 := Interpret(s0, w, 1, EncodeRecord(r1));
    assert s1.binary == [Chunk(0xFFF8, Fill(16, x))] && s1.high == 0;
    DataLineLoads(s1, w, 2, r2);
    var s2 := Interpret(s1, w, 2, EncodeRecord(r2));
    assert s2.binary == [Chunk(0xFFF8, Fill(16, x)), Chunk(0x0008, Fill(16, x))];
    EndOfFileLineLoads(s2, w, 3);
    InterpretThree(s0, w, EncodeRecord(r1), EncodeRecord(r2), END_OF_FILE_LINE);
  }

  /**
   * A file holding only the end-of-file line reads without an error and
   * leaves no fragment, so the merge that follows would be asked for the
   * first of no fragments.
   */
  lemma EndOfFileOnlyLeavesNoFragments(window: Range)
    ensures NonEmptyLines([END_OF_FILE_LINE])
    ensures var t := InterpretLines(StartSession([]), window, [END_OF_FILE_LINE]);
      t.errors == [] && t.binary == []
  {
    EndOfFileLineLoads(StartSession([]), window, 1);
    assert [END_OF_FILE_LINE][..0] == [];
  }

  /** The prefix written last: that of the last record, or prefix before any. */
  function LastPrefix(ps: seq<u16>, prefix: u16): u16
  {
    if ps == [] then prefix else ps[|ps| - 1]
  }

  /**
   * Data records rs, record k preceded by an extended segment address
   * record for its prefix ps[k] whenever that differs from the prefix
   * written last (prefix before the first): the writer's rule for segment
   * records, applied record by record instead of chunk by chunk.
   */
  function Segmented(ps: seq<u16>, rs: seq<Record>, prefix: u16): seq<Record>
    requires |ps| == |rs|
    decreases |rs|
  {
    if rs == [] then []
    else
      var n := |rs| - 1;
      Segmented(ps[..n], rs[..n], prefix)
      + (if ps[n] != LastPrefix(ps[..n], prefix) then [SegmentRecord(ps[n])] else [])
      + [rs[n]]
  }

  /** The prefixes the segment records should carry for the records of c: that of each record's own address. */
  function IntendedPrefixes(c: Chunk): (ps: seq<u16>)
    ensures |ps| == |ChunkRecords(c)|
  {
    seq(|ChunkRecords(c)|, k requires 0 <= k => IntendedSegmentPrefix(c.offset + 16 * k))
  }

  /** The records of chunk c as the writer evidently intends them, when the prefix written last is prefix. */
  function IntendedRecords(c: Chunk, prefix: u16): seq<Record>
  {
    Segmented(IntendedPrefixes(c), ChunkRecords(c), prefix)
  }

  /** Where the loader puts the data record r under the upper bits q * 16. */
  function StoredChunk(q: u16, r: Record): Chunk
  {
    Chunk(Wrap32(q as int * 16 + r.address), r.data)
  }

  /** Where the loader puts data record k under the upper bits ps[k] * 16. */
  function Stored(ps: seq<u16>, rs: seq<Record>): (fs: seq<Chunk>)
    requires |ps| == |rs|
    ensures |fs| == |rs|
    decreases |rs|
  {
    if rs == [] then []
    else
      var n := |rs| - 1;
      Stored(ps[..n], rs[..n]) + [StoredChunk(ps[n], rs[n])]
  }

  /** Where the records of c belong: record j at offset + 16 j, with its bytes. */
  function Placed(c: Chunk): (fs: seq<Chunk>)
    requires c.offset + |c.data| <= TWO_32
    ensures |fs| == |ChunkRecords(c)|
  {
    seq(|ChunkRecords(c)|, j requires 0 <= j < |ChunkRecords(c)| => Chunk(c.offset + 16 * j, ChunkRecords(c)[j].data))
  }

  /** Every data record, loaded under its prefix, is non-empty and lies inside the window. */
  predicate StoresInside(ps: seq<u16>, rs: seq<Record>, window: Range)
    requires |ps| == |rs|
  {
    forall k :: 0 <= k < |rs| ==>
      rs[k].recordType == DATA && rs[k].byteCount == |rs[k].data| > 0
      && window.minimum <= ps[k] as int * 16 + rs[k].address
      && ps[k] as int * 16 + rs[k].address + |rs[k].data| - 1 <= window.maximum
  }

  /** Record j of a non-empty chunk below 1 MiB: non-empty, inside the chunk, and addressed within the segment of offset + 16 j. */
  lemma RecordInSegment(c: Chunk, j: nat)
    requires c.offset + |c.data| <= 0x10_0000 && |c.data| > 0
    requires j < |ChunkRecords(c)|
    ensures var r := ChunkRecords(c)[j];
      r.recordType == DATA && r.byteCount == |r.data| > 0 && 16 * j + |r.data| <= |c.data|
      && IntendedSegmentPrefix(c.offset + 16 * j) * 16 + r.address == c.offset + 16 * j
  {
    var r := ChunkRecords(c)[j];
    PiecesAt(c, j);
    SegmentOfOffset(c.offset + 16 * j, 0);
  }

  /** The two kinds of record the writer produces: counted data records and segment records. */
  predicate WriterRecord(r: Record)
  {
    (r.recordType == DATA && r.byteCount == |r.data|)
    || (r.recordType == EXTENDED_SEGMENT_ADDRESS && |r.data| == 2 && r == SegmentRecord(r.data[0] as int * 256 + r.data[1]))
  }

  /**
   * What the loader does with a record the writer produced, stated on the
   * record rather than on its line: a data record goes through the window
   * test at high + address, a segment record sets the upper bits to its
   * prefix times 16.
   */
  function LoadRecord(s: Session, window: Range, index: nat, r: Record): Session
  {
    if r.recordType == DATA then
      ApplyData(s, window, index, Wrap32(s.high + r.address), Wrap32(s.high + r.address + r.byteCount - 1), r.data)
    else if r.recordType == EXTENDED_SEGMENT_ADDRESS && |r.data| == 2 then
      s.(high := (r.data[0] as int * 256 + r.data[1]) * 16)
    else s
  }

  /** Records loaded in order, the k-th (from 0) numbered k + 1, as the read loop numbers their lines. */
  function LoadRecords(s: Session, window: Range, rs: seq<Record>): Session
    decreases |rs|
  {
    if rs == [] then s
    else LoadRecord(LoadRecords(s, window, rs[..|rs| - 1]), window, |rs|, rs[|rs| - 1])
  }

  /** A line that the loader, in any state and at any index, treats as the record r. */
  ghost predicate LoadsAs(line: string, r: Record)
  {
    |line| > 0
    && forall t: Session, window: Range, index: nat {:trigger Interpret(t, window, index, line)} ::
         Interpret(t, window, index, line) == LoadRecord(t, window, index, r)
  }

  /** The line of a counted data record is loaded as that record. */
  lemma DataLineLoadsAs(r: Record)
    requires r.recordType == DATA && r.byteCount == |r.data|
    ensures LoadsAs(EncodeRecord(r), r)
  {
    forall t: Session, window: Range, index: nat
      ensures Interpret(t, window, index, EncodeRecord(r)) == LoadRecord(t, window, index, r)
    {
      DataLineLoads(t, window, index, r);
    }
  }

  /** The line of a segment record is loaded as that record. */
  lemma SegmentLineLoadsAs(p: u16)
    ensures LoadsAs(EncodeRecord(SegmentRecord(p)), SegmentRecord(p))
  {
    var r := SegmentRecord(p);
    assert r.data[0] as int * 256 + r.data[1] == p;
    forall t: Session, window: Range, index: nat
      ensures Interpret(t, window, index, EncodeRecord(r)) == LoadRecord(t, window, index, r)
    {
      SegmentLineLoads(t, window, index, p);
    }
  }

  /** The line of a record the writer produces is loaded as that record. */
  lemma WrittenLineLoadsAs(r: Record)
    requires WriterRecord(r)
    ensures LoadsAs(EncodeRecord(r), r)
  {
    if r.recordType == DATA {
      DataLineLoadsAs(r);
    } else {
      SegmentLineLoadsAs(r.data[0] as int * 256 + r.data[1]);
    }
  }

  /** Lines that are loaded as records, read in order, load those records in order. */
  lemma {:induction false} LinesLoadAsRecords(s: Session, window: Range, lines: seq<string>, rs: seq<Record>)
    requires |lines| == |rs|
    requires forall k :: 0 <= k < |rs| ==> LoadsAs(lines[k], rs[k])
    ensures NonEmptyLines(lines)
    ensures InterpretLines(s, window, lines) == LoadRecords(s, window, rs)
    decreases |rs|
  {
    if rs != [] {
      var n := |rs| - 1;
      LinesLoadAsRecords(s, window, lines[..n], rs[..n]);
      assert lines[..n] == lines[..|lines| - 1];
      assert LoadsAs(lines[n], rs[n]);
    }
  }

  /** Loading the lines of writer records is loading the records themselves. */
  lemma LoadWrittenRecords(s: Session, window: Range, rs: seq<Record>)
    requires forall k :: 0 <= k < |rs| ==> WriterRecord(rs[k])
    ensures NonEmptyLines(LinesOf(rs))
    ensures InterpretLines(s, window, LinesOf(rs)) == LoadRecords(s, window, rs)
  {
    var lines := LinesOf(rs);
    forall k | 0 <= k < |rs| ensures LoadsAs(lines[k], rs[k]) {
      WrittenLineLoadsAs(rs[k]);
    }
    LinesLoadAsRecords(s, window, lines, rs);
  }

  /** One more record loaded after the others. */
  lemma LoadRecordsSnoc(s: Session, window: Range, rs: seq<Record>, r: Record)
    ensures LoadRecords(s, window, rs + [r]) == LoadRecord(LoadRecords(s, window, rs), window, |rs| + 1, r)
  {
    assert (rs + [r])[..|rs|] == rs;
  }

  /**
   * A data record whose address plus the upper bits is a, loaded as a
   * record: stored at a when inside the window, the upper bits kept.
   */
  lemma DataRecordLoadsAt(t: Session, window: Range, index: nat, r: Record, a: nat)
    requires r.recordType == DATA && r.byteCount == |r.data| > 0
    requires t.high + r.address == a && a + |r.data| <= TWO_32
    requires window.minimum <= a && a + |r.data| - 1 <= window.maximum
    ensures var u := LoadRecord(t, window, index, r);
      u.binary == t.binary + [Chunk(a, r.data)] && u.errors == t.errors && u.warnings == t.warnings && u.high == t.high
  {
    ApplyDataLaw(t, window, index, a, a + |r.data| - 1, r.data);
  }

  /** The last record is stored after the others. */
  lemma StoredSnoc(ps: seq<u16>, rs: seq<Record>)
    requires |ps| == |rs| > 0
    ensures var n := |rs| - 1;
      Stored(ps, rs) == Stored(ps[..n], rs[..n]) + [StoredChunk(ps[n], rs[n])]
  {
  }

  /** Record k is stored at ps[k] * 16 + its address, modulo 2^32. */
  lemma {:induction false} StoredAt(ps: seq<u16>, rs: seq<Record>, k: nat)
    requires |ps| == |rs| && k < |rs|
    ensures Stored(ps, rs)[k] == StoredChunk(ps[k], rs[k])
    decreases |rs|
  {
    var n := |rs| - 1;
    if k < n {
      StoredAt(ps[..n], rs[..n], k);
    }
  }

  /** The records Segmented produces from counted data records are writer records. */
  lemma {:induction false} SegmentedWritten(ps: seq<u16>, rs: seq<Record>, prefix: u16)
    requires |ps| == |rs|
    requires forall k :: 0 <= k < |rs| ==> rs[k].recordType == DATA && rs[k].byteCount == |rs[k].data|
    ensures forall k :: 0 <= k < |Segmented(ps, rs, prefix)| ==> WriterRecord(Segmented(ps, rs, prefix)[k])
    decreases |rs|
  {
    if rs != [] {
      var n := |rs| - 1;
      SegmentedWritten(ps[..n], rs[..n], prefix);
      assert SegmentRecord(ps[n]).data[0] as int * 256 + SegmentRecord(ps[n]).data[1] == ps[n];
    }
  }

  /** The last record of Segmented, with its segment record if one is written, is stored under its prefix. */
  lemma SegmentedStep(s: Session, window: Range, ps: seq<u16>, rs: seq<Record>, prefix: u16)
    requires |ps| == |rs| > 0 && StoresInside(ps, rs, window)
    requires var n := |rs| - 1;
      LoadRecords(s, window, Segmented(ps[..n], rs[..n], prefix)).high == LastPrefix(ps[..n], prefix) as int * 16
    ensures var n := |rs| - 1;
      var t0 := LoadRecords(s, window, Segmented(ps[..n], rs[..n], prefix));
      var t := LoadRecords(s, window, Segmented(ps, rs, prefix));
      t.binary == t0.binary + [StoredChunk(ps[n], rs[n])]
      && t.errors == t0.errors && t.warnings == t0.warnings && t.high == ps[n] as int * 16
  {
    var n := |rs| - 1;
    var before := Segmented(ps[..n], rs[..n], prefix);
    var t0 := LoadRecords(s, window, before);
    var r := rs[n];
    var q := ps[n];
    var a := q as int * 16 + r.address;
    var out := Segmented(ps, rs, prefix);
    assert r.recordType == DATA && r.byteCount == |r.data| > 0 && window.minimum <= a && a + |r.data| - 1 <= window.maximum;
    var t1 := t0;
    if q != LastPrefix(ps[..n], prefix) {
      SegmentedSnoc(ps, rs, prefix);
      var mid := before + [SegmentRecord(q)];
      LoadRecordsSnoc(s, window, before, SegmentRecord(q));
      SegmentRecordLoads(t0, window, |before| + 1, q);
      t1 := LoadRecords(s, window, mid);
      LoadRecordsSnoc(s, window, mid, r);
      assert out == mid + [r];
    } else {
      SegmentedSnoc(ps, rs, prefix);
      LoadRecordsSnoc(s, window, before, r);
      assert out == before + [r];
    }
    assert t1.binary == t0.binary && t1.errors == t0.errors && t1.warnings == t0.warnings && t1.high == q as int * 16;
    var u := LoadRecord(t1, window, |out|, r);
    assert LoadRecords(s, window, out) == u;
    DataRecordLoadsAt(t1, window, |out|, r, a);
    assert u.binary == t1.binary + [Chunk(a, r.data)];
    assert Wrap32(a) == a;
    var last := StoredChunk(q, r);
    assert last == Chunk(a, r.data);
    assert u.binary == t0.binary + [last];
  }

  /** Segmented puts the last record, and its segment record if one is due, after the others. */
  lemma SegmentedSnoc(ps: seq<u16>, rs: seq<Record>, prefix: u16)
    requires |ps| == |rs| > 0
    ensures var n := |rs| - 1;
      var before := Segmented(ps[..n], rs[..n], prefix);
      Segmented(ps, rs, prefix)
        == if ps[n] != LastPrefix(ps[..n], prefix) then before + [SegmentRecord(ps[n])] + [rs[n]] else before + [rs[n]]
  {
  }

  /** A segment record, loaded as a record, sets the upper bits to its prefix times 16 and changes nothing else. */
  lemma SegmentRecordLoads(t: Session, window: Range, index: nat, q: u16)
    ensures LoadRecord(t, window, index, SegmentRecord(q)) == t.(high := q as int * 16)
  {
    var r := SegmentRecord(q);
    assert r.data[0] as int * 256 + r.data[1] == q;
  }

  /**
   * Loading data records with segment records written by the per-record
   * rule, from a session whose upper bits match the prefix written last,
   * stores every record under its own prefix, and adds no error and no
   * warning; the upper bits end as those of the last prefix.
   */
  lemma {:induction false} SegmentedLoads(s: Session, window: Range, ps: seq<u16>, rs: seq<Record>, prefix: u16)
    requires |ps| == |rs| && StoresInside(ps, rs, window) && s.high == prefix as int * 16
    ensures var t := LoadRecords(s, window, Segmented(ps, rs, prefix));
      t.binary == s.binary + Stored(ps, rs) && t.errors == s.errors && t.warnings == s.warnings
      && t.high == LastPrefix(ps, prefix) as int * 16
    decreases |rs|
  {
    if rs == [] {
      assert Segmented(ps, rs, prefix) == [];
      assert s.binary + [] == s.binary;
    } else {
      var n := |rs| - 1;
      StoresInsidePrefix(ps, rs, window, n);
      SegmentedLoads(s, window, ps[..n], rs[..n], prefix);
      SegmentedStep(s, window, ps, rs, prefix);
      StoredSnoc(ps, rs);
      assert s.binary + Stored(ps, rs) == (s.binary + Stored(ps[..n], rs[..n])) + [StoredChunk(ps[n], rs[n])];
    }
  }

  /** The records before n lie inside the window when all of them do. */
  lemma StoresInsidePrefix(ps: seq<u16>, rs: seq<Record>, window: Range, n: nat)
    requires |ps| == |rs| && StoresInside(ps, rs, window) && n <= |rs|
    ensures StoresInside(ps[..n], rs[..n], window)
  {
    forall k | 0 <= k < n ensures rs[..n][k] == rs[k] && ps[..n][k] == ps[k] {
    }
  }

  /**
   * The intended output of a non-empty chunk below 1 MiB, loaded inside the
   * window from a session whose upper bits match the prefix written last,
   * gives back the chunk, whichever 64 KiB boundaries it crosses: record j
   * is stored at offset + 16 j, the records together carry the chunk's
   * bytes in order, and no error or warning is added.
   */
  lemma IntendedChunkRoundTrip(s: Session, window: Range, c: Chunk, prefix: u16)
    requires c.offset + |c.data| <= 0x10_0000 && |c.data| > 0
    requires window.minimum <= c.offset && c.offset + |c.data| - 1 <= window.maximum
    requires s.high == prefix as int * 16
    ensures var lines := LinesOf(IntendedRecords(c, prefix));
      NonEmptyLines(lines)
      && var t := InterpretLines(s, window, lines);
      t.binary == s.binary + Placed(c) && t.errors == s.errors && t.warnings == s.warnings
      && Payload(ChunkRecords(c)) == c.data
  {
    var ps := IntendedPrefixes(c);
    var rs := ChunkRecords(c);
    IntendedRecordsStored(c, window);
    SegmentedWritten(ps, rs, prefix);
    LoadWrittenRecords(s, window, Segmented(ps, rs, prefix));
    SegmentedLoads(s, window, ps, rs, prefix);
    ChunkRecordsCover(c);
  }

  /** Under the intended prefixes, every record of the chunk lies inside the window and is stored where it belongs. */
  lemma IntendedRecordsStored(c: Chunk, window: Range)
    requires c.offset + |c.data| <= 0x10_0000 && |c.data| > 0
    requires window.minimum <= c.offset && c.offset + |c.data| - 1 <= window.maximum
    ensures StoresInside(IntendedPrefixes(c), ChunkRecords(c), window)
    ensures Stored(IntendedPrefixes(c), ChunkRecords(c)) == Placed(c)
    ensures forall k :: 0 <= k < |ChunkRecords(c)| ==> ChunkRecords(c)[k].recordType == DATA && ChunkRecords(c)[k].byteCount == |ChunkRecords(c)[k].data|
  {
    var ps := IntendedPrefixes(c);
    var rs := ChunkRecords(c);
    forall k | 0 <= k < |rs|
      ensures rs[k].recordType == DATA && rs[k].byteCount == |rs[k].data| > 0
      ensures ps[k] as int * 16 + rs[k].address == c.offset + 16 * k && 16 * k + |rs[k].data| <= |c.data|
      ensures Stored(ps, rs)[k] == Placed(c)[k]
    {
      RecordInSegment(c, k);
      StoredAt(ps, rs, k);
    }
  }
}
