/**
 * The merge pass of the Intel HEX engine: fragments sorted by address are
 * joined into chunks, small gaps are filled, and every chunk is padded to the
 * address alignment (HexFileParser::_combineBinaryChunks and
 * HexFileParser::_fixChunkAddressAlignment).
 */
module HexChunkCombiner {
  import opened HexTypes

  /** The merge settings: the largest gap that is filled, the alignment and the fill byte. */
  datatype MergeConfig = MergeConfig(gap: u32, align: u32, fill: byte)

  // ---------------------------------------------------------------- alignment

  /**
   * HexFileParser::_fixChunkAddressAlignment: move the start down to a
   * multiple of align, prepending fill bytes, then, if the ORIGINAL offset
   * plus the new length (modulo 2^32) is not a multiple of align, append
   * align - (length % align) fill bytes.
   */
  function AlignChunk(offset: u32, data: seq<byte>, align: u32, fill: byte): Chunk
    requires align > 0
  {
    RemainderBounds(offset, align);
    var lead := offset % align;
    var padded := Fill(lead, fill) + data;
    RemainderBounds(|padded|, align);
    var tail := if Wrap32(offset + |padded|) % align != 0 then align - |padded| % align else 0;
    Chunk(offset - lead, padded + Fill(tail, fill))
  }

  lemma RemainderBounds(x: nat, m: nat)
    requires m > 0
    ensures 0 <= x % m < m && x % m <= x
  {
  }

  /**
   * The aligned chunk starts at offset - offset % align, a multiple of
   * align, with exactly offset % align fill bytes, then the original bytes
   * unchanged, then fill bytes only, fewer than align + 1 of them.
   */
  lemma AlignChunkLayout(offset: u32, data: seq<byte>, align: u32, fill: byte)
    requires align > 0
    ensures
      var c := AlignChunk(offset, data, align, fill);
      var lead := offset % align;
      c.offset == offset - lead && c.offset % align == 0
      && |c.data| >= lead + |data| && |c.data| - (lead + |data|) <= align
      && c.data[..lead] == Fill(lead, fill)
      && c.data[lead..lead + |data|] == data
      && (forall i :: lead + |data| <= i < |c.data| ==> c.data[i] == fill)
  {
    AlignedStart(offset, align);
    AlignedData(offset, data, align, fill);
  }

  /** The aligned start is a multiple of align. */
  lemma AlignedStart(offset: u32, align: u32)
    requires align > 0
    ensures (offset - offset % align) % align == 0
  {
    assert offset - offset % align == align * (offset / align);
    MultipleMod(align, offset / align);
  }

  lemma AlignedData(offset: u32, data: seq<byte>, align: u32, fill: byte)
    requires align > 0
    ensures
      var c := AlignChunk(offset, data, align, fill);
      var lead := offset % align;
      c.offset == offset - lead
      && |c.data| >= lead + |data| && |c.data| - (lead + |data|) <= align
      && c.data[..lead] == Fill(lead, fill)
      && c.data[lead..lead + |data|] == data
      && (forall i :: lead + |data| <= i < |c.data| ==> c.data[i] == fill)
  {
    var lead := offset % align;
    var padded := Fill(lead, fill) + data;
    var tail := if Wrap32(offset + |padded|) % align != 0 then align - |padded| % align else 0;
    var out := padded + Fill(tail, fill);
    assert AlignChunk(offset, data, align, fill).data == out;
    assert out[..lead] == Fill(lead, fill);
    assert out[lead..lead + |data|] == data;
  }

  /** With an aligned start and no wrap-around at the end, the length is padded up to the next multiple of align. */
  lemma AlignedStartPadsLength(offset: u32, data: seq<byte>, align: u32, fill: byte)
    requires align > 0 && offset % align == 0 && offset + |data| < TWO_32
    ensures
      var c := AlignChunk(offset, data, align, fill);
      c.offset == offset && |c.data| % align == 0 && |data| <= |c.data| < |data| + align
      && c.data[..|data|] == data
  {
    var c := AlignChunk(offset, data, align, fill);
    assert Fill(0, fill) + data == data;
    var q := offset / align;
    assert offset == align * q;
    var r := |data| % align;
    assert |data| == align * (|data| / align) + r;
    assert (offset + |data|) == align * (q + |data| / align) + r;
    ModOfMultiplePlus(align, q + |data| / align, r);
    if r != 0 {
      assert |c.data| == align * (|data| / align + 1);
      MultipleMod(align, |data| / align + 1);
    } else {
      assert |c.data| == align * (|data| / align);
      MultipleMod(align, |data| / align);
    }
  }

  lemma MultipleMod(a: int, q: int)
    requires a > 0
    ensures (a * q) % a == 0
  {
    ModOfMultiplePlus(a, q, 0);
  }

  /** Alignment 1 changes nothing. */
  lemma AlignOneIsIdentity(offset: u32, data: seq<byte>, fill: byte)
    ensures AlignChunk(offset, data, 1, fill) == Chunk(offset, data)
  {
    assert Fill(0, fill) + data == data;
    assert data + Fill(0, fill) == data;
  }

  /**
   * The chunk at 0x10064 of 32 bytes, aligned to 16: four fill bytes in
   * front, start 0x10060, and twelve fill bytes after (the end test uses
   * 0x10064 + 36).
   */
  lemma AlignExample(data: seq<byte>, fill: byte)
    requires |data| == 32
    ensures AlignChunk(0x10064, data, 16, fill) == Chunk(0x10060, Fill(4, fill) + data + Fill(12, fill))
  {
  }

  /**
   * The end test uses the unaligned offset: 2 bytes at 1 with alignment 4
   * become 1 fill byte, the 2 bytes, and 1 more fill byte, but here the end
   * test at 1 + 3 = 4 passes, so the result is 3 bytes long and ends
   * unaligned.
   */
  lemma AlignEndsUnaligned(a: byte, b: byte, fill: byte)
    ensures AlignChunk(1, [a, b], 4, fill) == Chunk(0, [fill, a, b])
  {
    assert Fill(1, fill) + [a, b] == [fill, a, b];
    assert [fill, a, b] + Fill(0, fill) == [fill, a, b];
  }

  /** And it can gain a whole extra block: 3 bytes at 1 with alignment 4 become 8 bytes. */
  lemma AlignGainsBlock(a: byte, b: byte, c: byte, fill: byte)
    ensures AlignChunk(1, [a, b, c], 4, fill) == Chunk(0, [fill, a, b, c, fill, fill, fill, fill])
  {
    assert Fill(1, fill) + [a, b, c] == [fill, a, b, c];
    assert [fill, a, b, c] + Fill(4, fill) == [fill, a, b, c, fill, fill, fill, fill];
  }

  // ---------------------------------------------------------------- sorting

  predicate SortedByOffset(s: seq<Chunk>)
  {
    forall i, j :: 0 <= i < j < |s| ==> s[i].offset <= s[j].offset
  }

  /** c put in front of the first chunk with an offset not below its own. */
  function InsertByOffset(c: Chunk, s: seq<Chunk>): (r: seq<Chunk>)
    requires SortedByOffset(s)
    ensures |r| == |s| + 1 && SortedByOffset(r)
    ensures forall j :: 0 <= j < |r| ==> r[j] == c || r[j] in s
    ensures multiset(r) == multiset(s) + multiset{c}
    decreases |s|
  {
    if s == [] then [c]
    else if c.offset <= s[0].offset then
      SortedCons(c, s);
      [c] + s
    else
      var rest := InsertByOffset(c, s[1..]);
      InsertBehind(c, s, rest);
      [s[0]] + rest
  }

  /** Putting the smallest chunk in front of a sorted insertion into the tail. */
  lemma InsertBehind(c: Chunk, s: seq<Chunk>, rest: seq<Chunk>)
    requires SortedByOffset(s) && |s| > 0 && s[0].offset < c.offset
    requires |rest| == |s| && SortedByOffset(rest)
    requires forall j :: 0 <= j < |rest| ==> rest[j] == c || rest[j] in s[1..]
    requires multiset(rest) == multiset(s[1..]) + multiset{c}
    ensures var r := [s[0]] + rest;
      |r| == |s| + 1 && SortedByOffset(r)
      && (forall j :: 0 <= j < |r| ==> r[j] == c || r[j] in s)
      && multiset(r) == multiset(s) + multiset{c}
  {
    assert s == [s[0]] + s[1..];
    InsertBound(c, s, rest);
    SortedCons(s[0], rest);
    var r := [s[0]] + rest;
    forall j | 0 <= j < |r| ensures r[j] == c || r[j] in s {
      if j > 0 {
        assert r[j] == rest[j - 1];
      }
    }
  }

  lemma InsertBound(c: Chunk, s: seq<Chunk>, rest: seq<Chunk>)
    requires SortedByOffset(s) && |s| > 0 && s[0].offset < c.offset
    requires forall j :: 0 <= j < |rest| ==> rest[j] == c || rest[j] in s[1..]
    ensures forall j :: 0 <= j < |rest| ==> s[0].offset <= rest[j].offset
    ensures forall j :: 0 <= j < |rest| ==> rest[j] == c || rest[j] in s
  {
    forall j | 0 <= j < |rest| ensures s[0].offset <= rest[j].offset && (rest[j] == c || rest[j] in s) {
      if rest[j] != c {
        var k :| 0 <= k < |s[1..]| && s[1..][k] == rest[j];
        assert s[k + 1] == rest[j];
      }
    }
  }

  lemma SortedCons(x: Chunk, t: seq<Chunk>)
    requires SortedByOffset(t) && forall j :: 0 <= j < |t| ==> x.offset <= t[j].offset
    ensures SortedByOffset([x] + t)
  {
    var r := [x] + t;
    forall i, j | 0 <= i < j < |r| ensures r[i].offset <= r[j].offset {
      assert r[j] == t[j - 1];
      if i > 0 {
        assert r[i] == t[i - 1];
      }
    }
  }

  /** The chunks ordered by offset (std::sort with the offset comparison; see SortedUnique for why the order is determined). */
  function SortByOffset(s: seq<Chunk>): (r: seq<Chunk>)
    ensures SortedByOffset(r) && multiset(r) == multiset(s) && |r| == |s|
    decreases |s|
  {
    if s == [] then []
    else
      assert s == [s[0]] + s[1..];
      InsertByOffset(s[0], SortByOffset(s[1..]))
  }

  predicate DistinctOffsets(s: seq<Chunk>)
  {
    forall i, j :: 0 <= i < j < |s| ==> s[i].offset != s[j].offset
  }

  /**
   * Two orderings by offset of the same chunks with pairwise different
   * offsets are the same list, so any correct sort gives SortByOffset's
   * result.
   */
  lemma {:induction false} SortedUnique(a: seq<Chunk>, b: seq<Chunk>)
    requires SortedByOffset(a) && SortedByOffset(b) && multiset(a) == multiset(b) && DistinctOffsets(a)
    ensures a == b
    decreases |a|
  {
    assert |a| == |multiset(a)| == |b|;
    if |a| > 0 {
      SortedSameHead(a, b);
      assert a == [a[0]] + a[1..];
      assert b == [b[0]] + b[1..];
      assert multiset(a[1..]) == multiset(a) - multiset{a[0]};
      assert multiset(b[1..]) == multiset(b) - multiset{b[0]};
      assert DistinctOffsets(a[1..]);
      SortedUnique(a[1..], b[1..]);
    }
  }

  lemma SortedSameHead(a: seq<Chunk>, b: seq<Chunk>)
    requires SortedByOffset(a) && SortedByOffset(b) && multiset(a) == multiset(b) && DistinctOffsets(a)
    requires |a| > 0 && |b| > 0
    ensures a[0] == b[0]
  {
    assert a[0] in multiset(b);
    assert b[0] in multiset(a);
    var i :| 0 <= i < |b| && b[i] == a[0];
    var j :| 0 <= j < |a| && a[j] == b[0];
    assert b[0].offset <= a[0].offset;
  }

  // ---------------------------------------------------------------- merging, as the loop does it

  /** The marker the C++ implementation keeps in chunkOffset while no chunk is open. */
  const NO_CHUNK: u32 := 0xFFFF_FFFF

  /** The loop variables of the merge: the finished chunks, the open chunk's bytes and start, and the next expected address. */
  datatype Merger = Merger(combined: seq<Chunk>, nextData: seq<byte>, chunkOffset: u32, nextOffset: u32)

  /** The first half of a merge pass: the gap test, before a new chunk is opened. */
  function MergeAdvance(m: Merger, f: Chunk, cfg: MergeConfig): Merger
    requires cfg.align > 0
  {
    if m.nextOffset != f.offset then
      if f.offset <= Wrap32(m.nextOffset + cfg.gap) then
        var g := Wrap32(f.offset - m.nextOffset);
        m.(nextData := m.nextData + Fill(g, cfg.fill), nextOffset := Wrap32(m.nextOffset + g + |f.data|))
      else
        m.(combined := if |m.nextData| > 0 then m.combined + [AlignChunk(m.chunkOffset, m.nextData, cfg.align, cfg.fill)] else m.combined,
           nextData := [], chunkOffset := NO_CHUNK)
    else m.(nextOffset := Wrap32(f.offset + |f.data|))
  }

  /** The second half: open a chunk at f if none is open, then append f's bytes. */
  function MergeOpen(m: Merger, f: Chunk): Merger
  {
    var m2 := if m.chunkOffset == NO_CHUNK then m.(nextOffset := Wrap32(f.offset + |f.data|), chunkOffset := f.offset) else m;
    m2.(nextData := m2.nextData + f.data)
  }

  /** One pass of the merge loop's body for fragment f, branch for branch, with uint32 arithmetic. */
  function MergeStep(m: Merger, f: Chunk, cfg: MergeConfig): Merger
    requires cfg.align > 0
  {
    MergeOpen(MergeAdvance(m, f, cfg), f)
  }

  /** The loop variables before the first pass. */
  function MergeStart(first: Chunk): Merger
  {
    Merger([], [], NO_CHUNK, first.offset)
  }

  /** The loop variables after the passes for the fragments s, starting from m. */
  function MergeFold(m: Merger, s: seq<Chunk>, cfg: MergeConfig): Merger
    requires cfg.align > 0
    decreases |s|
  {
    if s == [] then m else MergeStep(MergeFold(m, s[..|s| - 1], cfg), s[|s| - 1], cfg)
  }

  /** The fragments, already sorted, merged: the loop, then the unconditional push of the open chunk. */
  function Merge(s: seq<Chunk>, cfg: MergeConfig): seq<Chunk>
    requires |s| > 0 && cfg.align > 0
  {
    var m := MergeFold(MergeStart(s[0]), s, cfg);
    m.combined + [AlignChunk(m.chunkOffset, m.nextData, cfg.align, cfg.fill)]
  }

  /**
   * A run whose only fragment is empty is dropped when a gap closes it: the
   * empty fragment at 100 between [1] at 0 and [2] at 200 leaves no chunk.
   */
  lemma MergeDropsEmptyRun(x: byte, y: byte)
    ensures Merge([Chunk(0, [x]), Chunk(100, []), Chunk(200, [y])], MergeConfig(16, 1, 0xFF))
         == [Chunk(0, [x]), Chunk(200, [y])]
  {
    var cfg := MergeConfig(16, 1, 0xFF);
    var s := [Chunk(0, [x]), Chunk(100, []), Chunk(200, [y])];
    var m0 := MergeStart(s[0]);
    assert s[..1] == [s[0]] && s[..2] == [s[0], s[1]];
    assert [s[0]][..0] == [] && [s[0], s[1]][..1] == [s[0]] && s[..3] == s;
    var m1 := MergeStep(m0, s[0], cfg);
    assert m1 == Merger([], [x], 0, 1);
    assert MergeFold(m0, s[..1], cfg) == m1;
    var m2 := MergeStep(m1, s[1], cfg);
    AlignOneIsIdentity(0, [x], 0xFF);
    assert m2 == Merger([Chunk(0, [x])], [], 100, 100);
    assert MergeFold(m0, s[..2], cfg) == m2;
    var m3 := MergeStep(m2, s[2], cfg);
    assert m3 == Merger([Chunk(0, [x])], [y], 200, 201);
    assert MergeFold(m0, s, cfg) == m3;
    AlignOneIsIdentity(200, [y], 0xFF);
  }

  /**
   * Overlapping fragments make the uint32 gap wrap around: [z] at 1 after
   * [x, y] at 0 passes the gap test (1 <= 2 + 16), and the gap 1 - 2 is
   * 0xFFFF_FFFF in uint32, so that many fill bytes are appended before z.
   */
  lemma MergeOverlapWraps(x: byte, y: byte, z: byte)
    ensures Merge([Chunk(0, [x, y]), Chunk(1, [z])], MergeConfig(16, 1, 0xFF))
         == [Chunk(0, [x, y] + Fill(0xFFFF_FFFF, 0xFF) + [z])]
  {
    var cfg := MergeConfig(16, 1, 0xFF);
    var s := [Chunk(0, [x, y]), Chunk(1, [z])];
    var m0 := MergeStart(s[0]);
    assert s[..1] == [s[0]] && [s[0]][..0] == [] && s[..2] == s;
    var m1 := MergeStep(m0, s[0], cfg);
    assert m1 == Merger([], [x, y], 0, 2);
    assert MergeFold(m0, s[..1], cfg) == m1;
    var m2 := MergeStep(m1, s[1], cfg);
    assert m2 == Merger([], [x, y] + Fill(0xFFFF_FFFF, 0xFF) + [z], 0, 2);
    assert MergeFold(m0, s, cfg) == m2;
    AlignOneIsIdentity(0, [x, y] + Fill(0xFFFF_FFFF, 0xFF) + [z], 0xFF);
  }

  // ---------------------------------------------------------------- merging, as intended

  /** Each fragment starts at or after the end of the one before it. */
  predicate Separated(s: seq<Chunk>)
  {
    forall i :: 0 <= i < |s| - 1 ==> End(s[i]) <= s[i + 1].offset
  }

  /**
   * Fragment b continues the chunk that a ends: it starts exactly at a's
   * end, or after a gap of at most gap bytes that does not make the
   * C++ implementation's uint32 sum nextOffset + gap wrap around.
   */
  predicate Joins(a: Chunk, b: Chunk, gap: u32)
  {
    b.offset == End(a) || (End(a) < b.offset && b.offset - End(a) <= gap && End(a) + gap < TWO_32)
  }

  /**
   * The chunks before alignment, built fragment by fragment: a joining
   * fragment is appended to the last chunk after exactly (gap) fill bytes,
   * any other one opens a new chunk.
   */
  function Layout(s: seq<Chunk>, cfg: MergeConfig): (r: seq<Chunk>)
    requires |s| > 0 && Separated(s)
    ensures |r| > 0
    decreases |s|
  {
    if |s| == 1 then [s[0]]
    else
      var p := s[..|s| - 1];
      assert Separated(p) by {
        assert forall i :: 0 <= i < |p| ==> p[i] == s[i];
      }
      var l := Layout(p, cfg);
      var a := s[|s| - 2];
      var f := s[|s| - 1];
      if Joins(a, f, cfg.gap) then
        l[..|l| - 1] + [Chunk(l[|l| - 1].offset, l[|l| - 1].data + Fill(f.offset - End(a), cfg.fill) + f.data)]
      else l + [f]
  }

  /** The number of places where a fragment does not join the one before it. */
  function Breaks(s: seq<Chunk>, gap: u32): nat
    decreases |s|
  {
    if |s| <= 1 then 0
    else Breaks(s[..|s| - 1], gap) + (if Joins(s[|s| - 2], s[|s| - 1], gap) then 0 else 1)
  }

  /** Every chunk aligned. */
  function AlignAll(l: seq<Chunk>, cfg: MergeConfig): (r: seq<Chunk>)
    requires cfg.align > 0
    ensures |r| == |l|
    ensures forall i :: 0 <= i < |l| ==> r[i] == AlignChunk(l[i].offset, l[i].data, cfg.align, cfg.fill)
  {
    seq(|l|, i requires 0 <= i < |l| => AlignChunk(l[i].offset, l[i].data, cfg.align, cfg.fill))
  }

  /** What the merge theorem assumes: separated, non-empty fragments none of which reaches the top of the address space. */
  predicate Mergeable(s: seq<Chunk>)
  {
    |s| > 0 && Separated(s) && forall i :: 0 <= i < |s| ==> |s[i].data| > 0 && End(s[i]) < TWO_32
  }

  lemma MergeablePrefix(s: seq<Chunk>, n: nat)
    requires Mergeable(s) && 0 < n <= |s|
    ensures Mergeable(s[..n])
  {
    var p := s[..n];
    assert forall i :: 0 <= i < |p| ==> p[i] == s[i];
  }

  /** The last chunk of the layout ends where the last fragment ends, and starts no later than it. */
  lemma {:induction false} LayoutLast(s: seq<Chunk>, cfg: MergeConfig)
    requires |s| > 0 && Separated(s)
    ensures
      var l := Layout(s, cfg);
      var c := l[|l| - 1];
      c.offset <= s[|s| - 1].offset && c.offset + |c.data| == End(s[|s| - 1])
    decreases |s|
  {
    if |s| > 1 {
      var p := s[..|s| - 1];
      assert forall i :: 0 <= i < |p| ==> p[i] == s[i];
      LayoutLast(p, cfg);
    }
  }

  /**
   * The loop follows the layout: after the passes for a prefix, the finished
   * chunks are the aligned layout chunks but the last, which is the open one,
   * and the next expected address is the end of the last fragment.
   */
  lemma {:induction false} MergeFoldFollowsLayout(s: seq<Chunk>, cfg: MergeConfig)
    requires Mergeable(s) && cfg.align > 0
    ensures
      var m := MergeFold(MergeStart(s[0]), s, cfg);
      var l := Layout(s, cfg);
      m.combined == AlignAll(l[..|l| - 1], cfg)
      && m.nextData == l[|l| - 1].data && m.chunkOffset == l[|l| - 1].offset
      && m.nextOffset == End(s[|s| - 1])
    decreases |s|
  {
    var m0 := MergeStart(s[0]);
    if |s| == 1 {
      assert s[..0] == [];
    } else {
      var p := s[..|s| - 1];
      MergeablePrefix(s, |s| - 1);
      assert p[0] == s[0];
      MergeFoldFollowsLayout(p, cfg);
      LayoutLast(p, cfg);
      MergeStepFollows(MergeFold(m0, p, cfg), Layout(p, cfg), s[|s| - 2], s[|s| - 1], cfg);
    }
  }

  /** One pass of the loop extends the layout by one fragment. */
  lemma MergeStepFollows(m: Merger, l: seq<Chunk>, a: Chunk, f: Chunk, cfg: MergeConfig)
    requires cfg.align > 0 && |l| > 0 && End(a) <= f.offset
    requires |f.data| > 0 && End(f) < TWO_32 && End(a) < TWO_32
    requires m.combined == AlignAll(l[..|l| - 1], cfg)
    requires m.nextData == l[|l| - 1].data && m.chunkOffset == l[|l| - 1].offset && m.nextOffset == End(a)
    requires |l[|l| - 1].data| > 0 && l[|l| - 1].offset != NO_CHUNK
    ensures
      var m' := MergeStep(m, f, cfg);
      var l' := if Joins(a, f, cfg.gap)
        then l[..|l| - 1] + [Chunk(l[|l| - 1].offset, l[|l| - 1].data + Fill(f.offset - End(a), cfg.fill) + f.data)]
        else l + [f];
      m'.combined == AlignAll(l'[..|l'| - 1], cfg)
      && m'.nextData == l'[|l'| - 1].data && m'.chunkOffset == l'[|l'| - 1].offset
      && m'.nextOffset == End(f)
  {
  }

  /** The merge is the layout, every chunk aligned. */
  lemma MergeIsLayout(s: seq<Chunk>, cfg: MergeConfig)
    requires Mergeable(s) && cfg.align > 0
    ensures Merge(s, cfg) == AlignAll(Layout(s, cfg), cfg)
  {
    MergeFoldFollowsLayout(s, cfg);
    var l := Layout(s, cfg);
    AlignAllSnoc(l, cfg);
  }

  lemma AlignAllSnoc(l: seq<Chunk>, cfg: MergeConfig)
    requires |l| > 0 && cfg.align > 0
    ensures AlignAll(l, cfg) == AlignAll(l[..|l| - 1], cfg) + [AlignChunk(l[|l| - 1].offset, l[|l| - 1].data, cfg.align, cfg.fill)]
  {
  }

  /** The layout has one chunk more than there are breaks between fragments. */
  lemma {:induction false} LayoutCount(s: seq<Chunk>, cfg: MergeConfig)
    requires |s| > 0 && Separated(s)
    ensures |Layout(s, cfg)| == Breaks(s, cfg.gap) + 1
    decreases |s|
  {
    if |s| > 1 {
      var p := s[..|s| - 1];
      assert forall i :: 0 <= i < |p| ==> p[i] == s[i];
      LayoutCount(p, cfg);
    }
  }

  /**
   * Fragment k lies in layout chunk number Breaks(s[..k+1]), at index
   * (its offset - the chunk's offset), with its bytes unchanged.
   */
  predicate PlacedIn(f: Chunk, c: Chunk)
  {
    c.offset <= f.offset && f.offset - c.offset + |f.data| <= |c.data|
    && c.data[f.offset - c.offset .. f.offset - c.offset + |f.data|] == f.data
  }

  lemma {:induction false} LayoutPlaces(s: seq<Chunk>, cfg: MergeConfig, k: nat)
    requires |s| > 0 && Separated(s) && k < |s|
    ensures Breaks(s[..k + 1], cfg.gap) < |Layout(s, cfg)|
    ensures PlacedIn(s[k], Layout(s, cfg)[Breaks(s[..k + 1], cfg.gap)])
    decreases |s|
  {
    if |s| == 1 {
      assert s[..1] == s;
    } else {
      var p := s[..|s| - 1];
      assert Separated(p) by {
        assert forall i :: 0 <= i < |p| ==> p[i] == s[i];
      }
      if k == |s| - 1 {
        assert s[..k + 1] == s;
        LayoutCount(p, cfg);
        LayoutLast(p, cfg);
        PlaceLast(s, cfg);
      } else {
        assert s[..k + 1] == p[..k + 1];
        assert p[k] == s[k];
        LayoutPlaces(p, cfg, k);
        PlaceEarlier(s, cfg, Breaks(p[..k + 1], cfg.gap), s[k]);
      }
    }
  }

  /** The last fragment lands in the last layout chunk. */
  lemma PlaceLast(s: seq<Chunk>, cfg: MergeConfig)
    requires |s| > 1 && Separated(s)
    requires Separated(s[..|s| - 1])
    requires |Layout(s[..|s| - 1], cfg)| == Breaks(s[..|s| - 1], cfg.gap) + 1
    requires
      var l := Layout(s[..|s| - 1], cfg);
      l[|l| - 1].offset + |l[|l| - 1].data| == End(s[|s| - 2])
    ensures Breaks(s, cfg.gap) < |Layout(s, cfg)|
    ensures PlacedIn(s[|s| - 1], Layout(s, cfg)[Breaks(s, cfg.gap)])
  {
    var p := s[..|s| - 1];
    assert p[|p| - 1] == s[|s| - 2];
    var l := Layout(p, cfg);
    var f := s[|s| - 1];
    var a := s[|s| - 2];
    if Joins(a, f, cfg.gap) {
      var c := l[|l| - 1];
      var d := c.data + Fill(f.offset - End(a), cfg.fill) + f.data;
      assert Layout(s, cfg)[Breaks(s, cfg.gap)] == Chunk(c.offset, d);
      assert d[f.offset - c.offset .. f.offset - c.offset + |f.data|] == f.data;
    }
  }

  /** A fragment placed in an earlier layout chunk stays placed when one more fragment is added. */
  lemma PlaceEarlier(s: seq<Chunk>, cfg: MergeConfig, idx: nat, g: Chunk)
    requires |s| > 1 && Separated(s) && Separated(s[..|s| - 1])
    requires idx < |Layout(s[..|s| - 1], cfg)| && PlacedIn(g, Layout(s[..|s| - 1], cfg)[idx])
    ensures idx < |Layout(s, cfg)| && PlacedIn(g, Layout(s, cfg)[idx])
  {
    var l := Layout(s[..|s| - 1], cfg);
    var more := LayoutKeepsEarlier(s, cfg, idx);
    PlacedInExtended(g, l[idx], more);
  }

  /**
   * Adding one fragment leaves the earlier layout chunks as they were,
   * except that the last one may grow at its end.
   */
  lemma LayoutKeepsEarlier(s: seq<Chunk>, cfg: MergeConfig, idx: nat) returns (more: seq<byte>)
    requires |s| > 1 && Separated(s) && Separated(s[..|s| - 1])
    requires idx < |Layout(s[..|s| - 1], cfg)|
    ensures idx < |Layout(s, cfg)|
    ensures Layout(s, cfg)[idx] == Chunk(Layout(s[..|s| - 1], cfg)[idx].offset, Layout(s[..|s| - 1], cfg)[idx].data + more)
  {
    var p := s[..|s| - 1];
    var l := Layout(p, cfg);
    var f := s[|s| - 1];
    var a := s[|s| - 2];
    if Joins(a, f, cfg.gap) && idx == |l| - 1 {
      more := Fill(f.offset - End(a), cfg.fill) + f.data;
      assert l[idx].data + more == l[idx].data + Fill(f.offset - End(a), cfg.fill) + f.data;
    } else {
      more := [];
      assert l[idx].data + more == l[idx].data;
    }
  }

  /** Appending bytes to a chunk keeps every fragment placed in it. */
  lemma PlacedInExtended(g: Chunk, c: Chunk, more: seq<byte>)
    requires PlacedIn(g, c)
    ensures PlacedIn(g, Chunk(c.offset, c.data + more))
  {
    var i := g.offset - c.offset;
    var d := c.data + more;
    assert d[i .. i + |g.data|] == c.data[i .. i + |g.data|];
  }
}
