/**
 * Reading and patching the stored binary image (HexFileParser::extract,
 * replace and insert), specified on the chunk list.
 */
module HexImageStore {
  import opened HexTypes
  import opened HexChunkCombiner

  /**
   * Chunk c holds the n bytes from address a: it starts at or below a and
   * at least n of its bytes lie at or above a. The length subtraction is
   * done on unbounded integers, so a start beyond the chunk holds nothing.
   */
  predicate Holds(c: Chunk, a: u32, n: nat)
  {
    c.offset <= a && |c.data| - (a - c.offset) >= n
  }

  /** The n bytes of a holding chunk from address a. */
  function BytesAt(c: Chunk, a: u32, n: nat): (r: seq<byte>)
    requires Holds(c, a, n)
    ensures |r| == n
    ensures forall j :: 0 <= j < n ==> r[j] == c.data[a - c.offset + j]
  {
    c.data[a - c.offset .. a - c.offset + n]
  }

  /** What extract returns: the bytes of the first chunk that holds the range, or nothing. */
  function ExtractFrom(binary: seq<Chunk>, a: u32, n: nat): seq<byte>
    decreases |binary|
  {
    if binary == [] then []
    else if Holds(binary[0], a, n) then BytesAt(binary[0], a, n)
    else ExtractFrom(binary[1..], a, n)
  }

  /** Bytes i .. i + |d| of data replaced by d. */
  function Patch(data: seq<byte>, i: nat, d: seq<byte>): (r: seq<byte>)
    requires i + |d| <= |data|
    ensures |r| == |data|
    ensures r[i .. i + |d|] == d
    ensures forall j :: 0 <= j < |data| && !(i <= j < i + |d|) ==> r[j] == data[j]
  {
    data[..i] + d + data[i + |d|..]
  }

  /** What replace leaves: every chunk that holds the range patched, the others as they were. */
  function ReplaceAll(binary: seq<Chunk>, a: u32, d: seq<byte>): (r: seq<Chunk>)
    ensures |r| == |binary|
  {
    seq(|binary|, i requires 0 <= i < |binary| => ReplaceIn(binary[i], a, d))
  }

  function ReplaceIn(c: Chunk, a: u32, d: seq<byte>): Chunk
  {
    if Holds(c, a, |d|) then Chunk(c.offset, Patch(c.data, a - c.offset, d)) else c
  }

  // ---------------------------------------------------------------- extract

  /**
   * Extract returns the bytes of the first chunk holding the range when
   * there is one, and nothing when there is none.
   */
  lemma {:induction false} ExtractFirstHolder(binary: seq<Chunk>, a: u32, n: nat, k: nat)
    requires k < |binary| && Holds(binary[k], a, n)
    requires forall j :: 0 <= j < k ==> !Holds(binary[j], a, n)
    ensures ExtractFrom(binary, a, n) == BytesAt(binary[k], a, n)
    decreases k
  {
    if k > 0 {
      assert !Holds(binary[0], a, n);
      ExtractFirstHolder(binary[1..], a, n, k - 1);
    }
  }

  lemma {:induction false} ExtractNoHolder(binary: seq<Chunk>, a: u32, n: nat)
    requires forall j :: 0 <= j < |binary| ==> !Holds(binary[j], a, n)
    ensures ExtractFrom(binary, a, n) == []
    decreases |binary|
  {
    if binary != [] {
      assert !Holds(binary[0], a, n);
      ExtractNoHolder(binary[1..], a, n);
    }
  }

  /** A non-empty extract has exactly the requested length and comes from some holding chunk. */
  lemma {:induction false} ExtractLength(binary: seq<Chunk>, a: u32, n: nat)
    ensures var r := ExtractFrom(binary, a, n);
      r == [] || (|r| == n && exists k :: 0 <= k < |binary| && Holds(binary[k], a, n) && r == BytesAt(binary[k], a, n))
    decreases |binary|
  {
    if binary != [] && !Holds(binary[0], a, n) {
      ExtractLength(binary[1..], a, n);
      var r := ExtractFrom(binary, a, n);
      if r != [] {
        var k :| 0 <= k < |binary[1..]| && Holds(binary[1..][k], a, n) && r == BytesAt(binary[1..][k], a, n);
        assert binary[k + 1] == binary[1..][k];
      }
    }
  }

  // ---------------------------------------------------------------- replace

  /** Replace keeps every offset and every length, so it never changes which chunks hold a range. */
  lemma ReplaceKeepsShape(binary: seq<Chunk>, a: u32, d: seq<byte>)
    ensures var r := ReplaceAll(binary, a, d);
      forall i :: 0 <= i < |binary| ==> r[i].offset == binary[i].offset && |r[i].data| == |binary[i].data|
  {
  }

  /**
   * After a replace, every chunk that holds the range reads back d there;
   * every byte outside the patched range is unchanged, and chunks that do
   * not hold the range are unchanged.
   */
  lemma ReplaceEffect(binary: seq<Chunk>, a: u32, d: seq<byte>, i: nat)
    requires i < |binary|
    ensures var c := binary[i];
      var r := ReplaceAll(binary, a, d)[i];
      (Holds(c, a, |d|) ==>
        Holds(r, a, |d|) && BytesAt(r, a, |d|) == d
        && (forall j :: 0 <= j < |c.data| && !(a - c.offset <= j < a - c.offset + |d|) ==> r.data[j] == c.data[j]))
      && (!Holds(c, a, |d|) ==> r == c)
  {
  }

  /** Replacing with a range no chunk holds is a no-op (the silent case). */
  lemma ReplaceNoHolder(binary: seq<Chunk>, a: u32, d: seq<byte>)
    requires forall j :: 0 <= j < |binary| ==> !Holds(binary[j], a, |d|)
    ensures ReplaceAll(binary, a, d) == binary
  {
  }

  /** Replacing twice with the same bytes is the same as replacing once. */
  lemma ReplaceIdempotent(binary: seq<Chunk>, a: u32, d: seq<byte>)
    ensures ReplaceAll(ReplaceAll(binary, a, d), a, d) == ReplaceAll(binary, a, d)
  {
    var r := ReplaceAll(binary, a, d);
    forall i | 0 <= i < |binary| ensures ReplaceIn(r[i], a, d) == r[i] {
      ReplaceInIdempotent(binary[i], a, d);
    }
  }

  lemma ReplaceInIdempotent(c: Chunk, a: u32, d: seq<byte>)
    ensures ReplaceIn(ReplaceIn(c, a, d), a, d) == ReplaceIn(c, a, d)
  {
    if Holds(c, a, |d|) {
      var k := a - c.offset;
      var p := Patch(c.data, k, d);
      assert Patch(p, k, d) == p;
    }
  }

  /** Extract after replace reads back what was written, whenever some chunk holds the range. */
  lemma ReplaceThenExtract(binary: seq<Chunk>, a: u32, d: seq<byte>, k: nat)
    requires k < |binary| && Holds(binary[k], a, |d|)
    ensures ExtractFrom(ReplaceAll(binary, a, d), a, |d|) == d
  {
    var r := ReplaceAll(binary, a, d);
    var m := FirstHolding(r, a, |d|, k);
    ReplaceEffect(binary, a, d, m);
    ExtractFirstHolder(r, a, |d|, m);
  }

  /** The index of the first chunk holding a range, given that chunk k holds it. */
  lemma FirstHolding(binary: seq<Chunk>, a: u32, n: nat, k: nat) returns (m: nat)
    requires k < |binary| && Holds(binary[k], a, n)
    ensures m <= k && Holds(binary[m], a, n)
    ensures forall j :: 0 <= j < m ==> !Holds(binary[j], a, n)
  {
    m := 0;
    while !Holds(binary[m], a, n)
      invariant m <= k
      invariant forall j :: 0 <= j < m ==> !Holds(binary[j], a, n)
      decreases k - m
    {
      m := m + 1;
    }
  }

  // ---------------------------------------------------------------- insert

  /**
   * Insert appends and sorts by offset with an unstable sort: any ordering
   * of the same chunks that is sorted by offset is a possible result. When
   * the offsets are distinct that result is unique.
   */
  predicate InsertResult(old_binary: seq<Chunk>, c: Chunk, r: seq<Chunk>)
  {
    SortedByOffset(r) && multiset(r) == multiset(old_binary) + multiset{c}
  }

  lemma InsertDeterminedByOffsets(old_binary: seq<Chunk>, c: Chunk, r1: seq<Chunk>, r2: seq<Chunk>)
    requires InsertResult(old_binary, c, r1) && InsertResult(old_binary, c, r2)
    requires DistinctOffsets(r1)
    ensures r1 == r2
  {
    SortedUnique(r1, r2);
  }
}
