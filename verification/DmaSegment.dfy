/**
 Assembling a contiguous DMA segment from unordered blocks of equal size.

 The blocks are the entries of an array of addresses; while a segment is being assembled, the two low
 bits of an entry hold its tag: untagged, discarded, part of the largest segment, or part of the
 current segment.
 */
module DmaSegment {
  import opened Arithmetic

  // ---- Tags in the low address bits ----

  const UNTAGGED := 0
  const DISCARDED := 1
  const MATCHED := 2
  const CURRENT := 3

  /** An unsigned long. */
  const WORD := 0x1_0000_0000_0000_0000

  type BlockSize = Positive

  function Tag(x: nat): nat { x % 4 }
  function Base(x: nat): nat { x - x % 4 }          // x & ~3
  function Or3(x: nat): nat { Base(x) + 3 }         // x | 3
  function Xor3(x: nat): nat { Base(x) + (3 - Tag(x)) }
  function ClearBit0(x: nat): nat { x - x % 2 }     // x & ~1
  function ClearBit1(x: nat): nat { if Tag(x) >= 2 then x - 2 else x }

  /** Subtraction of unsigned longs. */
  function WordMinus(x: nat, y: nat): nat { (x - y) % WORD }

  lemma TagOf(q: nat, c: nat)
    requires c < 4
    ensures Tag(4 * q + c) == c && Base(4 * q + c) == 4 * q
  {
  }

  lemma TagLaws(x: nat)
    ensures Base(x) + Tag(x) == x
    ensures Tag(Base(x)) == UNTAGGED && Base(Base(x)) == Base(x)
    ensures Tag(Or3(x)) == CURRENT && Base(Or3(x)) == Base(x)
    ensures Tag(x) == CURRENT ==> Tag(ClearBit0(x)) == MATCHED && Base(ClearBit0(x)) == Base(x)
    ensures Tag(x) == CURRENT ==> Tag(ClearBit1(x)) == DISCARDED && Base(ClearBit1(x)) == Base(x)
    ensures Tag(x) == MATCHED ==> Tag(Xor3(x)) == DISCARDED && Base(Xor3(x)) == Base(x)
  {
    var q := x / 4;
    assert x == 4 * q + Tag(x);
    TagOf(q, 0);
    TagOf(q, 1);
    TagOf(q, 2);
    TagOf(q, 3);
    assert Tag(x) == CURRENT ==> x % 2 == 1;
  }

  // ---- Spans of adjacent blocks ----

  /** `x` is the address of one of the blocks that make up [begin, end). */
  predicate InSpan(x: int, begin: int, end: int, size: BlockSize)
  {
    begin <= x < end && (x - begin) % size == 0
  }

  predicate HasBlock(bases: seq<nat>, x: int) {
    exists k :: 0 <= k < |bases| && bases[k] == x
  }

  /** All blocks of [begin, end) are there. */
  ghost predicate IsRun(bases: seq<nat>, begin: int, end: int, size: BlockSize)
  {
    begin < end && (end - begin) % size == 0 && forall x :: InSpan(x, begin, end, size) ==> HasBlock(bases, x)
  }

  /** [lo, hi) holds `x`, is not longer than `bound`, and no block lies directly below or above it. */
  predicate Bounds(bases: seq<nat>, x: int, lo: int, hi: int, bound: int, size: BlockSize)
  {
    && InSpan(x, lo, hi, size) && (hi - lo) % size == 0 && hi - lo <= bound
    && !HasBlock(bases, lo - size) && !HasBlock(bases, hi)
  }

  /** No run that holds `x` is longer than `bound`. */
  ghost predicate Covered(bases: seq<nat>, x: int, bound: int, size: BlockSize)
  {
    exists lo, hi :: Bounds(bases, x, lo, hi, bound, size)
  }

  lemma CoveredMore(bases: seq<nat>, x: int, bound: int, bound': int, size: BlockSize)
    requires Covered(bases, x, bound, size) && bound <= bound'
    ensures Covered(bases, x, bound', size)
  {
    var lo, hi :| Bounds(bases, x, lo, hi, bound, size);
    assert Bounds(bases, x, lo, hi, bound', size);
  }

  /** A run that shares a block with a bounded span lies inside it. */
  lemma RunInside(bases: seq<nat>, x: int, lo: int, hi: int, bound: int, begin: int, end: int, size: BlockSize)
    requires Bounds(bases, x, lo, hi, bound, size)
    requires IsRun(bases, begin, end, size) && InSpan(x, begin, end, size)
    ensures lo <= begin && end <= hi
  {
    ModLaws(x - begin, x - lo, size);
    ModLaws(hi - lo, x - lo, size);
    ModLaws(lo - begin, 0, size);
    ModLaws(lo - begin, size, size);
    assert begin < lo ==> InSpan(lo - size, begin, end, size);
    ModLaws(hi - lo, lo - begin, size);
    assert hi - begin == (hi - lo) + (lo - begin);
    assert end > hi ==> InSpan(hi, begin, end, size);
  }

  /** If every block is covered by `bound`, no run is longer. */
  lemma RunsBounded(bases: seq<nat>, begin: int, end: int, bound: int, size: BlockSize)
    requires IsRun(bases, begin, end, size)
    requires forall k :: 0 <= k < |bases| ==> Covered(bases, bases[k], bound, size)
    ensures end - begin <= bound
  {
    assert InSpan(begin, begin, end, size);
    assert HasBlock(bases, begin);
    var k :| 0 <= k < |bases| && bases[k] == begin;
    var lo, hi :| Bounds(bases, begin, lo, hi, bound, size);
    RunInside(bases, begin, lo, hi, bound, begin, end, size);
  }

  /** The blocks with tag `tag` among the entries `s` are exactly those of [begin, end). */
  ghost predicate Tiles(s: seq<nat>, tag: nat, begin: int, end: int, size: BlockSize)
  {
    && begin < end && (end - begin) % size == 0
    && (forall k :: 0 <= k < |s| && Tag(s[k]) == tag ==> InSpan(Base(s[k]), begin, end, size))
    && (forall x :: InSpan(x, begin, end, size) ==> HasTagged(s, tag, x))
  }

  predicate HasTagged(s: seq<nat>, tag: nat, x: int) {
    exists k :: 0 <= k < |s| && Tag(s[k]) == tag && Base(s[k]) == x
  }

  ghost predicate SameBases(s: seq<nat>, bases: seq<nat>) {
    |s| == |bases| && forall k :: 0 <= k < |s| ==> Base(s[k]) == bases[k]
  }

  lemma TilesAreRun(s: seq<nat>, bases: seq<nat>, tag: nat, begin: int, end: int, size: BlockSize)
    requires SameBases(s, bases) && Tiles(s, tag, begin, end, size)
    ensures IsRun(bases, begin, end, size)
  {
  }

  /** Adding a block directly below or above keeps the span tiled. */
  lemma ExtendTiles(s: seq<nat>, j: nat, begin: int, end: int, size: BlockSize, begin': int, end': int)
    requires j < |s| && Tag(s[j]) == UNTAGGED && Tiles(s, CURRENT, begin, end, size)
    requires (begin' == begin - size == s[j] && end' == end) || (begin' == begin && end == s[j] && end' == end + size)
    ensures Tiles(s[j := Or3(s[j])], CURRENT, begin', end', size)
  {
    var t := s[j := Or3(s[j])];
    TagLaws(s[j]);
    ModLaws(end - begin, size, size);
    AddOnce(end - begin, size);
    AddOnce(0, size);
    forall k | 0 <= k < |t| && Tag(t[k]) == CURRENT
      ensures InSpan(Base(t[k]), begin', end', size)
    {
      if k != j {
        assert InSpan(Base(s[k]), begin, end, size);
        AddOnce(Base(s[k]) - begin, size);
      }
    }
    forall x | InSpan(x, begin', end', size)
      ensures HasTagged(t, CURRENT, x)
    {
      if x == s[j] {
        assert Tag(t[j]) == CURRENT && Base(t[j]) == x;
      } else {
        AddOnce(x - begin, size);
        if begin' == begin {
          ModLaws(x - begin, end - begin, size);
          ModLaws(x - end, 0, size);
        } else {
          ModLaws(x - begin', 0, size);
        }
        assert InSpan(x, begin, end, size);
        assert HasTagged(s, CURRENT, x);
        var k :| 0 <= k < |s| && Tag(s[k]) == CURRENT && Base(s[k]) == x;
        assert t[k] == s[k];
      }
    }
  }
}
