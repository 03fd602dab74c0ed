/**
 How a segment grows from one block over the addresses alone, without tags: the reference for the
 in-place search, which decides the published segment where several would do.
 */
module DmaGrowth {
  import opened Arithmetic
  import opened DmaSegment

  // ---- Growing ----

  datatype Span = Span(begin: nat, end: nat)

  function Length(p: Span): int { p.end - p.begin }

  predicate IsAdjacent(x: int, begin: int, end: int, size: BlockSize) {
    x == begin - size || x == end
  }

  /** The span after looking at the block `x`. */
  function Joined(p: Span, x: nat, size: BlockSize): Span {
    if x == p.begin - size then Span(x, p.end) else if x == p.end then Span(p.begin, p.end + size) else p
  }

  /** The span after one pass over the blocks from `j` on, which ends when the request is met. */
  function Passed(bases: seq<nat>, j: nat, req: nat, p: Span, size: BlockSize): (r: Span)
    ensures r == p || Length(r) > Length(p)
    ensures Length(p) >= req ==> r == p
    decreases |bases| - j
  {
    if j >= |bases| || Length(p) >= req then p else Passed(bases, j + 1, req, Joined(p, bases[j], size), size)
  }

  /** The span after passes over the blocks behind `i` until one finds nothing. */
  function Grown(bases: seq<nat>, i: nat, req: nat, p: Span, size: BlockSize): Span
    decreases if Length(p) < req then req - Length(p) else 0
  {
    var r := Passed(bases, i + 1, req, p, size);
    if r == p then p else Grown(bases, i, req, r, size)
  }

  /** The span that grows from block `i`. */
  function Growth(bases: seq<nat>, i: nat, req: nat, size: BlockSize): Span
    requires i < |bases|
  {
    Grown(bases, i, req, Span(bases[i], bases[i] + size), size)
  }

  // ---- Where the published segment starts to grow ----

  ghost predicate InRun(bases: seq<nat>, x: int, length: int, size: BlockSize) {
    exists begin, end :: IsRun(bases, begin, end, size) && InSpan(x, begin, end, size) && end - begin >= length
  }

  /** Block `i` is the first that lies in a run of this length. */
  ghost predicate IsFirst(bases: seq<nat>, i: nat, length: int, size: BlockSize) {
    i < |bases| && InRun(bases, bases[i], length, size) && forall k :: 0 <= k < i ==> !InRun(bases, bases[k], length, size)
  }

  lemma FirstUnique(bases: seq<nat>, i: nat, j: nat, length: int, size: BlockSize)
    requires IsFirst(bases, i, length, size) && IsFirst(bases, j, length, size)
    ensures i == j
  {
  }

  lemma CoveredNotInRun(bases: seq<nat>, x: int, bound: int, length: int, size: BlockSize)
    requires Covered(bases, x, bound, size) && bound < length
    ensures !InRun(bases, x, length, size)
  {
    var lo, hi :| Bounds(bases, x, lo, hi, bound, size);
    forall begin, end | IsRun(bases, begin, end, size) && InSpan(x, begin, end, size)
      ensures end - begin < length
    {
      RunInside(bases, x, lo, hi, bound, begin, end, size);
    }
  }

  // ---- Neighbours of a run ----

  lemma ExtendRun(bases: seq<nat>, begin: int, end: int, size: BlockSize, x: int)
    requires IsRun(bases, begin, end, size) && HasBlock(bases, x) && IsAdjacent(x, begin, end, size)
    ensures x == end ==> IsRun(bases, begin, end + size, size) && InSpan(x, begin, end + size, size)
    ensures x != end ==> IsRun(bases, x, end, size) && InSpan(x, x, end, size)
  {
    AddOnce(end - begin, size);
    forall y | InSpan(y, begin, end + size, size) && x == end
      ensures HasBlock(bases, y)
    {
      ModLaws(y - begin, end - begin, size);
      ModLaws(y - end, 0, size);
      assert y == end || InSpan(y, begin, end, size);
    }
    forall y | InSpan(y, begin - size, end, size) && x == begin - size
      ensures HasBlock(bases, y)
    {
      ModLaws(y - x, size, size);
      ModLaws(y - x, 0, size);
      assert y == x || InSpan(y, begin, end, size);
    }
  }

  /** A covered neighbour of a run covers the whole run. */
  lemma NeighbourCovers(bases: seq<nat>, begin: int, end: int, size: BlockSize, x: int, y: int, bound: int)
    requires IsRun(bases, begin, end, size) && HasBlock(bases, x) && IsAdjacent(x, begin, end, size)
    requires Covered(bases, x, bound, size) && InSpan(y, begin, end, size)
    ensures Covered(bases, y, bound, size)
  {
    var lo, hi :| Bounds(bases, x, lo, hi, bound, size);
    ExtendRun(bases, begin, end, size, x);
    AddOnce(0, size);
    if x == end {
      RunInside(bases, x, lo, hi, bound, begin, end + size, size);
      ModLaws(x - lo, end - begin, size);
    } else {
      RunInside(bases, x, lo, hi, bound, x, end, size);
      ModLaws(x - lo, size, size);
    }
    ModLaws(begin - lo, y - begin, size);
    assert Bounds(bases, y, lo, hi, bound, size);
  }

  /** Blocks that an earlier round has discarded or matched lie in runs no longer than `bound` only. */
  ghost predicate OthersCovered(s: seq<nat>, bases: seq<nat>, bound: int, size: BlockSize)
    requires SameBases(s, bases)
  {
    forall k :: 0 <= k < |s| && Tag(s[k]) in {DISCARDED, MATCHED} ==> Covered(bases, bases[k], bound, size)
  }
}
