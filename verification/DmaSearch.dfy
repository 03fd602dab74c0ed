/**
 The outer loop of `_dal_find_largest_segment` and what it finds.
 */
module DmaSearch {
  import opened DmaSegment
  import opened DmaGrowth
  import opened DmaAssembly

  // ---- A grown segment bounds every run through it ----

  /** Every block that has left the untagged state lies in runs no longer than `bound` only. */
  ghost predicate TaggedCovered(s: seq<nat>, bases: seq<nat>, bound: int, size: BlockSize)
    requires SameBases(s, bases)
  {
    forall k :: 0 <= k < |s| && Tag(s[k]) != UNTAGGED ==> Covered(bases, bases[k], bound, size)
  }

  lemma SpanCovered(s: seq<nat>, bases: seq<nat>, begin: int, end: int, size: BlockSize, bound: int, y: int)
    requires SameBases(s, bases) && Tiles(s, CURRENT, begin, end, size)
    requires NoneAdjacent(s, -1, |s|, begin, end, size) && OthersCovered(s, bases, bound, size)
    requires InSpan(y, begin, end, size)
    ensures Covered(bases, y, if bound > end - begin then bound else end - begin, size)
  {
    var most := if bound > end - begin then bound else end - begin;
    TilesAreRun(s, bases, CURRENT, begin, end, size);
    if k :| 0 <= k < |s| && IsAdjacent(bases[k], begin, end, size) {
      TagLaws(s[k]);
      assert s[k] == bases[k] + Tag(s[k]);
      assert Tag(s[k]) != UNTAGGED;
      assert !InSpan(bases[k], begin, end, size);
      assert Tag(s[k]) in {DISCARDED, MATCHED};
      NeighbourCovers(bases, begin, end, size, bases[k], y, bound);
      CoveredMore(bases, y, bound, most, size);
    } else {
      assert Bounds(bases, y, begin, end, most, size);
    }
  }

  // ---- The state of the search ----

  /** Either nothing better than `least` was found and no block is matched, or the matched blocks are
      exactly those of the published segment. */
  ghost predicate Best(s: seq<nat>, least: nat, begin: nat, end: nat, length: nat, size: BlockSize) {
    if length > least then length == end - begin && Tiles(s, MATCHED, begin, end, size)
    else length == least && forall k :: 0 <= k < |s| ==> Tag(s[k]) != MATCHED
  }

  ghost predicate NoneTagged(s: seq<nat>, tag: nat, n: int)
    requires n <= |s|
  {
    forall k :: 0 <= k < n ==> Tag(s[k]) != tag
  }

  ghost predicate Searched(s: seq<nat>, bases: seq<nat>, i: int, req: nat, length: nat, size: BlockSize)
    requires i <= |s|
  {
    && SameBases(s, bases) && NoneTagged(s, CURRENT, |s|) && NoneTagged(s, UNTAGGED, i)
    && (length < req ==> TaggedCovered(s, bases, length, size))
  }

  // ---- Retagging keeps it ----

  /** The segment grown from entry `i`, seen from the state before. */
  ghost predicate GrewFrom(s: seq<nat>, t: seq<nat>, bases: seq<nat>, i: nat, req: nat, begin: nat, end: nat, size: BlockSize)
    requires i < |t|
  {
    && SameBases(t, bases) && Tiles(t, CURRENT, begin, end, size) && Marked(s, t) && Tag(t[i]) == CURRENT
    && (end - begin >= req || NoneAdjacent(t, -1, |t|, begin, end, size))
  }

  lemma GrownCovered(s: seq<nat>, t: seq<nat>, bases: seq<nat>, i: nat, req: nat, begin: nat, end: nat,
      length: nat, size: BlockSize, k: nat)
    requires i < |t| && |s| == |t| && Searched(s, bases, i, req, length, size) && GrewFrom(s, t, bases, i, req, begin, end, size)
    requires length < req && end - begin < req && k < |t| && Tag(t[k]) != UNTAGGED
    ensures Covered(bases, bases[k], if length > end - begin then length else end - begin, size)
  {
    var most := if length > end - begin then length else end - begin;
    TagLaws(s[k]);
    if Tag(t[k]) == CURRENT {
      OthersStayCovered(s, t, bases, length, size);
      assert InSpan(Base(t[k]), begin, end, size);
      SpanCovered(t, bases, begin, end, size, length, bases[k]);
    } else {
      CoveredMore(bases, bases[k], length, most, size);
    }
  }

  lemma OthersStayCovered(s: seq<nat>, t: seq<nat>, bases: seq<nat>, bound: nat, size: BlockSize)
    requires SameBases(s, bases) && SameBases(t, bases) && Marked(s, t) && TaggedCovered(s, bases, bound, size)
    ensures OthersCovered(t, bases, bound, size)
  {
  }

  /** `u` is `t` with its current blocks retagged as `tag`; no block becomes untagged. */
  ghost predicate Retagged(t: seq<nat>, u: seq<nat>) {
    |t| == |u| && forall k :: 0 <= k < |t| ==>
      Base(u[k]) == Base(t[k]) && Tag(u[k]) != CURRENT && (Tag(u[k]) == UNTAGGED <==> Tag(t[k]) == UNTAGGED)
  }

  lemma RetagSearched(s: seq<nat>, t: seq<nat>, u: seq<nat>, bases: seq<nat>, i: nat, req: nat, begin: nat, end: nat,
      length: nat, length': nat, size: BlockSize)
    requires i < |t| && |s| == |t| && length < req
    requires Searched(s, bases, i, req, length, size) && GrewFrom(s, t, bases, i, req, begin, end, size)
    requires Retagged(t, u) && length' == if end - begin > length then end - begin else length
    ensures Searched(u, bases, i + 1, req, length', size)
  {
    forall k | 0 <= k <= i
      ensures Tag(u[k]) != UNTAGGED
    {
      TagLaws(s[k]);
    }
    forall k | 0 <= k < |u| && Tag(u[k]) != UNTAGGED && length' < req
      ensures Covered(bases, bases[k], length', size)
    {
      GrownCovered(s, t, bases, i, req, begin, end, length, size, k);
    }
  }

  lemma PromoteBest(t: seq<nat>, u: seq<nat>, begin: nat, end: nat, size: BlockSize)
    requires |t| == |u| && forall k :: 0 <= k < |t| ==> u[k] == Promoted(t[k])
    requires Tiles(t, CURRENT, begin, end, size)
    ensures Retagged(t, u) && Tiles(u, MATCHED, begin, end, size)
  {
    forall k | 0 <= k < |t|
      ensures Base(u[k]) == Base(t[k]) && (Tag(u[k]) == MATCHED <==> Tag(t[k]) == CURRENT)
      ensures Tag(u[k]) != CURRENT && (Tag(u[k]) == UNTAGGED <==> Tag(t[k]) == UNTAGGED)
    {
      TagLaws(t[k]);
    }
    SameTiles(t, u, CURRENT, MATCHED, begin, end, size);
  }

  lemma SameTiles(t: seq<nat>, u: seq<nat>, tag: nat, tag': nat, begin: nat, end: nat, size: BlockSize)
    requires |t| == |u| && Tiles(t, tag, begin, end, size)
    requires forall k :: 0 <= k < |t| ==> Base(u[k]) == Base(t[k]) && (Tag(u[k]) == tag' <==> Tag(t[k]) == tag)
    ensures Tiles(u, tag', begin, end, size)
  {
  }

  lemma DropBest(s: seq<nat>, t: seq<nat>, u: seq<nat>, least: nat, begin: nat, end: nat, length: nat, size: BlockSize)
    requires Marked(s, t) && NoneTagged(s, CURRENT, |s|) && Best(s, least, begin, end, length, size)
    requires |t| == |u| && forall k :: 0 <= k < |t| ==> u[k] == Dropped(t[k])
    ensures Retagged(t, u) && Best(u, least, begin, end, length, size)
  {
    forall k | 0 <= k < |t|
      ensures Base(u[k]) == Base(t[k]) == Base(s[k])
      ensures Tag(u[k]) != CURRENT && (Tag(u[k]) == UNTAGGED <==> Tag(t[k]) == UNTAGGED)
      ensures Tag(u[k]) == MATCHED <==> Tag(s[k]) == MATCHED
    {
      TagLaws(s[k]);
      TagLaws(t[k]);
    }
    if length > least {
      SameTiles(s, u, MATCHED, MATCHED, begin, end, size);
    }
  }

  // ---- The search itself ----

  /** What the source calls the segment: its begin, end and size. */
  datatype Segment = Segment(begin: nat, end: nat, length: nat)

  function Goal(seg: Segment, req: nat): nat { if seg.length < req then seg.length else req }

  /** The segment has grown from entry `i`, the first that lies in a run of its length, or of the
      requested length if that is less. */
  ghost predicate GrownFrom(bases: seq<nat>, i: nat, seg: Segment, req: nat, size: BlockSize) {
    && IsFirst(bases, i, Goal(seg, req), size)
    && Growth(bases, i, req, size) == Span(seg.begin, seg.end) && InSpan(bases[i], seg.begin, seg.end, size)
  }

  ghost predicate FirstGrown(bases: seq<nat>, seg: Segment, req: nat, size: BlockSize) {
    exists i: nat :: GrownFrom(bases, i, seg, req, size)
  }

  lemma PromotedIsFirst(s: seq<nat>, t: seq<nat>, bases: seq<nat>, i: nat, req: nat, begin: nat, end: nat,
      length: nat, size: BlockSize)
    requires i < |t| && |s| == |t| && Searched(s, bases, i, req, length, size) && GrewFrom(s, t, bases, i, req, begin, end, size)
    requires Follows(bases, bases[i], length, size, Span(begin, end), Growth(bases, i, req, size))
    requires length < req && end - begin > length
    ensures FirstGrown(bases, Segment(begin, end, end - begin), req, size)
  {
    var goal := if end - begin < req then end - begin else req;
    TilesAreRun(t, bases, CURRENT, begin, end, size);
    assert InSpan(Base(t[i]), begin, end, size);
    assert InRun(bases, bases[i], goal, size);
    if Covered(bases, bases[i], length, size) {
      CoveredNotInRun(bases, bases[i], length, goal, size);
    }
    forall k | 0 <= k < i
      ensures !InRun(bases, bases[k], goal, size)
    {
      CoveredNotInRun(bases, bases[k], length, goal, size);
    }
    assert GrownFrom(bases, i, Segment(begin, end, end - begin), req, size);
  }

  /** One round: the segment through the untagged entry `i`, compared with the largest so far. */
  method Round(a: array<nat>, n: nat, i: nat, size: BlockSize, req: nat, least: nat, seg0: Segment, ghost bases: seq<nat>)
    returns (seg: Segment)
    requires i < n <= a.Length && InAddressSpace(bases, size) && seg0.length < req
    requires Searched(a[..n], bases, i, req, seg0.length, size) && Tag(a[i]) == UNTAGGED
    requires Best(a[..n], least, seg0.begin, seg0.end, seg0.length, size)
    modifies a
    ensures Searched(a[..n], bases, i + 1, req, seg.length, size) && a[n..] == old(a[n..])
    ensures Best(a[..n], least, seg.begin, seg.end, seg.length, size)
    ensures (seg0.length < seg.length < req + size && FirstGrown(bases, seg, req, size)) || seg == seg0
  {
    seg := seg0;
    ghost var s := a[..n];
    assert forall k :: 0 <= k < n ==> a[k] == s[k];
    var begin, end := Grow(a, n, i, size, req, bases, seg0.length);
    ghost var t := a[..n];
    assert t[i] == a[i];
    if end - begin > seg.length {
      seg := Segment(begin, end, end - begin);
      PromotedIsFirst(s, t, bases, i, req, begin, end, seg0.length, size);
      Promote(a, n);
      PromoteBest(t, a[..n], begin, end, size);
    } else {
      Drop(a, n);
      DropBest(s, t, a[..n], least, seg.begin, seg.end, seg.length, size);
    }
    RetagSearched(s, t, a[..n], bases, i, req, begin, end, seg0.length, seg.length, size);
  }

  /** Longest run: whatever segment was known before, afterwards no block is tagged as current; a
      better segment is tiled exactly by the matched blocks, without one no block is matched; and
      either the request is met, by less than a block too much, or no run of blocks is longer than the
      segment. Of several that would do, it is the one that grows from the first entry. */
  method FindLargestSegment(a: array<nat>, n: nat, size: BlockSize, req: nat, seg0: Segment, ghost bases: seq<nat>)
    returns (seg: Segment)
    requires n <= a.Length && SameBases(a[..n], bases) && InAddressSpace(bases, size)
    modifies a
    ensures SameBases(a[..n], bases) && a[n..] == old(a[n..])
    ensures NoneTagged(a[..n], CURRENT, n)
    ensures Best(a[..n], seg0.length, seg.begin, seg.end, seg.length, size)
    ensures (seg0.length < seg.length < req + size && FirstGrown(bases, seg, req, size)) || seg == seg0
    ensures seg.length < req ==> forall begin, end :: IsRun(bases, begin, end, size) ==> end - begin <= seg.length
  {
    ClearTags(a, n);
    Cleared(old(a[..n]), a[..n], bases, req, seg0.length, size);
    seg := seg0;
    var i := 0;
    while i < n && seg.length < req
      invariant 0 <= i <= n && Searched(a[..n], bases, i, req, seg.length, size) && a[n..] == old(a[n..])
      invariant Best(a[..n], seg0.length, seg.begin, seg.end, seg.length, size)
      invariant (seg0.length < seg.length < req + size && FirstGrown(bases, seg, req, size)) || seg == seg0
    {
      if Tag(a[i]) == UNTAGGED {
        seg := Round(a, n, i, size, req, seg0.length, seg, bases);
      }
      i := i + 1;
    }
    if seg.length < req {
      AllRunsBounded(a[..n], bases, req, seg.length, size);
    }
  }

  lemma Cleared(s: seq<nat>, t: seq<nat>, bases: seq<nat>, req: nat, least: nat, size: BlockSize)
    requires SameBases(s, bases) && |t| == |s| && forall k :: 0 <= k < |s| ==> t[k] == Base(s[k])
    ensures Searched(t, bases, 0, req, least, size) && Best(t, least, 0, 0, least, size)
  {
  }

  lemma AllRunsBounded(s: seq<nat>, bases: seq<nat>, req: nat, length: nat, size: BlockSize)
    requires Searched(s, bases, |s|, req, length, size) && length < req
    ensures forall begin, end :: IsRun(bases, begin, end, size) ==> end - begin <= length
  {
    forall begin, end | IsRun(bases, begin, end, size)
      ensures end - begin <= length
    {
      forall k | 0 <= k < |bases|
        ensures Covered(bases, bases[k], length, size)
      {
        assert Tag(s[k]) != UNTAGGED;
      }
      RunsBounded(bases, begin, end, length, size);
    }
  }
}
