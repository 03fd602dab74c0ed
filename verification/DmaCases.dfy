/**
 Two requests for which a published DMA segment is not held, on the allocation itself.
 */
module DmaCases {
  import opened Arithmetic
  import opened DmaSegment
  import opened DmaSearch
  import opened DmaSupply
  import opened DmaOutcome
  import opened DmaPool

  // ---- The allocation for a request ----

  predicate CanServe(r: Request) {
    r.size % PAGE_SIZE == 0 && r.size < 0x1_0000_0000 && GoodPages(r.supply, r.size)
  }

  lemma Sizes(size: BlockSize, most: nat)
    requires size % PAGE_SIZE == 0
    ensures PageAlign(size) == size && most * size / size == most
  {
    ModUnique(most * size, most, 0, size);
    var q := most * size / size;
    assert (most - q) * size == 0;
  }

  method Serve(r: Request) returns (d: Descriptor, ghost k: nat)
    requires CanServe(r)
    ensures d.blkCnt <= d.blkPtr.Length && d.reqSize == r.req && Outcome(d.blkPtr[..d.blkCnt], r, k, d.seg)
    ensures d.taken == Pages(AllEntries(r, k))
  {
    Sizes(r.size, r.most);
    var dseg;
    dseg, k := SegmentAlloc(r.req, r.size, r.most * r.size, r.supply, true);
    d := dseg;
    assert r == Request(r.supply, r.req, d.blkSize, r.most);
  }

  // ---- A second search without a longer run ----

  /** The first batch is granted and one more, then nothing. */
  predicate InTwo(r: Request, a: seq<nat>, b: seq<nat>) {
    && r.supply == a + b && 0 !in a && 0 !in b && |a| == r.req / r.size && |b| == MORE_BLOCKS
    && |a| + |b| <= r.most
  }

  lemma GrantedInTwo(a: seq<nat>, b: seq<nat>, n: nat)
    requires 0 !in a && 0 !in b && n >= |b|
    ensures Granted(a + b, |a|) == |a| && Left(a + b, |a|) == b && Batch(a + b, |a|) == a
    ensures Granted(b, n) == |b|
  {
    GrantedIs(a + b, |a|, |a|);
    FullBatch(a + b, |a|);
    GrantedIs(b, n, |b|);
  }

  lemma EntriesInTwo(r: Request, a: seq<nat>, b: seq<nat>)
    requires InTwo(r, a, b)
    ensures CanGrow(r, 1) && !CanGrow(r, 2) && Previous(r, 1) == a && Entries(r, 1) == a + b
  {
    GrantedInTwo(a, b, MORE_BLOCKS);
    GrantedInTwo(a, b, MORE_BLOCKS * 2);
    GrewBefore(r, 0, 1);
    assert Entries(r, 0) == a;
    assert Entries(r, 1) == a + b;
  }

  /** If the second batch makes no longer run, the longest run is published and all pages are released. */
  lemma StaleInTwo(held: seq<nat>, r: Request, k: nat, seg: Segment, a: seq<nat>, b: seq<nat>, length: nat)
    requires Outcome(held, r, k, seg) && InTwo(r, a, b)
    requires HasRun(a, length, r.size) && !HasRun(a + b, length + 1, r.size) && length < r.req
    ensures k == 1 && seg.length == length && AllZero(held)
  {
    EntriesInTwo(r, a, b);
    MoreRuns(a, a + b, length, r.size);
    forall n: nat | n > length
      ensures !HasRun(a + b, n, r.size)
    {
    }
    assert !HasRun(a, r.req, r.size) by {
      if HasRun(a, r.req, r.size) {
        MoreRuns(a, a + b, r.req, r.size);
      }
    }
    assert LastSearch(r, 1);
    LastSearchUnique(r, k, 1);
    assert !Improves(a, a + b, r.size) by {
      forall n: nat | HasRun(a + b, n, r.size)
        ensures HasRun(a, n, r.size)
      {
      }
    }
    assert HasRun(a + b, seg.length, r.size) || seg.length == 0;
  }

  /** Both batches are taken; a third is not granted. */
  lemma TakenInTwo(r: Request, a: seq<nat>, b: seq<nat>)
    requires InTwo(r, a, b) && |a| + |b| + MORE_BLOCKS <= r.most && CanGrow(r, 1) && !HasRun(a + b, r.req, r.size)
    ensures Pages(AllEntries(r, 1)) == a + b
  {
    EntriesInTwo(r, a, b);
    GrantedInTwo(a, b, MORE_BLOCKS);
    assert RestAt(r, 1) == [];
    BatchPages(a + b, [], MORE_BLOCKS);
    AllPages(a + b);
  }

  /** Two adjacent pages and another one. */
  function Pair(): (a: seq<nat>)
    ensures |a| == 3 && 0 !in a
  {
    [0x10000, 0x11000, 0x20000]
  }

  function Scattered(): (b: seq<nat>)
    ensures |b| == 8 && 0 !in b
  {
    [0x22000, 0x24000, 0x26000, 0x28000, 0x2A000, 0x2C000, 0x2E000, 0x30000]
  }

  lemma NoThreeAdjacent(x: int)
    requires HasBlock(Pair() + Scattered(), x) && HasBlock(Pair() + Scattered(), x + 0x1000)
    ensures !HasBlock(Pair() + Scattered(), x + 0x2000)
  {
  }

  lemma PairRuns()
    ensures HasRun(Pair(), 0x2000, 0x1000) && !HasRun(Pair() + Scattered(), 0x2001, 0x1000)
  {
    var a := Pair();
    assert a[0] == 0x10000 && a[1] == 0x11000;
    assert IsRun(a, 0x10000, 0x12000, 0x1000);
    var s := Pair() + Scattered();
    forall begin, end | IsRun(s, begin, end, 0x1000)
      ensures end - begin <= 0x2000
    {
      assert InSpan(begin, begin, end, 0x1000);
      if end - begin > 0x2000 {
        assert InSpan(begin + 0x1000, begin, end, 0x1000) && InSpan(begin + 0x2000, begin, end, 0x1000);
        NoThreeAdjacent(begin);
      }
    }
  }

  function PairRequest(): Request { Request(Pair() + Scattered(), 0x3000, 0x1000, 0x40) }

  lemma PairFits()
    ensures CanServe(PairRequest())
  {
  }

  lemma PairOutcome(held: seq<nat>, k: nat, seg: Segment)
    requires Outcome(held, PairRequest(), k, seg)
    ensures k == 1 && seg.length == 0x2000 && AllZero(held)
    ensures Pages(AllEntries(PairRequest(), k)) == Pair() + Scattered()
  {
    PairRuns();
    StaleInTwo(held, PairRequest(), k, seg, Pair(), Scattered(), 0x2000);
    assert !HasRun(Pair() + Scattered(), 0x3000, 0x1000);
    TakenInTwo(PairRequest(), Pair(), Scattered());
  }

  /** Eleven pages are obtained for a request of three; the second search finds nothing longer than the
      two that are adjacent. Their address is published, and none of the pages is held. */
  method PublishedCanBeReleased() returns (d: Descriptor)
    ensures d.blkCnt <= d.blkPtr.Length && Outcome(d.blkPtr[..d.blkCnt], PairRequest(), 1, d.seg)
    ensures d.taken == Pair() + Scattered() && AllZero(d.blkPtr[..d.blkCnt])
    ensures d.seg.length == 0x2000 < d.reqSize
  {
    ghost var k;
    PairFits();
    d, k := Serve(PairRequest());
    PairOutcome(d.blkPtr[..d.blkCnt], k, d.seg);
  }

  // ---- A first batch that is not granted ----

  /** If the page of a request for one block is denied, the request is met all the same, with nothing
      held and nothing taken. */
  lemma DeniedHoldsNothing(held: seq<nat>, r: Request, k: nat, seg: Segment)
    requires Outcome(held, r, k, seg) && OneBlockDenied(r)
    ensures k == 0 && seg == Segment(0, r.req, r.req) && AllZero(held) && Pages(AllEntries(r, k)) == []
  {
    DeniedStartsAtZero(held, r, k, seg);
    OneBlockRun([0], 0, r.size);
    assert HasRun(Entries(r, k), r.req, r.size);
    NoPages([0]);
    forall x | InSpan(x, 0, r.req, r.size)
      ensures x == 0
    {
      ModLaws(x, 0, r.size);
    }
  }

  function EmptyRequest(): Request { Request([], 0x1000, 0x1000, 0x40) }

  lemma EmptyDenied()
    ensures CanServe(EmptyRequest()) && OneBlockDenied(EmptyRequest())
  {
  }

  /** A request that is met although no page was granted: the empty entry passes for a block at 0. */
  method MetWithoutPages() returns (d: Descriptor)
    ensures d.blkCnt <= d.blkPtr.Length && Outcome(d.blkPtr[..d.blkCnt], EmptyRequest(), 0, d.seg)
    ensures d.taken == [] && AllZero(d.blkPtr[..d.blkCnt])
    ensures d.seg == Segment(0, d.reqSize, d.reqSize)
  {
    ghost var k;
    EmptyDenied();
    d, k := Serve(EmptyRequest());
    DeniedHoldsNothing(d.blkPtr[..d.blkCnt], EmptyRequest(), k, d.seg);
  }
}
