/**
 What the assembly of a DMA segment publishes and what it holds, as determined by the answers of the
 page allocator and the sizes.
 */
module DmaOutcome {
  import opened Arithmetic
  import opened DmaSegment
  import opened DmaGrowth
  import opened DmaSearch
  import opened DmaSupply

  // ---- Entries ----

  ghost predicate AllZero(s: seq<nat>) {
    forall k :: 0 <= k < |s| ==> s[k] == 0
  }

  ghost predicate AllUntagged(s: seq<nat>) {
    forall k :: 0 <= k < |s| ==> Tag(s[k]) == UNTAGGED
  }

  /** What an entry holds after the blocks outside the segment have been released. */
  function Kept(x: nat): nat { if Tag(x) == MATCHED then Base(x) else 0 }

  ghost predicate AllKept(s: seq<nat>, t: seq<nat>) {
    |s| == |t| && forall k :: 0 <= k < |s| ==> t[k] == Kept(s[k])
  }

  /** Entries that have just been added do not change what is matched. */
  lemma MoreUntagged(s: seq<nat>, t: seq<nat>, seg: Segment, improved: bool, size: BlockSize)
    requires Matched(s, seg, improved, size) && AllUntagged(t)
    ensures Matched(s + t, seg, improved, size)
  {
    assert forall x :: HasTagged(s, MATCHED, x) ==> HasTagged(s + t, MATCHED, x) by {
      assert forall k :: 0 <= k < |s| ==> (s + t)[k] == s[k];
    }
  }

  // ---- What is published and what is held ----

  /** The segment is a run of the searched blocks, less than a block longer than the request, and if it
      is shorter than the request no run is longer. */
  ghost predicate Published(seg: Segment, bases: seq<nat>, req: nat, size: BlockSize) {
    && seg.length == seg.end - seg.begin && seg.length < req + size
    && (seg.length > 0 ==> IsRun(bases, seg.begin, seg.end, size))
    && (seg.length < req ==> !HasRun(bases, seg.length + 1, size))
  }

  lemma MetExactly(seg: Segment, bases: seq<nat>, req: nat, size: BlockSize)
    requires Published(seg, bases, req, size) && req > 0
    ensures seg.length >= req <==> HasRun(bases, req, size)
  {
  }

  /** The matched blocks are those of the segment, or there are none. */
  ghost predicate Matched(s: seq<nat>, seg: Segment, improved: bool, size: BlockSize) {
    if improved then Tiles(s, MATCHED, seg.begin, seg.end, size) else forall k :: 0 <= k < |s| ==> Tag(s[k]) != MATCHED
  }

  /** A search that starts from the segment of the previous one matches blocks if and only if some run is
      longer than all that the previous search saw. */
  lemma SearchMatches(s: seq<nat>, before: seq<nat>, bases: seq<nat>, seg0: Segment, seg: Segment, req: nat, size: BlockSize)
    requires Published(seg0, before, req, size) && seg0.length < req && before <= bases
    requires SameBases(s, bases) && Best(s, seg0.length, seg.begin, seg.end, seg.length, size)
    requires (seg0.length < seg.length < req + size && FirstGrown(bases, seg, req, size)) || seg == seg0
    requires seg.length < req ==> forall begin, end :: IsRun(bases, begin, end, size) ==> end - begin <= seg.length
    ensures Published(seg, bases, req, size) && Matched(s, seg, Improves(before, bases, size), size)
    ensures if Improves(before, bases, size) then FirstGrown(bases, seg, req, size) else seg == seg0
  {
    if seg.length > seg0.length {
      TilesAreRun(s, bases, MATCHED, seg.begin, seg.end, size);
      assert HasRun(bases, seg.length, size) && !HasRun(before, seg.length, size);
    } else {
      if seg.length > 0 {
        SameRun(before, bases, seg.begin, seg.end, size);
      }
      NoImprovement(before, bases, seg, req, size);
    }
  }

  lemma SameRun(before: seq<nat>, bases: seq<nat>, begin: int, end: int, size: BlockSize)
    requires before <= bases && IsRun(before, begin, end, size)
    ensures IsRun(bases, begin, end, size)
  {
    forall x | InSpan(x, begin, end, size)
      ensures HasBlock(bases, x)
    {
      var k :| 0 <= k < |before| && before[k] == x;
      assert bases[k] == x;
    }
  }

  lemma NoImprovement(before: seq<nat>, bases: seq<nat>, seg: Segment, req: nat, size: BlockSize)
    requires Published(seg, before, req, size) && !HasRun(bases, seg.length + 1, size)
    ensures !Improves(before, bases, size)
  {
    forall n: nat | HasRun(bases, n, size)
      ensures HasRun(before, n, size)
    {
      var begin, end :| IsRun(bases, begin, end, size) && end - begin >= n;
      assert end - begin <= seg.length;
      assert IsRun(before, seg.begin, seg.end, size);
    }
  }

  /** Exactly the blocks of the segment are held, all of them real pages. */
  ghost predicate Holds(held: seq<nat>, seg: Segment, size: BlockSize) {
    && seg.begin < seg.end && (seg.end - seg.begin) % size == 0 && HoldsOnly(held, seg, size)
    && (forall x :: InSpan(x, seg.begin, seg.end, size) ==> x != 0 && HasBlock(held, x))
  }

  ghost predicate HoldsOnly(held: seq<nat>, seg: Segment, size: BlockSize) {
    forall k :: 0 <= k < |held| && held[k] != 0 ==> InSpan(held[k], seg.begin, seg.end, size)
  }

  // ---- Which segment is published ----

  /** The length that decides: the requested one, or the longest there is. */
  ghost predicate IsGoal(bases: seq<nat>, length: int, req: nat, size: BlockSize) {
    0 < length <= req && HasRun(bases, length, size) && (length < req ==> !HasRun(bases, length + 1, size))
  }

  ghost predicate IsOrigin(bases: seq<nat>, i: nat, length: int, req: nat, size: BlockSize) {
    IsGoal(bases, length, req, size) && IsFirst(bases, i, length, size)
  }

  /** The search publishes a segment at address 0: it grows down to 0 from the first entry that lies in a
      run of the length that decides. */
  ghost predicate StartsAtZero(bases: seq<nat>, req: nat, size: BlockSize) {
    exists i: nat, length :: IsOrigin(bases, i, length, req, size) && Growth(bases, i, req, size).begin == 0
  }

  lemma GoalUnique(bases: seq<nat>, m: int, n: int, req: nat, size: BlockSize)
    requires IsGoal(bases, m, req, size) && IsGoal(bases, n, req, size)
    ensures m == n
  {
    assert m < n ==> HasRun(bases, m + 1, size);
    assert n < m ==> HasRun(bases, n + 1, size);
  }

  lemma GoalOf(seg: Segment, bases: seq<nat>, req: nat, size: BlockSize)
    requires Published(seg, bases, req, size) && seg.length > 0 && req > 0
    ensures IsGoal(bases, Goal(seg, req), req, size)
  {
    assert HasRun(bases, seg.length, size);
  }

  /** The entries determine where a segment grows that a search publishes. */
  lemma StartsAtZeroExactly(seg: Segment, bases: seq<nat>, req: nat, size: BlockSize)
    requires Published(seg, bases, req, size) && FirstGrown(bases, seg, req, size) && req > 0
    ensures StartsAtZero(bases, req, size) <==> seg.begin == 0
  {
    var goal := Goal(seg, req);
    var i: nat :| GrownFrom(bases, i, seg, req, size);
    GoalOf(seg, bases, req, size);
    assert IsOrigin(bases, i, goal, req, size);
    if j: nat, length :| IsOrigin(bases, j, length, req, size) && Growth(bases, j, req, size).begin == 0 {
      GoalUnique(bases, length, goal, req, size);
      FirstUnique(bases, i, j, goal, size);
    }
  }

  lemma GrownUnique(seg: Segment, seg': Segment, bases: seq<nat>, req: nat, size: BlockSize)
    requires FirstGrown(bases, seg, req, size) && FirstGrown(bases, seg', req, size)
    requires seg.length == seg.end - seg.begin && seg'.length == seg'.end - seg'.begin
    requires seg.length == seg'.length || (seg.length >= req && seg'.length >= req)
    ensures seg == seg'
  {
    var goal := Goal(seg, req);
    var i: nat :| GrownFrom(bases, i, seg, req, size);
    var j: nat :| GrownFrom(bases, j, seg', req, size);
    FirstUnique(bases, i, j, goal, size);
  }

  /** The segment before search `k`: what the last search published that saw a longer run than the one
      before it. */
  ghost predicate KnownBefore(r: Request, k: nat, seg: Segment)
    requires CanGrow(r, k)
    decreases k, 0
  {
    if k == 0 then seg == Segment(0, 0, 0)
    else
      GrewBefore(r, k - 1, k);
      KnownAfter(r, k - 1, seg)
  }

  ghost predicate KnownAfter(r: Request, k: nat, seg: Segment)
    requires CanGrow(r, k)
    decreases k, 1
  {
    if Improves(Previous(r, k), Entries(r, k), r.size) then FirstGrown(Entries(r, k), seg, r.req, r.size)
    else KnownBefore(r, k, seg)
  }

  lemma {:induction false} KnownUnique(r: Request, k: nat, seg: Segment, seg': Segment)
    requires CanGrow(r, k) && KnownAfter(r, k, seg) && KnownAfter(r, k, seg')
    requires seg.length == seg.end - seg.begin && seg'.length == seg'.end - seg'.begin
    requires seg.length == seg'.length || (seg.length >= r.req && seg'.length >= r.req)
    ensures seg == seg'
  {
    if Improves(Previous(r, k), Entries(r, k), r.size) {
      GrownUnique(seg, seg', Entries(r, k), r.req, r.size);
    } else if k > 0 {
      GrewBefore(r, k - 1, k);
      KnownUnique(r, k - 1, seg, seg');
    }
  }

  // ---- The outcome ----

  /** What is published and held when search `k` was the last. An entry without a page counts as a block
      at address 0 in the search. The segment is held exactly if and only if the last search saw a longer
      run than the one before and does not publish address 0. */
  ghost predicate Outcome(held: seq<nat>, r: Request, k: nat, seg: Segment) {
    && LastSearch(r, k) && Published(seg, Entries(r, k), r.req, r.size) && KnownAfter(r, k, seg)
    && HoldsOnly(held, seg, r.size)
    && (Holds(held, seg, r.size) <==>
          Improves(Previous(r, k), Entries(r, k), r.size) && !StartsAtZero(Entries(r, k), r.req, r.size))
    && (if Improves(Previous(r, k), Entries(r, k), r.size)
        then forall x :: InSpan(x, seg.begin, seg.end, r.size) && x != 0 ==> HasBlock(held, x)
        else AllZero(held))
  }

  lemma KeptBlocks(s: seq<nat>, held: seq<nat>, seg: Segment, improved: bool, size: BlockSize)
    requires Matched(s, seg, improved, size) && AllKept(s, held)
    ensures HoldsOnly(held, seg, size) && (!improved ==> AllZero(held))
    ensures improved ==> forall x :: InSpan(x, seg.begin, seg.end, size) ==> HasBlock(held, x)
    ensures Holds(held, seg, size) <==> improved && seg.begin != 0
  {
    if improved {
      forall x | InSpan(x, seg.begin, seg.end, size)
        ensures HasBlock(held, x)
      {
        var k :| 0 <= k < |s| && Tag(s[k]) == MATCHED && Base(s[k]) == x;
        assert held[k] == x;
      }
    }
    assert seg.begin < seg.end ==> InSpan(seg.begin, seg.begin, seg.end, size);
  }

  lemma OutcomeOfSearch(s: seq<nat>, held: seq<nat>, r: Request, k: nat, seg: Segment, improved: bool)
    requires LastSearch(r, k) && Published(seg, Entries(r, k), r.req, r.size) && Matched(s, seg, improved, r.size)
    requires KnownAfter(r, k, seg) && (improved <==> Improves(Previous(r, k), Entries(r, k), r.size))
    requires AllKept(s, held)
    ensures Outcome(held, r, k, seg)
  {
    KeptBlocks(s, held, seg, improved, r.size);
    if improved {
      StartsAtZeroExactly(seg, Entries(r, k), r.req, r.size);
    }
  }

  lemma SameLength(seg: Segment, seg': Segment, bases: seq<nat>, req: nat, size: BlockSize)
    requires Published(seg, bases, req, size) && Published(seg', bases, req, size) && req > 0
    ensures seg.length == seg'.length || (seg.length >= req && seg'.length >= req)
  {
    MetExactly(seg, bases, req, size);
    MetExactly(seg', bases, req, size);
    assert seg.length > 0 ==> HasRun(bases, seg.length, size);
    assert seg'.length > 0 ==> HasRun(bases, seg'.length, size);
  }

  /** The answers of the page allocator and the sizes determine the last search, the published segment and
      the pages that are held. */
  lemma OutcomeUnique(held: seq<nat>, held': seq<nat>, r: Request, k: nat, k': nat, seg: Segment, seg': Segment, x: nat)
    requires Outcome(held, r, k, seg) && Outcome(held', r, k', seg') && x != 0
    ensures k == k' && seg == seg' && (HasBlock(held, x) <==> HasBlock(held', x))
  {
    LastSearchUnique(r, k, k');
    SameLength(seg, seg', Entries(r, k), r.req, r.size);
    KnownUnique(r, k, seg, seg');
    if HasBlock(held, x) {
      assert InSpan(x, seg.begin, seg.end, r.size);
    }
    if HasBlock(held', x) {
      assert InSpan(x, seg.begin, seg.end, r.size);
    }
  }

  /** If the first batch is granted in full, the segment is held exactly if and only if the last search saw
      a longer run than the one before; and always if the request is met. */
  lemma HeldWhenGranted(held: seq<nat>, r: Request, k: nat, seg: Segment)
    requires Outcome(held, r, k, seg)
    requires r.req / r.size <= r.most ==> Granted(r.supply, r.req / r.size) == r.req / r.size
    ensures Holds(held, seg, r.size) <==> Improves(Previous(r, k), Entries(r, k), r.size)
    ensures seg.length >= r.req ==> Holds(held, seg, r.size)
  {
    ZeroSearched(r, k);
    if Improves(Previous(r, k), Entries(r, k), r.size) {
      StartsAtZeroExactly(seg, Entries(r, k), r.req, r.size);
      ImprovedNotEmpty(r, k, seg);
      assert HasBlock(Entries(r, k), seg.begin);
    }
    MetExactly(seg, Entries(r, k), r.req, r.size);
    if seg.length >= r.req {
      MetImproves(r, k);
    }
  }

  lemma ImprovedNotEmpty(r: Request, k: nat, seg: Segment)
    requires LastSearch(r, k) && Published(seg, Entries(r, k), r.req, r.size)
    requires Improves(Previous(r, k), Entries(r, k), r.size)
    ensures seg.length > 0 && InSpan(seg.begin, seg.begin, seg.end, r.size)
  {
    var n: nat :| HasRun(Entries(r, k), n, r.size) && !HasRun(Previous(r, k), n, r.size);
    var begin, end :| IsRun(Entries(r, k), begin, end, r.size) && end - begin >= n;
    assert HasRun(Entries(r, k), 1, r.size);
  }

  lemma OneBlockRun(bases: seq<nat>, k: nat, size: BlockSize)
    requires k < |bases|
    ensures IsRun(bases, bases[k], bases[k] + size, size)
  {
    AddOnce(0, size);
    forall x | InSpan(x, bases[k], bases[k] + size, size)
      ensures HasBlock(bases, x)
    {
      ModLaws(x - bases[k], 0, size);
      assert bases[k] == x;
    }
  }

  /** A run of entries that starts at 0 is one block long, unless there is a page directly above it. */
  lemma RunAtZero(r: Request, k: nat, end: nat)
    requires CanGrow(r, k) && IsRun(Entries(r, k), 0, end, r.size) && !HasBlock(r.supply, r.size)
    ensures end == r.size
  {
    ModLaws(end, r.size, r.size);
    AddOnce(0, r.size);
    ModLaws(end - r.size, 0, r.size);
    if end > r.size {
      assert InSpan(r.size, 0, end, r.size);
      FromSupply(r, k, r.size);
      assert false;
    }
  }

  /** One block is requested, and its page is not granted. */
  predicate OneBlockDenied(r: Request) {
    r.req == r.size && r.most > 0 && Granted(r.supply, 1) == 0
  }

  lemma OneBlockQuotient(size: BlockSize)
    ensures size / size == 1
  {
  }

  lemma DeniedEntries(r: Request, k: nat)
    requires OneBlockDenied(r) && LastSearch(r, k)
    ensures k == 0 && Entries(r, k) == [0]
  {
    OneBlockQuotient(r.size);
    assert First(r) == [0];
    OneBlockRun([0], 0, r.size);
    assert CanGrow(r, 0) && Entries(r, 0) == [0];
    assert HasRun(Entries(r, 0), r.req, r.size);
    assert LastSearch(r, 0);
    LastSearchUnique(r, k, 0);
  }

  /** The only run of the single entry 0. */
  lemma ZeroRun(begin: int, end: int, size: BlockSize)
    requires IsRun([0], begin, end, size) && size <= end - begin < 2 * size
    ensures begin == 0 && end == size
  {
    assert InSpan(begin, begin, end, size);
    assert HasBlock([0], begin);
    OneMultiple(end - begin, size);
  }

  lemma DeniedStartsAtZero(held: seq<nat>, r: Request, k: nat, seg: Segment)
    requires Outcome(held, r, k, seg) && OneBlockDenied(r)
    ensures k == 0 && Entries(r, k) == [0] && seg == Segment(0, r.req, r.req)
  {
    DeniedEntries(r, k);
    OneBlockRun([0], 0, r.size);
    MetExactly(seg, [0], r.req, r.size);
    ZeroRun(seg.begin, seg.end, r.size);
  }

  // ---- Supplies without a page directly above address 0 ----

  /** No page of the first batch is granted. */
  predicate FirstBatchDenied(r: Request) {
    0 < r.req / r.size <= r.most && Granted(r.supply, r.req / r.size) == 0
  }

  lemma FirstEntryZero(r: Request, k: nat)
    requires CanGrow(r, k) && Entries(r, k) != []
    ensures Entries(r, k)[0] == 0 <==> FirstBatchDenied(r)
  {
    if First(r) != [] {
      assert Entries(r, k)[0] == First(r)[0];
      assert FirstBatchDenied(r) ==> First(r)[0] == 0;
    } else {
      assert Entries(r, k)[0] == Rest(r)[0];
    }
  }

  /** A single block that a search publishes is the first entry. */
  lemma SingleIsFirst(seg: Segment, bases: seq<nat>, req: nat, size: BlockSize)
    requires FirstGrown(bases, seg, req, size) && seg.length == seg.end - seg.begin == size
    ensures bases != [] && bases[0] == seg.begin
  {
    var goal := Goal(seg, req);
    var i: nat :| GrownFrom(bases, i, seg, req, size);
    OneBlockRun(bases, 0, size);
    assert InSpan(bases[0], bases[0], bases[0] + size, size);
    assert InRun(bases, bases[0], goal, size);
    ModLaws(bases[0] - seg.begin, 0, size);
  }

  lemma NoBetterSingle(before: seq<nat>, bases: seq<nat>, seg: Segment, req: nat, size: BlockSize)
    requires before != [] && Improves(before, bases, size) && Published(seg, bases, req, size) && seg.length == size
    ensures HasRun(before, size, size) && seg.length >= req
  {
    OneBlockRun(before, 0, size);
    var n: nat :| HasRun(bases, n, size) && !HasRun(before, n, size);
    assert n > size;
    assert HasRun(bases, size + 1, size);
  }

  /** A single block is an improvement in the first search only. */
  lemma SingleInFirstSearch(r: Request, k: nat, seg: Segment)
    requires LastSearch(r, k) && Published(seg, Entries(r, k), r.req, r.size) && seg.length == r.size
    requires Improves(Previous(r, k), Entries(r, k), r.size) && First(r) != []
    ensures k == 0
  {
    if k > 0 {
      GrewBefore(r, k - 1, k);
      NoBetterSingle(Previous(r, k), Entries(r, k), seg, r.req, r.size);
      assert false;
    }
  }

  lemma {:induction false} AllZeroStart(seg: Segment, bases: seq<nat>, req: nat, size: BlockSize)
    requires FirstGrown(bases, seg, req, size) && AllZero(bases)
    ensures seg.begin == 0
  {
  }

  lemma DeniedZeros(r: Request)
    requires FirstBatchDenied(r) && CanGrow(r, 0)
    ensures AllZero(Entries(r, 0)) && First(r) != []
  {
  }

  /** If no page lies directly above address 0: the segment is held exactly if and only if the last search
      saw a longer run than the one before, and was not a first search without any page. */
  lemma HeldUnlessDenied(held: seq<nat>, r: Request, k: nat, seg: Segment)
    requires Outcome(held, r, k, seg) && !HasBlock(r.supply, r.size)
    ensures Holds(held, seg, r.size) <==>
      Improves(Previous(r, k), Entries(r, k), r.size) && !(k == 0 && FirstBatchDenied(r))
  {
    if Improves(Previous(r, k), Entries(r, k), r.size) {
      StartsAtZeroExactly(seg, Entries(r, k), r.req, r.size);
      ImprovedNotEmpty(r, k, seg);
      if k == 0 && FirstBatchDenied(r) {
        DeniedZeros(r);
        AllZeroStart(seg, Entries(r, k), r.req, r.size);
      } else if seg.begin == 0 {
        RunAtZero(r, k, seg.end);
        SingleIsFirst(seg, Entries(r, k), r.req, r.size);
        FirstEntryZero(r, k);
        SingleInFirstSearch(r, k, seg);
        assert false;
      }
    }
  }
}
