/**
 The life of a DMA segment: blocks are obtained until a long enough run is found, the blocks outside
 it are released, and freeing the segment releases the rest.
 */
module DmaPool {
  import opened DmaSegment
  import opened DmaAssembly
  import opened DmaSearch
  import opened DmaSupply
  import opened DmaOutcome

  const PAGE_SIZE := 4096

  function PageAlign(x: nat): (r: nat)
    ensures x <= r < x + PAGE_SIZE && r % PAGE_SIZE == 0
  {
    (x + PAGE_SIZE - 1) / PAGE_SIZE * PAGE_SIZE
  }

  // ---- Accounting for blocks ----

  /** How often the address `x` occurs. */
  function Count(s: seq<nat>, x: nat): nat {
    if s == [] then 0 else Count(s[..|s| - 1], x) + if s[|s| - 1] == x then 1 else 0
  }

  lemma {:induction false} CountConcat(s: seq<nat>, t: seq<nat>, x: nat)
    ensures Count(s + t, x) == Count(s, x) + Count(t, x)
  {
    if t == [] {
      assert s + t == s;
    } else {
      assert (s + t)[..|s + t| - 1] == s + t[..|t| - 1];
      CountConcat(s, t[..|t| - 1], x);
    }
  }

  /** Every block taken is held or has been released, and no more often than it was taken. */
  ghost predicate Accounted(taken: seq<nat>, released: seq<nat>, held: seq<nat>) {
    forall x :: x != 0 ==> Count(taken, x) == Count(released, x) + Count(held, x)
  }

  /** Pages of blocks are aligned and end before the top of the address space. */
  predicate GoodPages(supply: seq<nat>, size: BlockSize) {
    forall k :: 0 <= k < |supply| ==> Tag(supply[k]) == UNTAGGED && supply[k] + size < WORD
  }

  function Lost(x: nat): seq<nat> { if Tag(x) == MATCHED || x == 0 then [] else [Base(x)] }

  /** The blocks that are released when only the matched ones are kept, in order. */
  function Freed(s: seq<nat>): seq<nat> {
    if s == [] then [] else Freed(s[..|s| - 1]) + Lost(s[|s| - 1])
  }

  lemma FreedStep(s: seq<nat>, i: nat)
    requires i < |s|
    ensures Freed(s[..i + 1]) == Freed(s[..i]) + Lost(s[i])
  {
    assert s[..i + 1][..i] == s[..i];
  }

  lemma LostOrKept(y: nat, x: nat)
    requires x != 0
    ensures Count(Lost(y), x) + (if Kept(y) == x then 1 else 0) == if Base(y) == x then 1 else 0
  {
  }

  lemma {:induction false} FreedOrKept(s: seq<nat>, blocks: seq<nat>, t: seq<nat>, x: nat)
    requires SameBases(s, blocks) && AllKept(s, t) && x != 0
    ensures Count(Freed(s), x) + Count(t, x) == Count(blocks, x)
  {
    if s != [] {
      var n := |s| - 1;
      FreedOrKept(s[..n], blocks[..n], t[..n], x);
      CountConcat(Freed(s[..n]), Lost(s[n]), x);
      LostOrKept(s[n], x);
    }
  }

  /** The pages among the entries of the block pool, without the empty entries. */
  function Pages(s: seq<nat>): seq<nat> {
    if s == [] then [] else Pages(s[..|s| - 1]) + if s[|s| - 1] == 0 then [] else [s[|s| - 1]]
  }

  lemma {:induction false} PagesConcat(s: seq<nat>, t: seq<nat>)
    ensures Pages(s + t) == Pages(s) + Pages(t)
  {
    if t == [] {
      assert s + t == s;
    } else {
      assert (s + t)[..|s + t| - 1] == s + t[..|t| - 1];
      PagesConcat(s, t[..|t| - 1]);
    }
  }

  lemma {:induction false} CountPages(s: seq<nat>, x: nat)
    requires x != 0
    ensures Count(Pages(s), x) == Count(s, x)
  {
    if s != [] {
      var last := s[|s| - 1];
      CountPages(s[..|s| - 1], x);
      CountConcat(Pages(s[..|s| - 1]), if last == 0 then [] else [last], x);
    }
  }

  ghost predicate NoneZero(s: seq<nat>) {
    forall k :: 0 <= k < |s| ==> s[k] != 0
  }

  lemma {:induction false} AllPages(s: seq<nat>)
    requires NoneZero(s)
    ensures Pages(s) == s
  {
    if s != [] {
      var pre, last := s[..|s| - 1], s[|s| - 1];
      AllPages(pre);
      assert Pages(s) == pre + [last];
    }
  }

  lemma {:induction false} NoPages(s: seq<nat>)
    requires AllZero(s)
    ensures Pages(s) == []
  {
    if s != [] {
      NoPages(s[..|s| - 1]);
    }
  }

  lemma PagesOfBatch(granted: seq<nat>, zeros: seq<nat>)
    requires NoneZero(granted) && AllZero(zeros)
    ensures Pages(granted + zeros) == granted
  {
    PagesConcat(granted, zeros);
    AllPages(granted);
    NoPages(zeros);
  }

  /** A batch adds the pages that were granted to the pool. */
  lemma BatchPages(blocks: seq<nat>, supply: seq<nat>, n: nat)
    ensures Pages(blocks + Batch(supply, n)) == Pages(blocks) + supply[..Granted(supply, n)]
  {
    var m := Granted(supply, n);
    PagesConcat(blocks, Batch(supply, n));
    PagesOfBatch(supply[..m], seq(n - m, _ => 0));
  }

  lemma BatchFits(blocks: seq<nat>, supply: seq<nat>, n: nat, size: BlockSize)
    requires GoodPages(supply, size) && InAddressSpace(blocks, size) && size < WORD
    ensures InAddressSpace(blocks + Batch(supply, n), size)
    ensures AllUntagged(Batch(supply, n)) && GoodPages(Left(supply, n), size)
  {
  }

  lemma AppendBases(s: seq<nat>, bases: seq<nat>, batch: seq<nat>)
    requires SameBases(s, bases) && AllUntagged(batch)
    ensures SameBases(s + batch, bases + batch)
  {
  }

  /** Releasing the first block held keeps the account; an empty entry is not released. */
  lemma ReleaseFirst(taken: seq<nat>, released: seq<nat>, held: seq<nat>, released': seq<nat>)
    requires held != [] && Accounted(taken, released, held)
    requires released' == released + if held[0] == 0 then [] else [held[0]]
    ensures Accounted(taken, released', held[1..])
  {
    forall x | x != 0
      ensures Count(taken, x) == Count(released', x) + Count(held[1..], x)
    {
      assert held == [held[0]] + held[1..];
      CountConcat([held[0]], held[1..], x);
      CountConcat(released, if held[0] == 0 then [] else [held[0]], x);
      assert Count([held[0]], x) == if held[0] == x then 1 else 0;
    }
  }

  lemma ReleasedAccounted(blocks: seq<nat>, s: seq<nat>, t: seq<nat>)
    requires SameBases(s, blocks) && AllKept(s, t)
    ensures Accounted(Pages(blocks), Freed(s), t)
  {
    forall x | x != 0
      ensures Count(Pages(blocks), x) == Count(Freed(s), x) + Count(t, x)
    {
      CountPages(blocks, x);
      FreedOrKept(s, blocks, t, x);
    }
  }

  /** The rest of the supply after its answer `n` was a failure. */
  ghost predicate Failed(supply: seq<nat>, n: nat, rest: seq<nat>) {
    n <= |supply| && if n < |supply| then supply[n] == 0 && rest == supply[n + 1..] else rest == []
  }

  // ---- The segment descriptor ----

  class Descriptor {
    const reqSize: nat
    const blkSize: BlockSize
    const blkPtr: array<nat>
    var blkCnt: nat
    var seg: Segment

    // The page allocator: the addresses it will hand out, 0 where a request fails, and its log.
    var supply: seq<nat>
    ghost var taken: seq<nat>
    ghost var released: seq<nat>

    // Every entry of the block pool as it was obtained, 0 where that failed.
    ghost var blocks: seq<nat>

    ghost predicate Valid()
      reads this, blkPtr
    {
      && blkCnt <= blkPtr.Length && blkSize < WORD && GoodPages(supply, blkSize)
      && |blocks| == blkCnt && InAddressSpace(blocks, blkSize) && taken == Pages(blocks)
      && SameBases(blkPtr[..blkCnt], blocks)
      && (forall k :: blkCnt <= k < blkPtr.Length ==> blkPtr[k] == 0)
    }

    constructor (reqSize: nat, blkSize: BlockSize, totalRam: nat, supply: seq<nat>)
      requires blkSize < WORD && GoodPages(supply, blkSize)
      ensures Valid() && fresh(blkPtr) && blkPtr.Length == totalRam / blkSize && blkCnt == 0
      ensures this.reqSize == reqSize && this.blkSize == blkSize && this.supply == supply
      ensures seg == Segment(0, 0, 0) && taken == released == blocks == []
    {
      this.reqSize, this.blkSize, this.supply := reqSize, blkSize, supply;
      blkPtr := new nat[totalRam / blkSize](_ => 0);
      blkCnt, seg := 0, Segment(0, 0, 0);
      taken, released, blocks := [], [], [];
    }

    method GetFreePages() returns (addr: nat)
      modifies `supply, `taken
      ensures addr == if old(supply) == [] then 0 else old(supply)[0]
      ensures supply == if old(supply) == [] then [] else old(supply)[1..]
      ensures taken == old(taken) + if addr == 0 then [] else [addr]
    {
      if supply == [] {
        return 0;
      }
      addr := supply[0];
      supply := supply[1..];
      if addr != 0 {
        taken := taken + [addr];
      }
    }

    method FreePages(addr: nat)
      modifies `released
      ensures released == old(released) + [addr]
    {
      released := released + [addr];
    }

    /** Requests `n` pages for the entries from `start` on, up to the first failure; `m` are granted. */
    method FillUpTo(start: nat, n: nat) returns (ok: bool, ghost m: nat)
      requires start + n <= blkPtr.Length
      modifies this`supply, this`taken, blkPtr
      ensures m <= n && m <= |old(supply)| && (ok <==> m == n) && forall k :: 0 <= k < m ==> old(supply)[k] != 0
      ensures if ok then supply == old(supply)[m..] else Failed(old(supply), m, supply)
      ensures taken == old(taken) + old(supply)[..m]
      ensures forall k :: 0 <= k < blkPtr.Length ==>
        blkPtr[k] == if start <= k < start + m then old(supply)[k - start] else old(blkPtr[k])
    {
      var i := start;
      m, ok := 0, true;
      while i < start + n && ok
        invariant i == start + m && m <= n && m <= |old(supply)| && (!ok ==> m < n)
        invariant forall k :: 0 <= k < m ==> old(supply)[k] != 0
        invariant taken == old(taken) + old(supply)[..m]
        invariant if ok then supply == old(supply)[m..] else Failed(old(supply), m, supply)
        invariant forall k :: 0 <= k < blkPtr.Length ==>
          blkPtr[k] == if start <= k < i then old(supply)[k - start] else old(blkPtr[k])
        decreases n - m, ok
      {
        var addr := GetFreePages();
        if addr != 0 {
          blkPtr[i] := addr;
          i, m := i + 1, m + 1;
        } else {
          ok := false;
        }
      }
    }

    /** Fills the empty entries from `start` on with a batch of pages. */
    method Fill(start: nat, n: nat) returns (ok: bool)
      requires start + n <= blkPtr.Length && forall k :: start <= k < start + n ==> blkPtr[k] == 0
      modifies this`supply, this`taken, blkPtr
      ensures ok <==> Granted(old(supply), n) == n
      ensures supply == Left(old(supply), n) && taken == old(taken) + old(supply)[..Granted(old(supply), n)]
      ensures forall k :: start <= k < start + n ==> blkPtr[k] == Batch(old(supply), n)[k - start]
      ensures forall k :: 0 <= k < start || start + n <= k < blkPtr.Length ==> blkPtr[k] == old(blkPtr[k])
    {
      ghost var m;
      ok, m := FillUpTo(start, n);
      GrantedIs(old(supply), n, m);
    }

    /** Adds `blks` entries to the pool. The count is raised before the pages are requested, so a
        failure leaves empty entries behind. */
    method AllocBlocks(blks: nat) returns (ok: bool)
      requires Valid()
      modifies this`blkCnt, this`supply, this`taken, this`blocks, blkPtr
      ensures Valid()
      ensures ok <==> old(blkCnt) + blks <= blkPtr.Length && Granted(old(supply), blks) == blks
      ensures old(blkCnt) + blks > blkPtr.Length ==> blocks == old(blocks) && supply == old(supply)
      ensures old(blkCnt) + blks <= blkPtr.Length ==>
        blocks == old(blocks) + Batch(old(supply), blks) && supply == Left(old(supply), blks)
      ensures old(blkCnt) + blks <= blkPtr.Length ==> blkPtr[..blkCnt] == old(blkPtr[..blkCnt]) + Batch(old(supply), blks)
      ensures old(blkCnt) + blks > blkPtr.Length ==> blkPtr[..blkCnt] == old(blkPtr[..blkCnt])
    {
      if blkCnt + blks > blkPtr.Length {
        return false;
      }
      BatchPages(blocks, supply, blks);
      BatchFits(blocks, supply, blks, blkSize);
      ghost var batch := Batch(supply, blks);
      var start := blkCnt;
      blkCnt := blkCnt + blks;
      ok := Fill(start, blks);
      assert blkPtr[..blkCnt] == old(blkPtr[..blkCnt]) + batch;
      AppendBases(old(blkPtr[..blkCnt]), blocks, batch);
      blocks := blocks + batch;
    }

    /** Searches the pool; whether blocks are matched is decided by the runs. */
    method FindLargest(ghost before: seq<nat>) returns (ghost improved: bool)
      requires Valid() && Published(seg, before, reqSize, blkSize) && seg.length < reqSize && before <= blocks
      modifies this`seg, blkPtr
      ensures Valid() && Published(seg, blocks, reqSize, blkSize) && Matched(blkPtr[..blkCnt], seg, improved, blkSize)
      ensures improved <==> Improves(before, blocks, blkSize)
      ensures if improved then FirstGrown(blocks, seg, reqSize, blkSize) else seg == old(seg)
    {
      var seg0 := seg;
      seg := FindLargestSegment(blkPtr, blkCnt, blkSize, reqSize, seg0, blocks);
      improved := Improves(before, blocks, blkSize);
      SearchMatches(blkPtr[..blkCnt], before, blocks, seg0, seg, reqSize, blkSize);
      forall k | 0 <= k < blkPtr.Length
        ensures k < blkCnt ==> blkPtr[k] == blkPtr[..blkCnt][k]
        ensures k >= blkCnt ==> blkPtr[k] == blkPtr[blkCnt..][k - blkCnt] == old(blkPtr[k])
      {
      }
    }

    /** Adds one more batch; what is matched stays so. */
    method AllocMore(ghost improved: bool) returns (ok: bool)
      requires Valid() && Matched(blkPtr[..blkCnt], seg, improved, blkSize)
      modifies this`blkCnt, this`supply, this`taken, this`blocks, blkPtr
      ensures Valid() && Matched(blkPtr[..blkCnt], seg, improved, blkSize)
      ensures ok <==> old(blkCnt) + MORE_BLOCKS <= blkPtr.Length && Granted(old(supply), MORE_BLOCKS) == MORE_BLOCKS
      ensures old(blkCnt) + MORE_BLOCKS > blkPtr.Length ==> blocks == old(blocks)
      ensures old(blkCnt) + MORE_BLOCKS <= blkPtr.Length ==>
        blocks == old(blocks) + Batch(old(supply), MORE_BLOCKS) && supply == Left(old(supply), MORE_BLOCKS)
    {
      ghost var s := blkPtr[..blkCnt];
      ok := AllocBlocks(MORE_BLOCKS);
      BatchFits([], old(supply), MORE_BLOCKS, blkSize);
      MoreUntagged(s, Batch(old(supply), MORE_BLOCKS), seg, improved, blkSize);
    }

    /** The descriptor serves this request. */
    ghost predicate Serves(r: Request)
      reads this
    {
      r.req == reqSize && r.size == blkSize && r.most == blkPtr.Length
    }

    /** Before search `k`. */
    ghost predicate Ready(r: Request, k: nat)
      reads this, blkPtr
    {
      && Valid() && Serves(r) && CanGrow(r, k) && blocks == Entries(r, k) && supply == RestAt(r, k)
      && Published(seg, Previous(r, k), reqSize, blkSize) && seg.length < reqSize && KnownBefore(r, k, seg)
    }

    /** After the last search. */
    ghost predicate Assembled(r: Request, k: nat, improved: bool)
      reads this, blkPtr
    {
      && Valid() && Serves(r) && LastSearch(r, k) && blocks == AllEntries(r, k)
      && Published(seg, Entries(r, k), reqSize, blkSize) && Matched(blkPtr[..blkCnt], seg, improved, blkSize)
      && (improved <==> Improves(Previous(r, k), Entries(r, k), blkSize)) && KnownAfter(r, k, seg)
    }

    /** After search `k`. */
    ghost predicate Sought(r: Request, k: nat, improved: bool)
      reads this, blkPtr
    {
      && Valid() && Serves(r) && CanGrow(r, k) && blocks == Entries(r, k) && supply == RestAt(r, k)
      && (k > 0 ==> !HasRun(Previous(r, k), r.req, r.size))
      && Published(seg, Entries(r, k), reqSize, blkSize) && Matched(blkPtr[..blkCnt], seg, improved, blkSize)
      && (improved <==> Improves(Previous(r, k), Entries(r, k), blkSize)) && KnownAfter(r, k, seg)
    }

    method Search(ghost r: Request, ghost k: nat) returns (ghost improved: bool)
      requires Ready(r, k)
      modifies this`seg, blkPtr
      ensures Sought(r, k, improved)
    {
      PreviousIsPrefix(r, k);
      MetExactly(seg, Previous(r, k), reqSize, blkSize);
      improved := FindLargest(Previous(r, k));
    }

    /** One more batch after a search that does not meet the request. */
    method More(ghost r: Request, ghost k: nat, ghost improved: bool) returns (more: bool)
      requires Sought(r, k, improved) && seg.length < reqSize
      modifies this`blkCnt, this`supply, this`taken, this`blocks, blkPtr
      ensures if more then Ready(r, k + 1) && blkCnt > old(blkCnt) else Assembled(r, k, improved)
    {
      MetExactly(seg, blocks, reqSize, blkSize);
      GrowStep(r, k);
      more := AllocMore(improved);
      if more {
        NextEntries(r, k);
      }
    }

    /** One round of the loop: a search, and one more batch if it does not meet the request. */
    method Retry(ghost r: Request, ghost k: nat) returns (more: bool, ghost improved: bool)
      requires Ready(r, k)
      modifies this`blkCnt, this`seg, this`supply, this`taken, this`blocks, blkPtr
      ensures if more then Ready(r, k + 1) && blkCnt > old(blkCnt) else Assembled(r, k, improved)
    {
      improved := Search(r, k);
      MetExactly(seg, blocks, reqSize, blkSize);
      if seg.length >= reqSize {
        return false, improved;
      }
      more := More(r, k, improved);
    }

    /** Grows the pool and searches it until the request is met or no more blocks can be had. */
    method Assemble(ghost r: Request) returns (ghost k: nat, ghost improved: bool)
      requires Valid() && Serves(r) && blocks == First(r) && supply == Rest(r) && seg == Segment(0, 0, 0)
      modifies this`blkCnt, this`seg, this`supply, this`taken, this`blocks, blkPtr
      ensures Assembled(r, k, improved) && released == old(released)
    {
      k, improved := 0, false;
      EmptyHasNoRun(1, blkSize);
      var more := true;
      while more
        invariant (if more then Ready(r, k) else Assembled(r, k, improved)) && released == old(released)
        decreases more, blkPtr.Length - blkCnt
      {
        more, improved := Retry(r, k);
        k := if more then k + 1 else k;
      }
    }

    method ReleaseEntry(i: nat)
      requires i < blkPtr.Length
      modifies this`released, blkPtr
      ensures forall k :: 0 <= k < blkPtr.Length && k != i ==> blkPtr[k] == old(blkPtr[k])
      ensures blkPtr[i] == Kept(old(blkPtr[i])) && released == old(released) + Lost(old(blkPtr[i]))
    {
      if Tag(blkPtr[i]) == MATCHED {
        blkPtr[i] := Base(blkPtr[i]);
      } else if blkPtr[i] != 0 {
        blkPtr[i] := Base(blkPtr[i]);
        FreePages(blkPtr[i]);
        blkPtr[i] := 0;
      }
    }

    /** Releases every block outside the segment. */
    method ReleaseUnused()
      requires blkCnt <= blkPtr.Length
      modifies this`released, blkPtr
      ensures AllKept(old(blkPtr[..blkCnt]), blkPtr[..blkCnt])
      ensures released == old(released) + Freed(old(blkPtr[..blkCnt]))
    {
      ghost var s := blkPtr[..blkCnt];
      for i := 0 to blkCnt
        invariant forall k :: 0 <= k < i ==> blkPtr[k] == Kept(s[k])
        invariant forall k :: i <= k < blkCnt ==> blkPtr[k] == s[k]
        invariant released == old(released) + Freed(s[..i])
      {
        FreedStep(s, i);
        ReleaseEntry(i);
      }
      assert s[..blkCnt] == s;
    }

    /** The first batch; whether it was granted is not looked at. */
    method Start(ghost r: Request)
      requires Valid() && Serves(r) && supply == r.supply && blocks == []
      modifies this`blkCnt, this`supply, this`taken, this`blocks, blkPtr
      ensures Valid() && blocks == First(r) && supply == Rest(r) && released == old(released)
    {
      var blks := reqSize / blkSize;
      var _ := AllocBlocks(blks);
      assert [] + Batch(r.supply, blks) == Batch(r.supply, blks);
    }

    method Finish()
      requires Valid() && released == []
      modifies this`released, blkPtr
      ensures AllKept(old(blkPtr[..blkCnt]), blkPtr[..blkCnt]) && Accounted(taken, released, blkPtr[..blkCnt])
    {
      ghost var s := blkPtr[..blkCnt];
      ReleaseUnused();
      ReleasedAccounted(blocks, s, blkPtr[..blkCnt]);
      assert released == Freed(s);
    }

    /** Gives back what is outside the segment. */
    method Conclude(ghost r: Request, ghost k: nat, ghost improved: bool)
      requires Assembled(r, k, improved) && released == []
      modifies this`released, blkPtr
      ensures Outcome(blkPtr[..blkCnt], r, k, seg) && Accounted(taken, released, blkPtr[..blkCnt])
    {
      ghost var s := blkPtr[..blkCnt];
      Finish();
      OutcomeOfSearch(s, blkPtr[..blkCnt], r, k, seg, improved);
    }

    method Build(ghost r: Request) returns (ghost k: nat)
      requires Valid() && Serves(r) && supply == r.supply && blocks == [] && released == [] && seg == Segment(0, 0, 0)
      modifies this`blkCnt, this`seg, this`supply, this`taken, this`released, this`blocks, blkPtr
      ensures blkCnt <= blkPtr.Length && Outcome(blkPtr[..blkCnt], r, k, seg)
      ensures blocks == AllEntries(r, k) && taken == Pages(blocks) && Accounted(taken, released, blkPtr[..blkCnt])
    {
      Start(r);
      ghost var improved;
      k, improved := Assemble(r);
      Conclude(r, k, improved);
    }

    /** Releases every block that is still held. */
    method Free()
      requires blkCnt <= blkPtr.Length && Accounted(taken, released, blkPtr[..blkCnt])
      modifies this`released
      ensures Accounted(taken, released, [])
    {
      for i := 0 to blkCnt
        invariant Accounted(taken, released, blkPtr[i..blkCnt])
      {
        ghost var before := released;
        if blkPtr[i] != 0 {
          FreePages(blkPtr[i]);
        }
        ReleaseFirst(taken, before, blkPtr[i..blkCnt], released);
        assert blkPtr[i..blkCnt][1..] == blkPtr[i + 1..blkCnt];
      }
    }
  }

  /** Obtains a segment of at least `size` bytes; `supply` is what the page allocator answers,
      `memory` tells whether the descriptor itself can be allocated. Of the pages taken, those still
      held and those released account for all, each once. */
  method SegmentAlloc(size: nat, blkSize: nat, totalRam: nat, supply: seq<nat>, memory: bool)
    returns (d: Descriptor?, ghost k: nat)
    requires blkSize < 0x1_0000_0000 && (blkSize > 0 ==> GoodPages(supply, PageAlign(blkSize)))
    ensures d == null <==> size == 0 || blkSize == 0 || !memory
    ensures d != null ==> fresh(d) && fresh(d.blkPtr) && d.blkCnt <= d.blkPtr.Length
    ensures d != null ==> d.reqSize == size && d.blkSize == PageAlign(blkSize)
    ensures d != null ==>
      var r := Request(supply, size, d.blkSize, totalRam / d.blkSize);
      Outcome(d.blkPtr[..d.blkCnt], r, k, d.seg) && d.blocks == AllEntries(r, k)
    ensures d != null ==> d.taken == Pages(d.blocks) && Accounted(d.taken, d.released, d.blkPtr[..d.blkCnt])
  {
    k := 0;
    if size == 0 || blkSize == 0 || !memory {
      return null, 0;
    }
    var aligned: BlockSize := PageAlign(blkSize);
    d := new Descriptor(size, aligned, totalRam, supply);
    k := d.Build(Request(supply, size, aligned, totalRam / aligned));
  }
}
