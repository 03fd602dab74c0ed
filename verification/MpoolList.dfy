/**
 The first-fit pool allocator on values: a list of blocks in address order between two sentinels.
 */
module MpoolList {

  /** A list node: a live block, or a sentinel of size 0 at either end of the pool. */
  datatype Block = Block(address: int, size: int, kind: int)

  const LINE := 256

  function End(b: Block): int { b.address + b.size }

  /** The free space behind block `i`. */
  function Gap(s: seq<Block>, i: nat): int
    requires i + 1 < |s|
  {
    s[i + 1].address - End(s[i])
  }

  // ---- Sizes ----

  /** A C int. */
  type CInt = x: int | -0x8000_0000 <= x < 0x8000_0000

  /** The value that the 32 bits of a C int hold. */
  function ToInt(x: int): CInt { (x + 0x8000_0000) % 0x1_0000_0000 - 0x8000_0000 }

  /** The size rounded up to whole lines, with the wrap-around of the C int. */
  function RoundUp(size: CInt): CInt {
    if size % LINE == 0 then size else ToInt(size + (LINE - size % LINE))
  }

  /** The sizes that can be allocated: positive, and so that rounding does not wrap. */
  predicate IsSize(size: CInt) { 0 < size <= 0x7FFF_FF00 }

  /** Rounding a C int gives a positive number of whole lines exactly if it is positive and does not
      wrap. */
  lemma RoundUpExactly(size: CInt)
    ensures RoundUp(size) % LINE == 0
    ensures RoundUp(size) > 0 <==> IsSize(size)
    ensures RoundUp(size) > 0 ==> size <= RoundUp(size) < size + LINE
  {
  }

  // ---- First fit ----

  predicate Fits(s: seq<Block>, i: int, size: int) {
    0 <= i && i + 1 < |s| && Gap(s, i) >= size
  }

  /** The first block at or behind `i` with a large enough gap behind it; the last node if there is none. */
  function FirstFit(s: seq<Block>, i: nat, size: int): (j: nat)
    requires i < |s|
    ensures i <= j < |s| && (j + 1 < |s| ==> Fits(s, j, size)) && forall k :: i <= k < j ==> !Fits(s, k, size)
    decreases |s| - i
  {
    if i + 1 == |s| || Fits(s, i, size) then i else FirstFit(s, i + 1, size)
  }

  function NewBlock(s: seq<Block>, i: nat, size: int, kind: int): Block
    requires i < |s|
  {
    Block(End(s[i]), size, kind)
  }

  /** Some gap is large enough. */
  ghost predicate HasRoom(s: seq<Block>, size: int) {
    exists i :: Fits(s, i, size)
  }

  /** The address of the lowest gap that is large enough. */
  function FitAddress(s: seq<Block>, size: int): int
    requires s != []
  {
    End(s[FirstFit(s, 0, size)])
  }

  function InsertAt(s: seq<Block>, i: nat, b: Block): seq<Block>
    requires i < |s|
  {
    s[..i + 1] + [b] + s[i + 1..]
  }

  /** The list after an allocation; unchanged if nothing fits. */
  function Alloc(s: seq<Block>, size: int, kind: int): seq<Block>
    requires s != []
  {
    var i := FirstFit(s, 0, size);
    if i + 1 == |s| then s else InsertAt(s, i, NewBlock(s, i, size, kind))
  }

  /** The first node at or behind `i` whose successor has the address; the last node if there is none. */
  function Before(s: seq<Block>, i: nat, address: int): (j: nat)
    requires i < |s|
    ensures i <= j < |s| && (j + 1 < |s| ==> s[j + 1].address == address)
    ensures forall k :: i < k <= j ==> s[k].address != address
    decreases |s| - i
  {
    if i + 1 == |s| || s[i + 1].address == address then i else Before(s, i + 1, address)
  }

  function RemoveAt(s: seq<Block>, i: nat): seq<Block>
    requires i < |s|
  {
    s[..i] + s[i + 1..]
  }

  /** The list after freeing an address; unchanged if no node behind the head has it. */
  function Free(s: seq<Block>, address: int): seq<Block>
    requires s != []
  {
    var i := Before(s, 0, address);
    if i + 1 == |s| then s else RemoveAt(s, i + 1)
  }

  // ---- Pools ----

  predicate IsLive(s: seq<Block>, i: int) {
    0 < i < |s| - 1
  }

  /** A block of whole lines that starts on a line. */
  predicate WholeLines(b: Block) { b.size > 0 && b.size % LINE == 0 && b.address % LINE == 0 }

  /** A pool over [base, top): sentinels at both ends, live blocks of whole lines in address order
      between them, each starting on a line. */
  ghost predicate Pool(s: seq<Block>, base: int, top: int) {
    && |s| >= 2 && s[0].address == base && s[0].size == 0 && s[|s| - 1].address == top && s[|s| - 1].size == 0
    && base % LINE == 0
    && (forall i :: 0 <= i < |s| - 1 ==> Gap(s, i) >= 0)
    && (forall i :: IsLive(s, i) ==> WholeLines(s[i]))
  }

  lemma {:induction false} Ordered(s: seq<Block>, base: int, top: int, i: nat, j: nat)
    requires Pool(s, base, top) && i < j < |s|
    ensures End(s[i]) <= s[j].address
    decreases j - i
  {
    assert Gap(s, j - 1) >= 0;
    if i < j - 1 {
      Ordered(s, base, top, i, j - 1);
      assert IsLive(s, j - 1);
    }
  }

  predicate Disjoint(a: Block, b: Block) {
    End(a) <= b.address || End(b) <= a.address
  }

  /** Live blocks are pairwise disjoint and inside the pool. */
  lemma LiveBlocksApart(s: seq<Block>, base: int, top: int, i: nat, j: nat)
    requires Pool(s, base, top) && IsLive(s, i) && IsLive(s, j)
    ensures base <= s[i].address < End(s[i]) <= top
    ensures i != j ==> Disjoint(s[i], s[j]) && s[i].address != s[j].address
  {
    Ordered(s, base, top, 0, i);
    Ordered(s, base, top, i, |s| - 1);
    if i < j {
      Ordered(s, base, top, i, j);
    } else if j < i {
      Ordered(s, base, top, j, i);
    }
  }

  /** Allocation keeps the pool, for every size that is a positive number of lines. */
  lemma AllocKeepsPool(s: seq<Block>, base: int, top: int, size: int, kind: int)
    requires Pool(s, base, top) && size > 0 && size % LINE == 0
    ensures Pool(Alloc(s, size, kind), base, top)
  {
    var i := FirstFit(s, 0, size);
    if i + 1 < |s| {
      InsertKeepsPool(s, base, top, i, size, kind);
    }
  }

  lemma InsertedAt(s: seq<Block>, i: nat, b: Block, k: nat)
    requires i + 1 < |s| && k < |s| + 1
    ensures InsertAt(s, i, b)[k] == if k <= i then s[k] else if k == i + 1 then b else s[k - 1]
  {
  }

  lemma InsertedGap(s: seq<Block>, base: int, top: int, i: nat, b: Block, k: nat)
    requires Pool(s, base, top) && i + 1 < |s| && k < |s| && b.address == End(s[i]) && b.size <= Gap(s, i)
    ensures Gap(InsertAt(s, i, b), k) >= 0
  {
    InsertedAt(s, i, b, k);
    InsertedAt(s, i, b, k + 1);
    assert k < i ==> Gap(s, k) >= 0;
    assert k > i + 1 ==> Gap(s, k - 1) >= 0;
  }

  lemma InsertedLive(s: seq<Block>, base: int, top: int, i: nat, b: Block, k: nat)
    requires Pool(s, base, top) && i + 1 < |s| && WholeLines(b) && IsLive(InsertAt(s, i, b), k)
    ensures WholeLines(InsertAt(s, i, b)[k])
  {
    InsertedAt(s, i, b, k);
    assert k <= i ==> IsLive(s, k);
    assert k > i + 1 ==> IsLive(s, k - 1);
  }

  lemma InsertKeepsPool(s: seq<Block>, base: int, top: int, i: nat, size: int, kind: int)
    requires Pool(s, base, top) && size > 0 && size % LINE == 0 && Fits(s, i, size)
    ensures Pool(InsertAt(s, i, NewBlock(s, i, size, kind)), base, top)
  {
    var b := NewBlock(s, i, size, kind);
    var t := InsertAt(s, i, b);
    assert WholeLines(b) by {
      assert i > 0 ==> IsLive(s, i);
      assert i == 0 ==> b.address == base;
    }
    forall k | 0 <= k < |t| - 1
      ensures Gap(t, k) >= 0
    {
      InsertedGap(s, base, top, i, b, k);
    }
    forall k | IsLive(t, k)
      ensures WholeLines(t[k])
    {
      InsertedLive(s, base, top, i, b, k);
    }
    InsertedAt(s, i, b, 0);
    InsertedAt(s, i, b, |s|);
  }

  /** Allocation of any C int keeps the pool exactly if the size can be allocated. Any other size fits
      anywhere, and a block without lines is linked in. */
  lemma AllocExactly(s: seq<Block>, base: int, top: int, size: CInt, kind: int)
    requires Pool(s, base, top)
    ensures Pool(Alloc(s, RoundUp(size), kind), base, top) <==> IsSize(size)
  {
    RoundUpExactly(size);
    if IsSize(size) {
      AllocKeepsPool(s, base, top, RoundUp(size), kind);
    } else {
      EmptyBlockLinked(s, base, top, RoundUp(size), kind);
    }
  }

  lemma EmptyBlockLinked(s: seq<Block>, base: int, top: int, size: int, kind: int)
    requires Pool(s, base, top) && size <= 0
    ensures !Pool(Alloc(s, size, kind), base, top)
  {
    assert Fits(s, 0, size);
    var t := Alloc(s, size, kind);
    assert t == InsertAt(s, 0, NewBlock(s, 0, size, kind));
    assert IsLive(t, 1) && t[1].size <= 0;
  }

  /** A live address belongs to one block only. */
  lemma FreeFinds(s: seq<Block>, base: int, top: int, i: nat)
    requires Pool(s, base, top) && IsLive(s, i)
    ensures Free(s, s[i].address) == RemoveAt(s, i)
  {
    var j := Before(s, 0, s[i].address);
    assert j + 1 <= i;
    if j + 1 < i {
      LiveBlocksApart(s, base, top, j + 1, i);
    }
  }

  lemma RemoveKeepsPool(s: seq<Block>, base: int, top: int, i: nat)
    requires Pool(s, base, top) && IsLive(s, i)
    ensures Pool(RemoveAt(s, i), base, top)
  {
    var t := RemoveAt(s, i);
    assert Gap(s, i - 1) >= 0 && Gap(s, i) >= 0 && s[i].size > 0;
    forall k | 0 <= k < |t| - 1
      ensures Gap(t, k) >= 0
    {
      assert k < i - 1 ==> Gap(t, k) == Gap(s, k);
      assert k > i - 1 ==> Gap(t, k) == Gap(s, k + 1);
    }
    forall k | IsLive(t, k)
      ensures WholeLines(t[k])
    {
      assert k < i ==> t[k] == s[k] && IsLive(s, k);
      assert k >= i ==> t[k] == s[k + 1] && IsLive(s, k + 1);
    }
  }

  /** Freeing a live block removes it and keeps the pool. */
  lemma FreeKeepsPool(s: seq<Block>, base: int, top: int, i: nat)
    requires Pool(s, base, top) && IsLive(s, i)
    ensures Free(s, s[i].address) == RemoveAt(s, i) && Pool(Free(s, s[i].address), base, top)
  {
    FreeFinds(s, base, top, i);
    RemoveKeepsPool(s, base, top, i);
  }

  /** Freeing any address keeps the pool, except the address of the sentinel at its end. */
  lemma FreeExactly(s: seq<Block>, base: int, top: int, address: int)
    requires Pool(s, base, top)
    ensures Pool(Free(s, address), base, top) <==> address != top
  {
    var i := Before(s, 0, address);
    if i + 1 < |s| - 1 {
      LiveBlocksApart(s, base, top, i + 1, i + 1);
      FreeKeepsPool(s, base, top, i + 1);
    } else if i + 1 == |s| - 1 {
      var t := Free(s, address);
      assert t == s[..|s| - 1];
      assert |t| >= 2 ==> IsLive(s, |t| - 1) && t[|t| - 1] == s[|t| - 1];
    } else {
      assert s[|s| - 1].address != address;
    }
  }

  // ---- Completeness, reversal, conservation ----

  /** An allocation fails exactly if no gap is large enough; else it takes the lowest such gap. */
  lemma FirstFitExactly(s: seq<Block>, size: int, kind: int)
    requires s != []
    ensures Alloc(s, size, kind) == s <==> forall i :: 0 <= i < |s| - 1 ==> Gap(s, i) < size
    ensures Alloc(s, size, kind) != s ==>
      exists i :: Fits(s, i, size) && (forall k :: 0 <= k < i ==> !Fits(s, k, size))
        && Alloc(s, size, kind) == s[..i + 1] + [Block(s[i].address + s[i].size, size, kind)] + s[i + 1..]
  {
    var i := FirstFit(s, 0, size);
    if i + 1 < |s| {
      assert Fits(s, i, size);
      var b := Block(s[i].address + s[i].size, size, kind);
      assert Alloc(s, size, kind) == s[..i + 1] + [b] + s[i + 1..];
      assert |Alloc(s, size, kind)| == |s| + 1;
    } else {
      forall k | 0 <= k < |s| - 1
        ensures Gap(s, k) < size
      {
        assert !Fits(s, k, size);
      }
    }
  }

  /** Freeing the address that an allocation returned restores the list. */
  lemma FreeUndoesAlloc(s: seq<Block>, base: int, top: int, size: int, kind: int)
    requires Pool(s, base, top) && size > 0 && size % LINE == 0 && HasRoom(s, size)
    ensures Free(Alloc(s, size, kind), FitAddress(s, size)) == s
  {
    var i := FirstFit(s, 0, size);
    InsertKeepsPool(s, base, top, i, size, kind);
    FreeInserted(s, base, top, i, NewBlock(s, i, size, kind));
  }

  lemma FreeInserted(s: seq<Block>, base: int, top: int, i: nat, b: Block)
    requires i + 1 < |s| && Pool(InsertAt(s, i, b), base, top)
    ensures Free(InsertAt(s, i, b), b.address) == s
  {
    var t := InsertAt(s, i, b);
    assert IsLive(t, i + 1) && t[i + 1] == b;
    FreeFinds(t, base, top, i + 1);
    RemoveInserted(s, i, b);
  }

  lemma RemoveInserted(s: seq<Block>, i: nat, b: Block)
    requires i < |s|
    ensures RemoveAt(InsertAt(s, i, b), i + 1) == s
  {
  }

  function Sizes(s: seq<Block>): int {
    if s == [] then 0 else Sizes(s[..|s| - 1]) + s[|s| - 1].size
  }

  /** What `dal_mpool_usage` counts: the blocks of a kind. */
  function Usage(s: seq<Block>, kind: int): int {
    if s == [] then 0
    else Usage(s[..|s| - 1], kind) + if s[|s| - 1].kind == kind || s[|s| - 1].kind == -1 then s[|s| - 1].size else 0
  }

  function Gaps(s: seq<Block>): int {
    if |s| <= 1 then 0 else Gaps(s[..|s| - 1]) + Gap(s, |s| - 2)
  }

  /** Live sizes and gaps add up to the size of the pool. */
  lemma {:induction false} Conservation(s: seq<Block>)
    requires s != []
    ensures Sizes(s) + Gaps(s) == End(s[|s| - 1]) - s[0].address
  {
    var n := |s| - 1;
    if n > 0 {
      Conservation(s[..n]);
    } else {
      assert Sizes(s[..0]) == 0;
    }
  }

  lemma {:induction false} UsageConcat(s: seq<Block>, t: seq<Block>, kind: int)
    ensures Usage(s + t, kind) == Usage(s, kind) + Usage(t, kind)
  {
    if t == [] {
      assert s + t == s;
    } else {
      var n := |t| - 1;
      assert (s + t)[..|s + t| - 1] == s + t[..n];
      UsageConcat(s, t[..n], kind);
    }
  }

  /** Sentinels do not count. */
  lemma UsageOfSentinels(a: Block, b: Block, kind: int)
    requires a.size == b.size == 0
    ensures Usage([a, b], kind) == 0
  {
    assert [a, b][..1] == [a] && [a][..0] == [];
    assert Usage([a][..0], kind) == 0;
    assert Usage([a], kind) == 0;
  }

  /** A successful allocation raises the usage of its kind by the size, and no other. */
  lemma AllocUsage(s: seq<Block>, size: int, kind: int, other: int)
    requires s != [] && Alloc(s, size, kind) != s
    ensures Usage(Alloc(s, size, kind), other) == Usage(s, other) + if kind == other || kind == -1 then size else 0
  {
    var i := FirstFit(s, 0, size);
    var b := NewBlock(s, i, size, kind);
    UsageConcat(s[..i + 1] + [b], s[i + 1..], other);
    UsageConcat(s[..i + 1], [b], other);
    UsageConcat(s[..i + 1], s[i + 1..], other);
    assert s[..i + 1] + s[i + 1..] == s;
    assert Usage([b][..0], other) == 0;
  }
}
