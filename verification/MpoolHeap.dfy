/**
 The allocator on its linked list.
 */
module MpoolHeap {
  import opened Wrappers
  import opened MpoolList
  import opened MpoolRuns

  class Mem {
    const address: int
    const size: int
    const kind: int
    var next: Mem?

    constructor (address: int, size: int, kind: int, next: Mem?)
      ensures this.address == address && this.size == size && this.kind == kind && this.next == next
    {
      this.address, this.size, this.kind, this.next := address, size, kind, next;
    }

    function Value(): Block { Block(address, size, kind) }
  }

  function Values(chain: seq<Mem>): (r: seq<Block>)
    ensures |r| == |chain| && forall i :: 0 <= i < |r| ==> r[i] == chain[i].Value()
  {
    seq(|chain|, i requires 0 <= i < |chain| => chain[i].Value())
  }

  /** The next pointers lead through the chain. */
  ghost predicate Linked(head: Mem?, chain: seq<Mem>)
    reads chain
  {
    && head == (if chain == [] then null else chain[0])
    && forall i :: 0 <= i < |chain| ==> chain[i].next == After(chain, i)
  }

  /** The node behind position `i`. */
  function After(chain: seq<Mem>, i: nat): Mem? {
    if i + 1 < |chain| then chain[i + 1] else null
  }

  lemma InsertedDistinct(chain: seq<Mem>, i: nat, r: Mem)
    requires Distinct(chain) && r !in chain && i < |chain|
    ensures Distinct(Inserted(chain, i, r))
  {
  }

  lemma RemovedDistinct(chain: seq<Mem>, i: nat)
    requires Distinct(chain) && i + 1 < |chain|
    ensures Distinct(chain[..i + 1] + chain[i + 2..])
  {
  }

  /** The chain without the node behind position `i`, once its predecessor points past it. */
  lemma RemovedLinked(chain: seq<Mem>, i: nat, k: nat)
    requires i + 1 < |chain| && k + 1 < |chain|
    ensures var c := chain[..i + 1] + chain[i + 2..];
            && c[k] == chain[if k <= i then k else k + 1]
            && After(c, k) == After(chain, if k < i then k else k + 1)
  {
  }

  function Inserted(chain: seq<Mem>, i: nat, r: Mem): seq<Mem>
    requires i < |chain|
  {
    chain[..i + 1] + [r] + chain[i + 1..]
  }

  lemma ValuesAllocated(chain: seq<Mem>, i: nat, r: Mem, size: int, kind: int)
    requires i + 1 < |chain| && i == FirstFit(Values(chain), 0, size)
    requires r.Value() == Block(chain[i].address + chain[i].size, size, kind)
    ensures Values(Inserted(chain, i, r)) == Alloc(Values(chain), size, kind)
    ensures r.Value() == NewBlock(Values(chain), FirstFit(Values(chain), 0, size), size, kind)
  {
  }

  lemma ValuesRemoved(chain: seq<Mem>, i: nat)
    requires i + 1 < |chain|
    ensures Values(chain[..i + 1] + chain[i + 2..]) == RemoveAt(Values(chain), i + 1)
  {
  }

  method RoundLines(size: CInt) returns (lines: CInt)
    ensures lines == RoundUp(size)
  {
    var mod := size % LINE;
    lines := size;
    if mod != 0 {
      lines := ToInt(size + (LINE - mod));
    }
  }

  /** A pool: null before it is created. */
  class Pool {
    var head: Mem?
    ghost var chain: seq<Mem>

    ghost predicate Valid()
      reads this, chain
    {
      Linked(head, chain) && Distinct(chain)
    }

    /** The two sentinels of a new pool, if memory for both can be had. */
    method Create(base: int, size: int, kind: int, junk: int, memory: bool)
      modifies this
      ensures Valid() && Values(chain) == if memory then NewPool(base, size, kind, junk) else []
    {
      if !memory {
        head, chain := null, [];
        return;
      }
      var tail := new Mem(base + size, 0, junk, null);
      head := new Mem(base, 0, kind, tail);
      chain := [head, tail];
    }

    /** Walks to the first node with a large enough gap behind it, or to the last node. */
    method WalkToFit(size: int) returns (ptr: Mem, ghost i: nat)
      requires Valid() && chain != []
      ensures i < |chain| && ptr == chain[i] && i == FirstFit(Values(chain), 0, size)
    {
      ptr, i := head, 0;
      while ptr.next != null && ptr.next.address - (ptr.address + ptr.size) < size
        invariant i < |chain| && ptr == chain[i] && FirstFit(Values(chain), i, size) == FirstFit(Values(chain), 0, size)
        decreases |chain| - i
      {
        assert chain[i].next == After(chain, i);
        ptr, i := ptr.next, i + 1;
      }
      assert chain[i].next == After(chain, i);
    }

    method LinkBehind(ptr: Mem, r: Mem, ghost i: nat)
      requires Valid() && i < |chain| && ptr == chain[i] && r !in chain && r.next == After(chain, i)
      modifies this`chain, ptr
      ensures Valid() && chain == Inserted(old(chain), i, r)
    {
      ghost var c := Inserted(chain, i, r);
      InsertedDistinct(chain, i, r);
      ptr.next := r;
      forall k | 0 <= k < |c|
        ensures c[k].next == After(c, k)
      {
        assert k < i ==> c[k] == chain[k] && c[k].next == chain[k + 1];
        assert k == i + 1 ==> c[k] == r;
        assert k > i + 1 ==> c[k] == chain[k - 1] && c[k].next == After(chain, k - 1);
      }
      chain := c;
    }

    method InsertBehind(ptr: Mem, size: int, kind: int, ghost i: nat) returns (r: Mem)
      requires Valid() && i < |chain| && ptr == chain[i]
      modifies this`chain, ptr
      ensures Valid() && chain == Inserted(old(chain), i, r)
      ensures r.Value() == Block(ptr.address + ptr.size, size, kind)
    {
      r := new Mem(ptr.address + ptr.size, size, kind, ptr.next);
      LinkBehind(ptr, r, i);
    }

    /** First fit: a node for the new block is linked in behind the one found. */
    method AllocCommon(size: int, kind: int, memory: bool) returns (r: Mem?)
      requires Valid()
      modifies this`chain, chain
      ensures Valid()
      ensures r != null <==> memory && HasRoom(Values(old(chain)), size)
      ensures r == null ==> chain == old(chain)
      ensures r != null ==> Values(chain) == Alloc(Values(old(chain)), size, kind)
      ensures r != null ==> r.Value() == NewBlock(Values(old(chain)), FirstFit(Values(old(chain)), 0, size), size, kind)
    {
      if head == null {
        return null;
      }
      ghost var i;
      var ptr;
      ptr, i := WalkToFit(size);
      assert chain[i].next == After(chain, i);
      if ptr.next == null || !memory {
        return null;
      }
      r := InsertBehind(ptr, size, kind, i);
      ValuesAllocated(old(chain), i, r, size, kind);
    }

    /** Allocates a size rounded up to whole lines. */
    method AllocLines(size: CInt, kind: int, memory: bool) returns (address: Option<int>)
      requires Valid()
      modifies this`chain, chain
      ensures Valid()
      ensures address.Some? <==> memory && HasRoom(Values(old(chain)), RoundUp(size))
      ensures address.None? ==> chain == old(chain)
      ensures address.Some? ==> Values(chain) == Alloc(Values(old(chain)), RoundUp(size), kind)
      ensures address.Some? ==> address.value == FitAddress(Values(old(chain)), RoundUp(size))
    {
      var lines := RoundLines(size);
      var r := AllocCommon(lines, kind, memory);
      address := if r == null then None else Some(r.address);
    }

    method WalkToBefore(address: int) returns (ptr: Mem, ghost i: nat)
      requires Valid() && chain != []
      ensures i < |chain| && ptr == chain[i] && i == Before(Values(chain), 0, address)
    {
      ptr, i := head, 0;
      while ptr.next != null && ptr.next.address != address
        invariant i < |chain| && ptr == chain[i] && Before(Values(chain), i, address) == Before(Values(chain), 0, address)
        decreases |chain| - i
      {
        assert chain[i].next == After(chain, i);
        ptr, i := ptr.next, i + 1;
      }
      assert chain[i].next == After(chain, i);
    }

    method Unlink(prev: Mem, ghost i: nat)
      requires Valid() && i + 1 < |chain| && prev == chain[i]
      modifies this`chain, prev
      ensures Valid() && chain == old(chain)[..i + 1] + old(chain)[i + 2..]
    {
      ghost var before := chain;
      assert chain[i].next == After(chain, i) && chain[i + 1].next == After(chain, i + 1);
      RemovedDistinct(chain, i);
      prev.next := prev.next.next;
      chain := chain[..i + 1] + chain[i + 2..];
      forall k | 0 <= k < |chain|
        ensures chain[k].next == After(chain, k)
      {
        RemovedLinked(before, i, k);
        assert k != i ==> before[if k < i then k else k + 1] != prev;
      }
    }

    /** Unlinks the first node behind the head that has the address, if there is one. */
    method FreeCommon(address: int)
      requires Valid()
      modifies this`chain, chain
      ensures Valid()
      ensures Values(chain) == if old(chain) == [] then [] else Free(Values(old(chain)), address)
    {
      if head == null {
        return;
      }
      ghost var i;
      var prev;
      prev, i := WalkToBefore(address);
      assert chain[i].next == After(chain, i);
      if prev.next != null {
        Unlink(prev, i);
        ValuesRemoved(old(chain), i);
      }
    }

    /** The bytes in use by blocks of a kind. */
    method Usage(kind: int) returns (usage: int)
      requires Valid()
      ensures usage == MpoolList.Usage(Values(chain), kind)
    {
      usage := 0;
      var ptr := head;
      ghost var i := 0;
      while ptr != null
        invariant i <= |chain| && ptr == (if i < |chain| then chain[i] else null)
        invariant usage == MpoolList.Usage(Values(chain)[..i], kind)
        decreases |chain| - i
      {
        assert Values(chain)[..i + 1][..i] == Values(chain)[..i];
        if ptr.kind == kind || ptr.kind == -1 {
          usage := usage + ptr.size;
        }
        assert chain[i].next == After(chain, i);
        ptr, i := ptr.next, i + 1;
      }
      assert Values(chain)[..|chain|] == Values(chain);
    }
  }
}
