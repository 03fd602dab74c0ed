/**
 The descriptor pool and the data pool of a chip over all runs of allocations and frees.
 */
module MpoolRuns {
  import opened MpoolList

  const DESC := 1
  const DATA := 2

  /** The part of the region that is given to descriptors, whatever the size of the region. */
  const DESC_SIZE := 1024 * 1024

  datatype Chip = Chip(desc: seq<Block>, data: seq<Block>)

  // ---- Creation ----

  function AlignedBase(base: int): int {
    if base % LINE == 0 then base else base + (LINE - base % LINE)
  }

  function AlignedSize(base: int, size: int): int {
    var left := if base % LINE == 0 then size else size - (LINE - base % LINE);
    left - left % LINE
  }

  function NewPool(base: int, size: int, kind: int, junk: int): seq<Block> {
    [Block(base, 0, kind), Block(base + size, 0, junk)]
  }

  /** The pools of a region; the type of an end sentinel is not set. */
  function Create(base: int, size: int, junk: int): Chip {
    var b := AlignedBase(base);
    Chip(NewPool(b, DESC_SIZE, DESC, junk), NewPool(b + DESC_SIZE, AlignedSize(base, size) - DESC_SIZE, DATA, junk))
  }

  /** The rounded region lies inside the given one and loses less than a line at either end. */
  lemma AlignedRegion(base: int, size: int)
    ensures AlignedBase(base) % LINE == 0 && AlignedSize(base, size) % LINE == 0
    ensures base <= AlignedBase(base) < base + LINE
    ensures AlignedBase(base) + AlignedSize(base, size) <= base + size < AlignedBase(base) + AlignedSize(base, size) + LINE
  {
  }

  // ---- Runs ----

  datatype Step = AllocDesc(size: CInt) | AllocData(size: CInt) | FreeDesc(address: int) | FreeData(address: int)

  function Next(c: Chip, step: Step): (r: Chip)
    requires c.desc != [] && c.data != []
    ensures r.desc != [] && r.data != []
  {
    match step
    case AllocDesc(size) => c.(desc := Alloc(c.desc, RoundUp(size), DESC))
    case AllocData(size) => c.(data := Alloc(c.data, RoundUp(size), DATA))
    case FreeDesc(a) => c.(desc := Free(c.desc, a))
    case FreeData(a) => c.(data := Free(c.data, a))
  }

  function Run(from: Chip, steps: seq<Step>): (r: Chip)
    requires from.desc != [] && from.data != []
    ensures r.desc != [] && r.data != []
  {
    if steps == [] then from else Next(Run(from, steps[..|steps| - 1]), steps[|steps| - 1])
  }

  /** A pool whose end lies before its start: it stays empty. */
  predicate IsShut(s: seq<Block>, base: int, top: int) {
    |s| == 2 && s[0].address == base && s[0].size == 0 && s[1].address == top < base
  }

  ghost predicate Sound(c: Chip, base: int, size: int) {
    && Pool(c.desc, base, base + DESC_SIZE)
    && (if size >= DESC_SIZE then Pool(c.data, base + DESC_SIZE, base + size)
        else IsShut(c.data, base + DESC_SIZE, base + size))
  }

  /** What a caller has to observe, whatever the state: sizes can be allocated, and the address of an end
      sentinel is not freed. A data pool without room also turns down sizes that are not negative enough
      to fit. */
  predicate Allowed(step: Step, base: int, size: int) {
    match step
    case AllocDesc(n) => IsSize(n)
    case AllocData(n) => if size >= DESC_SIZE then IsSize(n) else RoundUp(n) > size - DESC_SIZE
    case FreeDesc(a) => a != base + DESC_SIZE
    case FreeData(a) => a != base + size
  }

  predicate AllAllowed(steps: seq<Step>, base: int, size: int) {
    forall i :: 0 <= i < |steps| ==> Allowed(steps[i], base, size)
  }

  lemma ShutExactly(s: seq<Block>, base: int, top: int, n: int, kind: int, address: int)
    requires IsShut(s, base, top)
    ensures IsShut(Alloc(s, n, kind), base, top) <==> n > top - base
    ensures IsShut(Free(s, address), base, top) <==> address != top
  {
    assert Fits(s, 0, n) <==> n <= top - base;
  }

  /** A step keeps both pools if and only if it is allowed. */
  lemma StepExactly(c: Chip, step: Step, base: int, size: int)
    requires Sound(c, base, size)
    ensures Sound(Next(c, step), base, size) <==> Allowed(step, base, size)
  {
    match step
    case AllocDesc(n) => AllocExactly(c.desc, base, base + DESC_SIZE, n, DESC);
    case FreeDesc(a) => FreeExactly(c.desc, base, base + DESC_SIZE, a);
    case AllocData(n) =>
      if size >= DESC_SIZE {
        AllocExactly(c.data, base + DESC_SIZE, base + size, n, DATA);
      } else {
        ShutExactly(c.data, base + DESC_SIZE, base + size, RoundUp(n), DATA, 0);
      }
    case FreeData(a) =>
      if size >= DESC_SIZE {
        FreeExactly(c.data, base + DESC_SIZE, base + size, a);
      } else {
        ShutExactly(c.data, base + DESC_SIZE, base + size, 0, DATA, a);
      }
  }

  /** Both pools are kept after every step. */
  ghost predicate AlwaysSound(from: Chip, steps: seq<Step>, base: int, size: int)
    requires from.desc != [] && from.data != []
  {
    forall n :: 0 <= n <= |steps| ==> Sound(Run(from, steps[..n]), base, size)
  }

  lemma AlwaysSoundStep(from: Chip, steps: seq<Step>, base: int, size: int)
    requires from.desc != [] && from.data != [] && steps != []
    ensures AlwaysSound(from, steps, base, size) <==>
      AlwaysSound(from, steps[..|steps| - 1], base, size) && Sound(Run(from, steps), base, size)
  {
    var before := steps[..|steps| - 1];
    assert steps[..|steps|] == steps;
    assert forall n :: 0 <= n < |steps| ==> before[..n] == steps[..n];
  }

  lemma AllAllowedStep(steps: seq<Step>, base: int, size: int)
    requires steps != []
    ensures AllAllowed(steps, base, size) <==>
      AllAllowed(steps[..|steps| - 1], base, size) && Allowed(steps[|steps| - 1], base, size)
  {
  }

  lemma SoundAtEnd(from: Chip, steps: seq<Step>, base: int, size: int)
    requires from.desc != [] && from.data != [] && AlwaysSound(from, steps, base, size)
    ensures Sound(Run(from, steps), base, size)
  {
    assert steps[..|steps|] == steps;
  }

  /** A run keeps both pools throughout if and only if all its steps are allowed. */
  lemma {:induction false} RunSoundExactly(from: Chip, steps: seq<Step>, base: int, size: int)
    requires Sound(from, base, size)
    ensures AlwaysSound(from, steps, base, size) <==> AllAllowed(steps, base, size)
  {
    if steps == [] {
      assert steps[..0] == [];
    } else {
      var before := steps[..|steps| - 1];
      RunSoundExactly(from, before, base, size);
      AlwaysSoundStep(from, steps, base, size);
      AllAllowedStep(steps, base, size);
      if AlwaysSound(from, before, base, size) {
        SoundAtEnd(from, before, base, size);
        StepExactly(Run(from, before), steps[|steps| - 1], base, size);
      }
    }
  }

  lemma RunKeepsSound(from: Chip, steps: seq<Step>, base: int, size: int)
    requires Sound(from, base, size) && AllAllowed(steps, base, size)
    ensures Sound(Run(from, steps), base, size)
  {
    RunSoundExactly(from, steps, base, size);
    SoundAtEnd(from, steps, base, size);
  }

  lemma CreateSound(base: int, size: int, junk: int)
    ensures Sound(Create(base, size, junk), AlignedBase(base), AlignedSize(base, size))
  {
    AlignedRegion(base, size);
  }

  /** Over all runs, whatever the region: live blocks of a pool are pairwise disjoint, on line
      boundaries, and inside their pool; and no descriptor block overlaps a data block. */
  lemma NoOverlapInAnyRun(base: int, size: int, junk: int, steps: seq<Step>, i: nat, j: nat)
    requires AllAllowed(steps, AlignedBase(base), AlignedSize(base, size))
    ensures var c := Run(Create(base, size, junk), steps);
            && (IsLive(c.desc, i) && IsLive(c.desc, j) && i != j ==> Disjoint(c.desc[i], c.desc[j]))
            && (IsLive(c.data, i) && IsLive(c.data, j) && i != j ==> Disjoint(c.data[i], c.data[j]))
            && (IsLive(c.desc, i) && IsLive(c.data, j) ==> Disjoint(c.desc[i], c.data[j]))
            && (IsLive(c.desc, i) ==> c.desc[i].address % LINE == 0)
            && (IsLive(c.data, j) ==> c.data[j].address % LINE == 0)
  {
    var b, n := AlignedBase(base), AlignedSize(base, size);
    var c := Run(Create(base, size, junk), steps);
    CreateSound(base, size, junk);
    RunKeepsSound(Create(base, size, junk), steps, b, n);
    if IsLive(c.desc, i) {
      LiveBlocksApart(c.desc, b, b + DESC_SIZE, i, if IsLive(c.desc, j) then j else i);
    }
    if IsLive(c.data, j) {
      LiveBlocksApart(c.data, b + DESC_SIZE, b + n, j, if IsLive(c.data, i) then i else j);
    }
  }

  predicate Inside(b: Block, base: int, size: int) {
    base <= b.address && End(b) <= base + size
  }

  /** Data blocks always stay inside the region. */
  lemma DataInside(base: int, size: int, junk: int, steps: seq<Step>, i: nat)
    requires AllAllowed(steps, AlignedBase(base), AlignedSize(base, size))
    requires IsLive(Run(Create(base, size, junk), steps).data, i)
    ensures Inside(Run(Create(base, size, junk), steps).data[i], AlignedBase(base), AlignedSize(base, size))
  {
    var b, n := AlignedBase(base), AlignedSize(base, size);
    CreateSound(base, size, junk);
    RunKeepsSound(Create(base, size, junk), steps, b, n);
    LiveBlocksApart(Run(Create(base, size, junk), steps).data, b + DESC_SIZE, b + n, i, i);
  }

  /** After this run, every descriptor block lies inside the region. */
  ghost predicate DescInside(base: int, size: int, junk: int, steps: seq<Step>) {
    var desc := Run(Create(base, size, junk), steps).desc;
    forall i :: IsLive(desc, i) ==> Inside(desc[i], AlignedBase(base), AlignedSize(base, size))
  }

  /** Descriptor blocks stay inside the region in all runs if and only if the rounded region has room
      for the whole descriptor pool. */
  lemma DescInsideExactly(base: int, size: int, junk: int)
    ensures AlignedSize(base, size) >= 0x10_0000 <==>
      forall steps :: AllAllowed(steps, AlignedBase(base), AlignedSize(base, size)) ==> DescInside(base, size, junk, steps)
  {
    var b, n := AlignedBase(base), AlignedSize(base, size);
    var start := Create(base, size, junk);
    CreateSound(base, size, junk);
    if n >= DESC_SIZE {
      forall steps | AllAllowed(steps, b, n)
        ensures DescInside(base, size, junk, steps)
      {
        RunKeepsSound(start, steps, b, n);
        var desc := Run(start, steps).desc;
        forall i | IsLive(desc, i)
          ensures Inside(desc[i], b, n)
        {
          LiveBlocksApart(desc, b, b + DESC_SIZE, i, i);
        }
      }
    } else {
      var step := AllocDesc(DESC_SIZE);
      var none: seq<Step> := [step][..0];
      assert none == [] && Run(start, none) == start;
      assert AllAllowed([step], b, n);
      var c := Run(start, [step]);
      assert c.desc == [start.desc[0], Block(b, DESC_SIZE, DESC), start.desc[1]];
      assert IsLive(c.desc, 1) && !Inside(c.desc[1], b, n);
      assert !DescInside(base, size, junk, [step]);
    }
  }
}
