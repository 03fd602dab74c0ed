/**
 `adjust`, which drops from a module the pins its own more general components already give.
 */
module VersionAdjust {
  import opened Wrappers
  import opened VersionOrder
  import opened VersionResolution
  import opened VersionReduce

  function Inherited(cs: seq<Comp>, k: Key): Versions {
    Fold(cs, k)
  }

  /** `VersionModule.adjust`. */
  function Adjust(cs: seq<Comp>): seq<Comp> {
    ReduceModule(Inherited, cs)
  }

  lemma InheritedLayered()
    ensures Layered(Inherited, [])
  {
    forall cs, k, p | Ordered(cs) && WellFormedKey(k)
      ensures Find(Inherited(cs, k), p) == ByLayers(cs, k, p)
    {
      FoldByLayers(cs, k, p);
    }
    forall a, b, k, p | Ordered(a) && Ordered(b) && WellFormedKey(k) && SameLayers(a, b, k, p)
      ensures ByLayers(a, k, p) == ByLayers(b, k, p)
    {
    }
  }

  /** The exact situation in which removing a redundant-looking pin changes a target: the
      (dist, all) components repeat the (all, all) version, which hides from the target a different
      (all, arch) version, and the target itself pins nothing. */
  predicate Shadowed(cs: seq<Comp>, t: Key, p: string) {
    && !IsChainTarget(t)
    && Layer(cs, t, p).None?
    && var base := Layer(cs, t.(dist := ALL, arch := ALL), p);
       var side := Layer(cs, t.(dist := ALL), p);
       && base.Some? && side.Some? && side != base
       && Pins(cs, t.(arch := ALL), p) == {base.value}
  }

  /** What a target gets after `adjust`. */
  function AfterAdjust(cs: seq<Comp>, t: Key, p: string): Option<string> {
    if Shadowed(cs, t, p) then Layer(cs, t.(dist := ALL), p) else ByLayers(cs, t, p)
  }

  lemma ReducedView(cs: seq<Comp>, t: Key, p: string)
    requires Ordered(cs) && WellFormedKey(t)
    ensures ByLayers(Reduce(Inherited, cs), t, p) == AfterAdjust(cs, t, p)
  {
    var r := Reduce(Inherited, cs);
    InheritedLayered();
    ReduceOrdered(Inherited, cs);
    FoldByLayers(r, t, p);
    if IsChainTarget(t) {
      ReduceKeepsChain(Inherited, [], cs, t, p);
    } else if Layer(cs, t, p).Some? {
      ReduceTop(Inherited, [], cs, t, p);
    } else {
      ReducedViewConcrete(cs, t, p);
    }
  }

  lemma ReducedViewConcrete(cs: seq<Comp>, t: Key, p: string)
    requires Ordered(cs) && WellFormedKey(t) && !IsChainTarget(t) && Layer(cs, t, p).None?
    ensures ByLayers(Reduce(Inherited, cs), t, p) == AfterAdjust(cs, t, p)
  {
    var mid := t.(arch := ALL);
    InheritedLayered();
    ReduceNone(Inherited, cs, t, p);
    ReduceMiddle(Inherited, [], cs, mid, p);
    LayerIsPin(cs, mid, p);
    ReduceKeepsChain(Inherited, [], cs, t.(dist := ALL), p);
    ReduceKeepsChain(Inherited, [], cs, t.(dist := ALL, arch := ALL), p);
    assert Redundant([], cs, mid, p) && Layer(cs, mid, p).Some? ==> Pins(cs, mid, p) == {Layer(cs, mid, p).value};
  }

  /** `AfterAdjust` only depends on the layers, and the pins, of the keys below the target. */
  lemma AfterAdjustCongruent(a: seq<Comp>, b: seq<Comp>, t: Key, p: string)
    requires forall k: Key :: k.ctype == t.ctype ==> Layer(a, k, p) == Layer(b, k, p) && Pins(a, k, p) == Pins(b, k, p)
    ensures AfterAdjust(a, t, p) == AfterAdjust(b, t, p)
  {
  }

  /** Main result on `adjust`: what every target gets for every package afterwards. */
  lemma AdjustMeaning(cs: seq<Comp>, t: Key, p: string)
    requires WellFormed(cs) && WellFormedKey(t)
    ensures WellFormed(Adjust(cs))
    ensures Find(Resolve(Adjust(cs), t), p) == AfterAdjust(cs, t, p)
  {
    var s := Sort(OfCtype(cs, t.ctype));
    ReducedKeys(Inherited, cs, t.ctype);
    forall k: Key | k.ctype == t.ctype
      ensures Layer(Adjust(cs), k, p) == Layer(Reduce(Inherited, s), k, p)
      ensures Layer(s, k, p) == Layer(cs, k, p) && Pins(s, k, p) == Pins(cs, k, p)
    {
      ReduceModuleLayer(Inherited, cs, k, p);
      SortedCtypeLayer(cs, k, p);
    }
    ReduceModuleLayer(Inherited, cs, t, p);
    ResolveByLayers(Adjust(cs), t, p);
    ReducedView(s, t, p);
    AfterAdjustCongruent(s, cs, t, p);
  }

  /** `adjust` preserves the configuration of a target if and only if no package is shadowed there. */
  lemma AdjustLossless(cs: seq<Comp>, t: Key)
    requires WellFormed(cs) && WellFormedKey(t)
    ensures Resolve(Adjust(cs), t) == Resolve(cs, t) <==> forall p :: !Shadowed(cs, t, p)
  {
    forall p
      ensures Find(Resolve(Adjust(cs), t), p) == AfterAdjust(cs, t, p)
      ensures Find(Resolve(cs, t), p) == ByLayers(cs, t, p)
      ensures Shadowed(cs, t, p) ==> AfterAdjust(cs, t, p) != ByLayers(cs, t, p)
    {
      AdjustMeaning(cs, t, p);
      ResolveByLayers(cs, t, p);
      LayerIsPin(cs, t.(arch := ALL), p);
    }
    if forall p :: !Shadowed(cs, t, p) {
      SameVersions(Resolve(Adjust(cs), t), Resolve(cs, t));
    }
  }

  /** Where inheritance is a chain, `adjust` preserves every target. */
  lemma AdjustLosslessWhenChained(cs: seq<Comp>, t: Key)
    requires WellFormed(cs) && WellFormedKey(t) && Chained(cs)
    ensures Resolve(Adjust(cs), t) == Resolve(cs, t)
  {
    forall p
      ensures !Shadowed(cs, t, p)
    {
      if Shadowed(cs, t, p) {
        LayerIsPin(cs, t.(arch := ALL), p);
        var i := LayerWitness(cs, t.(dist := ALL), p);
        var j := LayerWitness(cs, t.(arch := ALL), p);
        assert false;
      }
    }
    AdjustLossless(cs, t);
  }

  /** The hypothesis is needed: for any two named coordinates and two versions there are three
      components for which `adjust` changes the target. */
  lemma AdjustCanLose(t: Key, p: string, v: string, w: string)
    requires WellFormedKey(t) && !IsChainTarget(t) && v != w
    ensures var cs := [Comp(t.(dist := ALL, arch := ALL), map[p := v]),
                       Comp(t.(dist := ALL), map[p := w]),
                       Comp(t.(arch := ALL), map[p := v])];
            Find(Resolve(cs, t), p) == Some(v) && Find(Resolve(Adjust(cs), t), p) == Some(w)
  {
    var c0 := Comp(t.(dist := ALL, arch := ALL), map[p := v]);
    var c1 := Comp(t.(dist := ALL), map[p := w]);
    var c2 := Comp(t.(arch := ALL), map[p := v]);
    var cs := [c0, c1, c2];
    forall k: Key
      ensures Layer(cs, k, p) ==
              if c2.key == k then Some(v) else if c1.key == k then Some(w) else if c0.key == k then Some(v) else None
    {
      LayerOfThree(c0, c1, c2, k, p);
    }
    assert c2 in cs;
    assert Pins(cs, t.(arch := ALL), p) == {v};
    ResolveByLayers(cs, t, p);
    AdjustMeaning(cs, t, p);
  }
}
