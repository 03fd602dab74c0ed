/**
 Overwriting one module with another, the configuration generated from a module on top of the
 default module, and `subtract`, which drops from a module what the default already gives.
 */
module VersionSubtract {
  import opened Wrappers
  import opened VersionOrder
  import opened VersionResolution
  import opened VersionReduce
  import opened VersionAdjust

  // ---- Overwrite ----

  /** `check_overwritable`: whether the component at `k` takes the versions of one at `m`. */
  predicate Overwritable(k: Key, m: Key, forAllDist: bool, forAllArch: bool) {
    && k.ctype == m.ctype
    && (k.dist == m.dist || (forAllDist && k.dist == ALL))
    && (k.arch == m.arch || (forAllArch && k.arch == ALL))
  }

  /** `Component.clean_info`: Debian components keep their distribution unless forced. */
  function CleanKey(k: Key, cleanDist: bool, cleanArch: bool, force: bool): Key {
    Key(k.ctype,
        if cleanDist && (force || k.ctype != "deb") then ALL else k.dist,
        if cleanArch then ALL else k.arch)
  }

  function MergeOne(c: Comp, m: Comp, forAllDist: bool, forAllArch: bool): Comp {
    if Overwritable(c.key, m.key, forAllDist, forAllArch) then c.(versions := c.versions + m.versions) else c
  }

  function MergeInto(cs: seq<Comp>, m: Comp, forAllDist: bool, forAllArch: bool): (r: seq<Comp>)
    ensures |r| == |cs|
    ensures forall i :: 0 <= i < |cs| ==> r[i].key == cs[i].key
  {
    seq(|cs|, i requires 0 <= i < |cs| => MergeOne(cs[i], m, forAllDist, forAllArch))
  }

  /** One round of `VersionModule.overwrite`. */
  function OverwriteOne(cs: seq<Comp>, m: Comp, forAllDist: bool, forAllArch: bool): seq<Comp> {
    if exists i :: 0 <= i < |cs| && Overwritable(cs[i].key, m.key, forAllDist, forAllArch)
    then MergeInto(cs, m, forAllDist, forAllArch)
    else cs + [m.(key := CleanKey(m.key, forAllDist, forAllArch, false))]
  }

  /** All rounds, before the final `adjust`. */
  function OverwriteAll(cs: seq<Comp>, ms: seq<Comp>, forAllDist: bool, forAllArch: bool): seq<Comp> {
    if ms == [] then cs
    else OverwriteOne(OverwriteAll(cs, ms[..|ms| - 1], forAllDist, forAllArch), ms[|ms| - 1], forAllDist, forAllArch)
  }

  /** `VersionModule.overwrite`. */
  function Overwrite(cs: seq<Comp>, ms: seq<Comp>, forAllDist: bool, forAllArch: bool): seq<Comp> {
    Adjust(OverwriteAll(cs, Sort(ms), forAllDist, forAllArch))
  }

  lemma {:induction false} MergeLayer(cs: seq<Comp>, m: Comp, k: Key, p: string)
    ensures var r := MergeInto(cs, m, false, false);
            Layer(r, k, p) ==
            if k == m.key && p in m.versions && (exists i :: 0 <= i < |cs| && cs[i].key == k)
            then Some(m.versions[p]) else Layer(cs, k, p)
  {
    if cs != [] {
      var pre, c := cs[..|cs| - 1], cs[|cs| - 1];
      MergeLayer(pre, m, k, p);
      assert MergeInto(cs, m, false, false)[..|cs| - 1] == MergeInto(pre, m, false, false);
      if i :| 0 <= i < |cs| && cs[i].key == k && c.key != k {
        assert pre[i].key == k;
      }
      if i :| 0 <= i < |pre| && pre[i].key == k {
        assert cs[i].key == k;
      }
    }
  }

  lemma {:induction false} MergePins(cs: seq<Comp>, m: Comp, k: Key, p: string)
    ensures var r := MergeInto(cs, m, false, false);
            Pins(r, k, p) ==
            if k == m.key && p in m.versions && (exists i :: 0 <= i < |cs| && cs[i].key == k)
            then {m.versions[p]} else Pins(cs, k, p)
  {
  }

  lemma NoPins(cs: seq<Comp>, k: Key, p: string)
    requires forall i :: 0 <= i < |cs| ==> cs[i].key != k
    ensures Pins(cs, k, p) == {}
  {
  }

  lemma OverwriteOneLayer(cs: seq<Comp>, m: Comp, k: Key, p: string)
    ensures var r := OverwriteOne(cs, m, false, false);
            && Layer(r, k, p) == (if k == m.key && p in m.versions then Some(m.versions[p]) else Layer(cs, k, p))
            && Pins(r, k, p) == (if k == m.key && p in m.versions then {m.versions[p]} else Pins(cs, k, p))
  {
    if i :| 0 <= i < |cs| && Overwritable(cs[i].key, m.key, false, false) {
      assert cs[i].key == m.key;
      MergeLayer(cs, m, k, p);
      MergePins(cs, m, k, p);
    } else {
      var r := cs + [m];
      assert OverwriteOne(cs, m, false, false) == r;
      assert r[..|cs|] == cs;
      PinsSnoc(r, k, p);
      forall i | 0 <= i < |cs|
        ensures cs[i].key != m.key
      {
        assert !Overwritable(cs[i].key, m.key, false, false);
      }
      if k == m.key { NoPins(cs, k, p); }
    }
  }

  lemma {:induction false} OverwriteKeys(cs: seq<Comp>, ms: seq<Comp>, forAllDist: bool, forAllArch: bool)
    requires WellFormed(cs) && WellFormed(ms)
    ensures WellFormed(OverwriteAll(cs, ms, forAllDist, forAllArch))
  {
    if ms != [] {
      OverwriteKeys(cs, ms[..|ms| - 1], forAllDist, forAllArch);
    }
  }

  /** The incoming module wins layer by layer, and leaves one version only where it pins. */
  lemma {:induction false} OverwriteAllLayer(cs: seq<Comp>, ms: seq<Comp>, k: Key, p: string)
    ensures var r := OverwriteAll(cs, ms, false, false);
            && Layer(r, k, p) == OrElse(Layer(ms, k, p), Layer(cs, k, p))
            && Pins(r, k, p) == (if Layer(ms, k, p).Some? then {Layer(ms, k, p).value} else Pins(cs, k, p))
  {
    if ms != [] {
      OverwriteAllLayer(cs, ms[..|ms| - 1], k, p);
      OverwriteOneLayer(OverwriteAll(cs, ms[..|ms| - 1], false, false), ms[|ms| - 1], k, p);
    }
  }

  /** After `overwrite` every package of the incoming module resolves, at the key of the component
      that brings it, to the incoming version. */
  lemma OverwriteTakesEffect(cs: seq<Comp>, ms: seq<Comp>, k: Key, p: string)
    requires WellFormed(cs) && WellFormed(ms) && WellFormedKey(k)
    ensures Layer(ms, k, p).Some? ==> Find(Resolve(Overwrite(cs, ms, false, false), k), p) == Layer(ms, k, p)
  {
    SortMembers(ms);
    OverwriteKeys(cs, Sort(ms), false, false);
    AdjustMeaning(OverwriteAll(cs, Sort(ms), false, false), k, p);
    OverwriteAllLayer(cs, Sort(ms), k, p);
    SortLayer(ms, k, p);
  }

  // ---- The configuration of a target ----

  /** `_get_config_module`: the versions of the target `t` from the module `ms` on top of `ds`. */
  function Config(ds: seq<Comp>, ms: seq<Comp>, t: Key): Versions {
    Resolve(Overwrite(ds, ms, false, false), t)
  }

  function BothPins(ds: seq<Comp>, ms: seq<Comp>, k: Key, p: string): set<string> {
    if Layer(ms, k, p).Some? then {Layer(ms, k, p).value} else Pins(ds, k, p)
  }

  /** What a target without a pin of its own gets, from its three lower layers: the (dist, all)
      layer with all its pins, the (all, arch) layer and the (all, all) layer. */
  function Outcome(mid: Option<string>, pins: set<string>, side: Option<string>, base: Option<string>): Option<string> {
    if base.Some? && side.Some? && side != base && pins == {base.value} then side
    else OrElse(mid, OrElse(side, base))
  }

  /** The configuration in closed form, from the layers of the two modules. */
  function ConfigView(ds: seq<Comp>, ms: seq<Comp>, t: Key, p: string): Option<string> {
    if IsChainTarget(t) then ChainView(ds, ms, t, p)
    else
      OrElse(Both(ds, ms, t, p),
        Outcome(Both(ds, ms, t.(arch := ALL), p), BothPins(ds, ms, t.(arch := ALL), p),
          Both(ds, ms, t.(dist := ALL), p), Both(ds, ms, t.(dist := ALL, arch := ALL), p)))
  }

  /** Main result on configurations: the generated versions in closed form. */
  lemma ConfigMeaning(ds: seq<Comp>, ms: seq<Comp>, t: Key, p: string)
    requires WellFormed(ds) && WellFormed(ms) && WellFormedKey(t)
    ensures Find(Config(ds, ms, t), p) == ConfigView(ds, ms, t, p)
  {
    SortMembers(ms);
    OverwriteKeys(ds, Sort(ms), false, false);
    var all := OverwriteAll(ds, Sort(ms), false, false);
    AdjustMeaning(all, t, p);
    forall k: Key
      ensures Layer(all, k, p) == Both(ds, ms, k, p) && Pins(all, k, p) == BothPins(ds, ms, k, p)
    {
      OverwriteAllLayer(ds, Sort(ms), k, p);
      SortLayer(ms, k, p);
    }
  }

  // ---- Subtract ----

  /** What `subtract` compares a component with: the configuration at its key. */
  function GivenBy(ds: seq<Comp>): Given {
    (ms: seq<Comp>, k: Key) => Config(ds, ms, k)
  }

  /** `VersionModule.subtract`. */
  function Subtract(ds: seq<Comp>, ms: seq<Comp>): seq<Comp> {
    ReduceModule(GivenBy(ds), ms)
  }

  lemma ViewCongruent(ds: seq<Comp>, a: seq<Comp>, b: seq<Comp>, t: Key, p: string)
    requires SameLayers(a, b, t, p)
    ensures ConfigView(ds, a, t, p) == ConfigView(ds, b, t, p)
  {
  }

  lemma GivenByView(ds: seq<Comp>)
    requires WellFormed(ds)
    ensures forall ms, k, p :: Ordered(ms) && WellFormedKey(k) ==> Find(GivenBy(ds)(ms, k), p) == ConfigView(ds, ms, k, p)
  {
    forall ms, k, p | Ordered(ms) && WellFormedKey(k)
      ensures Find(GivenBy(ds)(ms, k), p) == ConfigView(ds, ms, k, p)
    {
      ConfigMeaning(ds, ms, k, p);
    }
  }

  lemma GivenByLayered(given: Given, ds: seq<Comp>)
    requires forall ms, k, p :: Ordered(ms) && WellFormedKey(k) ==> Find(given(ms, k), p) == ConfigView(ds, ms, k, p)
    ensures Layered(given, ds)
  {
    forall a, b, k, p | Ordered(a) && Ordered(b) && WellFormedKey(k) && SameLayers(a, b, k, p)
      ensures Find(given(a, k), p) == Find(given(b, k), p)
    {
      ViewCongruent(ds, a, b, k, p);
    }
  }

  /** The exact situation in which `subtract` changes what a target gets: the default itself pins
      `p` at (dist, all) more than once, last to the (all, all) version; the module repeats that
      version; and a different (all, arch) version lies between. */
  predicate Unmasked(ds: seq<Comp>, ms: seq<Comp>, t: Key, p: string) {
    && !IsChainTarget(t)
    && Both(ds, ms, t, p).None?
    && var base := Both(ds, ms, t.(dist := ALL, arch := ALL), p);
       var side := Both(ds, ms, t.(dist := ALL), p);
       var mid := t.(arch := ALL);
       && base.Some? && side.Some? && side != base
       && Pins(ms, mid, p) == {base.value}
       && Layer(ds, mid, p) == base
       && Pins(ds, mid, p) != {base.value}
  }

  lemma ReducedConfig(given: Given, ds: seq<Comp>, cs: seq<Comp>, t: Key, p: string)
    requires forall ms, k, p :: Ordered(ms) && WellFormedKey(k) ==> Find(given(ms, k), p) == ConfigView(ds, ms, k, p)
    requires Ordered(cs) && WellFormedKey(t)
    ensures ConfigView(ds, Reduce(given, cs), t, p) == ConfigView(ds, cs, t, p) <==> !Unmasked(ds, cs, t, p)
  {
    GivenByLayered(given, ds);
    ReduceOrdered(given, cs);
    if IsChainTarget(t) {
      ReduceKeepsChain(given, ds, cs, t, p);
    } else if Layer(cs, t, p).Some? {
      ReduceTop(given, ds, cs, t, p);
    } else {
      ReduceNone(given, cs, t, p);
      if Layer(ds, t, p).None? { ReducedConfigConcrete(given, ds, cs, t, p); }
    }
  }

  lemma ReducedConfigConcrete(given: Given, ds: seq<Comp>, cs: seq<Comp>, t: Key, p: string)
    requires Layered(given, ds) && Ordered(cs) && WellFormedKey(t) && !IsChainTarget(t)
    requires Both(ds, cs, t, p).None? && Both(ds, Reduce(given, cs), t, p).None?
    ensures ConfigView(ds, Reduce(given, cs), t, p) == ConfigView(ds, cs, t, p) <==> !Unmasked(ds, cs, t, p)
  {
    var r := Reduce(given, cs);
    var mid, side, bot := t.(arch := ALL), t.(dist := ALL), t.(dist := ALL, arch := ALL);
    ReduceMiddle(given, ds, cs, mid, p);
    LayerIsPin(cs, mid, p);
    LayerIsPin(ds, mid, p);
    ReduceKeepsChain(given, ds, cs, side, p);
    ReduceKeepsChain(given, ds, cs, bot, p);
    OutcomeKept(Layer(ds, mid, p), Pins(ds, mid, p), Layer(cs, mid, p), Pins(cs, mid, p), Layer(r, mid, p),
                Both(ds, cs, side, p), Both(ds, r, side, p), Both(ds, cs, bot, p));
  }

  /** The case analysis behind `ReducedConfigConcrete`, on the layers alone: `d` is the default's
      (dist, all) layer, `m` the module's before and `r` after reducing. */
  lemma OutcomeKept(d: Option<string>, dPins: set<string>, m: Option<string>, mPins: set<string>, r: Option<string>,
                    side: Option<string>, side': Option<string>, base: Option<string>)
    requires (d.None? ==> dPins == {}) && (d.Some? ==> d.value in dPins)
    requires (m.None? ==> mPins == {}) && (m.Some? ==> m.value in mPins)
    requires r.None? <==> forall v :: v in mPins ==> OrElse(d, base) == Some(v)
    requires r.Some? ==> r == m
    requires OrElse(side', base) == OrElse(side, base)
    ensures var before := Outcome(OrElse(m, d), if m.Some? then {m.value} else dPins, side, base);
            var after := Outcome(OrElse(r, d), if r.Some? then {r.value} else dPins, side', base);
            before == after <==>
            !(base.Some? && side.Some? && side != base && mPins == {base.value} && d == base && dPins != {base.value})
  {
  }

  lemma UnmaskedCongruent(ds: seq<Comp>, a: seq<Comp>, b: seq<Comp>, t: Key, p: string)
    requires forall k: Key :: k.ctype == t.ctype ==> Layer(a, k, p) == Layer(b, k, p) && Pins(a, k, p) == Pins(b, k, p)
    ensures Unmasked(ds, a, t, p) == Unmasked(ds, b, t, p)
  {
  }

  lemma SubtractedView(given: Given, ds: seq<Comp>, ms: seq<Comp>, t: Key, p: string)
    requires forall ms, k, p :: Ordered(ms) && WellFormedKey(k) ==> Find(given(ms, k), p) == ConfigView(ds, ms, k, p)
    requires WellFormed(ms) && WellFormedKey(t)
    ensures WellFormed(ReduceModule(given, ms))
    ensures ConfigView(ds, ReduceModule(given, ms), t, p) == ConfigView(ds, ms, t, p) <==> !Unmasked(ds, ms, t, p)
  {
    var s := Sort(OfCtype(ms, t.ctype));
    ReducedKeys(given, ms, t.ctype);
    forall k: Key | k.ctype == t.ctype
      ensures Layer(s, k, p) == Layer(ms, k, p) && Pins(s, k, p) == Pins(ms, k, p)
      ensures Layer(ReduceModule(given, ms), k, p) == Layer(Reduce(given, s), k, p)
    {
      SortedCtypeLayer(ms, k, p);
      ReduceModuleLayer(given, ms, k, p);
    }
    ReduceModuleLayer(given, ms, t, p);
    ReducedConfig(given, ds, s, t, p);
    ViewCongruent(ds, s, ms, t, p);
    ViewCongruent(ds, Reduce(given, s), ReduceModule(given, ms), t, p);
    UnmaskedCongruent(ds, s, ms, t, p);
  }

  /** Main result on `subtract`, package by package: the configuration of a target is kept if and
      only if the package is not unmasked there. */
  lemma SubtractMeaning(ds: seq<Comp>, ms: seq<Comp>, t: Key, p: string)
    requires WellFormed(ds) && WellFormed(ms) && WellFormedKey(t)
    ensures WellFormed(Subtract(ds, ms))
    ensures Find(Config(ds, Subtract(ds, ms), t), p) == Find(Config(ds, ms, t), p) <==> !Unmasked(ds, ms, t, p)
  {
    GivenByView(ds);
    SubtractedView(GivenBy(ds), ds, ms, t, p);
    ConfigMeaning(ds, ms, t, p);
    ConfigMeaning(ds, Subtract(ds, ms), t, p);
  }

  /** `subtract` preserves the generated configuration of a target if and only if no package is
      unmasked there. */
  lemma SubtractLossless(ds: seq<Comp>, ms: seq<Comp>, t: Key)
    requires WellFormed(ds) && WellFormed(ms) && WellFormedKey(t)
    ensures Config(ds, Subtract(ds, ms), t) == Config(ds, ms, t) <==> forall p :: !Unmasked(ds, ms, t, p)
  {
    forall p
      ensures Find(Config(ds, Subtract(ds, ms), t), p) == Find(Config(ds, ms, t), p) <==> !Unmasked(ds, ms, t, p)
    {
      SubtractMeaning(ds, ms, t, p);
    }
    if forall p :: !Unmasked(ds, ms, t, p) {
      SameVersions(Config(ds, Subtract(ds, ms), t), Config(ds, ms, t));
    }
  }

  /** The default has at most one component per type and distribution that covers all architectures. */
  predicate UniqueMiddles(ds: seq<Comp>) {
    forall i, j :: 0 <= i < j < |ds| && ds[i].key == ds[j].key ==> ds[i].key.dist == ALL || ds[i].key.arch != ALL
  }

  lemma OnePin(ds: seq<Comp>, k: Key, p: string)
    requires UniqueMiddles(ds) && k.dist != ALL && k.arch == ALL && Layer(ds, k, p).Some?
    ensures Pins(ds, k, p) == {Layer(ds, k, p).value}
  {
  }

  /** A default module without duplicates never loses anything, whatever the module mixes. */
  lemma SubtractLosslessForUniqueDefault(ds: seq<Comp>, ms: seq<Comp>, t: Key)
    requires WellFormed(ds) && WellFormed(ms) && WellFormedKey(t) && UniqueMiddles(ds)
    ensures Config(ds, Subtract(ds, ms), t) == Config(ds, ms, t)
  {
    forall p
      ensures !Unmasked(ds, ms, t, p)
    {
      var mid := t.(arch := ALL);
      if !IsChainTarget(t) && Layer(ds, mid, p).Some? { OnePin(ds, mid, p); }
    }
    SubtractLossless(ds, ms, t);
  }

  /** Where the default and the module together form chains, nothing is lost. */
  lemma SubtractLosslessWhenChained(ds: seq<Comp>, ms: seq<Comp>, t: Key)
    requires WellFormed(ds) && WellFormed(ms) && WellFormedKey(t) && Chained(ds + ms)
    ensures Config(ds, Subtract(ds, ms), t) == Config(ds, ms, t)
  {
    forall p
      ensures !Unmasked(ds, ms, t, p)
    {
      if Unmasked(ds, ms, t, p) {
        LayerConcat(ds, ms, t.(dist := ALL), p);
        LayerConcat(ds, ms, t.(arch := ALL), p);
        var i := LayerWitness(ds + ms, t.(dist := ALL), p);
        var j := LayerWitness(ds + ms, t.(arch := ALL), p);
        assert false;
      }
    }
    SubtractLossless(ds, ms, t);
  }

  /** The exception is real: for any two named coordinates and three versions there are a default
      with a duplicate component and a module for which `subtract` changes the target. */
  lemma SubtractCanLose(t: Key, p: string, u: string, v: string, w: string)
    requires WellFormedKey(t) && !IsChainTarget(t) && u != v && v != w
    ensures var ds := [Comp(t.(dist := ALL, arch := ALL), map[p := v]),
                       Comp(t.(arch := ALL), map[p := u]),
                       Comp(t.(arch := ALL), map[p := v])];
            var ms := [Comp(t.(dist := ALL), map[p := w]), Comp(t.(arch := ALL), map[p := v])];
            Config(ds, Subtract(ds, ms), t) != Config(ds, ms, t)
  {
    var mid := t.(arch := ALL);
    var d0, d1, d2 := Comp(t.(dist := ALL, arch := ALL), map[p := v]), Comp(mid, map[p := u]), Comp(mid, map[p := v]);
    var m0, m1 := Comp(t.(dist := ALL), map[p := w]), Comp(mid, map[p := v]);
    var ds, ms := [d0, d1, d2], [m0, m1];
    forall k: Key
      ensures Layer(ds, k, p) == if k == mid then Some(v) else if k == d0.key then Some(v) else None
      ensures Layer(ms, k, p) == if k == mid then Some(v) else if k == m0.key then Some(w) else None
    {
      LayerOfThree(d0, d1, d2, k, p);
      LayerOfThree(m0, m0, m1, k, p);
      assert ms[..1] == [m0] && [m0, m0, m1][..2] == [m0, m0] && [m0, m0][..1] == [m0];
      assert Layer([m0, m0], k, p) == Layer([m0], k, p);
    }
    assert d1 in ds && m1 in ms;
    assert u in Pins(ds, mid, p) && Pins(ms, mid, p) == {v};
    assert Unmasked(ds, ms, t, p);
    SubtractLossless(ds, ms, t);
  }
}
