/**
 The version manager's objects, which change in place. `Component` holds the versions of one
 component; a `VersionModule` holds a list of component values and takes one at a time into a
 `Component` to work on it. Every method is tied to the function that says what it computes.
 */
module VersionManager {
  import opened VersionOrder
  import opened VersionResolution
  import opened VersionReduce
  import opened VersionAdjust
  import opened VersionSubtract

  class Component {
    var versions: Versions
    var ctype: string
    var dist: string
    var arch: string

    constructor (versions: Versions, ctype: string, dist: string, arch: string)
      ensures Value() == Comp(Key(ctype, Normalise(dist), Normalise(arch)), versions)
    {
      this.versions := versions;
      this.ctype := ctype;
      this.dist := Normalise(dist);
      this.arch := Normalise(arch);
    }

    function GetKey(): Key
      reads this
    {
      Key(ctype, dist, arch)
    }

    function Value(): Comp
      reads this
    {
      Comp(GetKey(), versions)
    }

    /** Takes over the versions of `other`; without `overwritten` only those of new packages. */
    method Merge(other: Versions, overwritten: bool)
      modifies this`versions
      ensures versions == if overwritten then old(versions) + other else other + old(versions)
    {
      var todo := other.Keys;
      while todo != {}
        invariant todo <= other.Keys
        invariant forall p :: p in versions <==> p in old(versions) || (p in other && p !in todo)
        invariant forall p :: p in versions ==>
          versions[p] ==
          if p in other && p !in todo && (overwritten || p !in old(versions)) then other[p] else old(versions)[p]
      {
        var package :| package in todo;
        todo := todo - {package};
        if overwritten || package !in versions {
          versions := versions[package := other[package]];
        }
      }
    }

    /** Drops the packages for which `other` has the same version. */
    method Subtract(other: Versions)
      modifies this`versions
      ensures versions == map p | p in old(versions) && !(p in other && other[p] == old(versions)[p]) :: old(versions)[p]
    {
      var todo := other.Keys;
      while todo != {}
        invariant todo <= other.Keys
        invariant forall p :: p in versions <==>
          p in old(versions) && !(p in other && p !in todo && old(versions)[p] == other[p])
        invariant forall p :: p in versions ==> versions[p] == old(versions)[p]
      {
        var package :| package in todo;
        todo := todo - {package};
        if package in versions && versions[package] == other[package] {
          versions := versions - {package};
        }
      }
    }

    method CleanInfo(cleanDist: bool, cleanArch: bool, force: bool)
      modifies this`dist, this`arch
      ensures Value() == old(Value()).(key := CleanKey(old(GetKey()), cleanDist, cleanArch, force))
    {
      if cleanDist {
        if force || ctype != "deb" {
          dist := ALL;
        }
      }
      if cleanArch {
        arch := ALL;
      }
    }
  }

  lemma FoldNext(cs: seq<Comp>, n: nat, k: Key)
    requires n < |cs|
    ensures Fold(cs[..n + 1], k) == if Sees(k, cs[n].key) then Fold(cs[..n], k) + cs[n].versions else Fold(cs[..n], k)
  {
    assert cs[..n + 1][..n] == cs[..n];
  }

  /** Merges what the key `k` may inherit from the ordered components `cs`: the inner loop of
      `_adjust_components_for_ctype` and the loop of `_get_config_for_ctype`. */
  method MergeSeen(cs: seq<Comp>, k: Key) returns (m: Versions)
    ensures m == Fold(cs, k)
  {
    var result := new Component(map[], k.ctype, k.dist, k.arch);
    for j := 0 to |cs|
      invariant fresh(result) && result.versions == Fold(cs[..j], k)
    {
      FoldNext(cs, j, k);
      if Sees(k, cs[j].key) {
        result.Merge(cs[j].versions, true);
      }
    }
    assert cs[..|cs|] == cs;
    m := result.versions;
  }

  /** Works on one component value through an object. */
  method SubtractFrom(c: Comp, m: Versions) returns (r: Comp)
    requires WellFormedKey(c.key)
    ensures r == Minus(c, m)
  {
    var component := new Component(c.versions, c.key.ctype, c.key.dist, c.key.arch);
    component.Subtract(m);
    r := component.Value();
  }

  // ---- Grouping by component type ----

  lemma GroupNext(cs: seq<Comp>, n: nat, ct: string)
    requires n < |cs|
    ensures OfCtype(cs[..n + 1], ct) == OfCtype(cs[..n], ct) + if cs[n].key.ctype == ct then [cs[n]] else []
    ensures Ctypes(cs[..n + 1]) ==
            if cs[n].key.ctype in Ctypes(cs[..n]) then Ctypes(cs[..n]) else Ctypes(cs[..n]) + [cs[n].key.ctype]
  {
    assert cs[..n + 1][..n] == cs[..n];
  }

  /** `_get_components_per_ctypes`: the keys of the dictionary in order, and the list of each. */
  method ComponentsPerCtypes(cs: seq<Comp>) returns (order: seq<string>, groups: map<string, seq<Comp>>)
    ensures order == Ctypes(cs)
    ensures forall ct :: ct in groups <==> ct in order
    ensures forall ct :: ct in groups ==> groups[ct] == OfCtype(cs, ct)
  {
    order, groups := [], map[];
    for n := 0 to |cs|
      invariant order == Ctypes(cs[..n])
      invariant forall ct :: ct in groups <==> ct in order
      invariant forall ct :: ct in groups ==> groups[ct] == OfCtype(cs[..n], ct)
    {
      var ct := cs[n].key.ctype;
      forall other
        ensures OfCtype(cs[..n + 1], other) == OfCtype(cs[..n], other) + if ct == other then [cs[n]] else []
      {
        GroupNext(cs, n, other);
      }
      GroupNext(cs, n, ct);
      if ct !in groups {
        OfCtypeEmpty(cs[..n], ct);
        order := order + [ct];
        groups := groups[ct := [cs[n]]];
      } else {
        groups := groups[ct := groups[ct] + [cs[n]]];
      }
    }
    assert cs[..|cs|] == cs;
  }

  lemma ReduceCtypesNext(given: Given, cs: seq<Comp>, order: seq<string>, n: nat)
    requires n < |order|
    ensures ReduceCtypes(given, cs, order[..n + 1]) ==
            ReduceCtypes(given, cs, order[..n]) + NonEmpty(Reduce(given, Sort(OfCtype(cs, order[n]))))
  {
    assert order[..n + 1][..n] == order[..n];
  }

  function Kept(c: Comp): seq<Comp> {
    if c.versions == map[] then [] else [c]
  }

  /** The components among the first `n` that are not empty. */
  function KeptTo(r: seq<Comp>, n: nat): seq<Comp>
    requires n <= |r|
  {
    if n == 0 then [] else KeptTo(r, n - 1) + Kept(r[n - 1])
  }

  lemma {:induction false} KeptIsNonEmpty(r: seq<Comp>, n: nat)
    requires n <= |r|
    ensures KeptTo(r, n) == NonEmpty(r[..n])
    ensures n == |r| ==> KeptTo(r, n) == NonEmpty(r)
  {
    if n > 0 {
      KeptIsNonEmpty(r, n - 1);
      assert r[..n][..n - 1] == r[..n - 1];
    }
    assert r[..|r|] == r;
  }

  /** What the rounds compute, component by component. */
  lemma {:induction false} ReduceAt(given: Given, vs: seq<Comp>, i: nat)
    requires i < |vs|
    ensures Reduce(given, vs)[i] == Minus(vs[i], given(Reduce(given, vs)[..i], vs[i].key))
  {
    var pre := vs[..|vs| - 1];
    ReduceSnoc(given, vs);
    if i < |pre| {
      ReduceAt(given, pre, i);
      assert Reduce(given, vs)[..i] == Reduce(given, pre)[..i];
    }
  }

  /** The first `i` components have their final values `r`, the others still their first ones `vs`. */
  ghost predicate Progress(cs: seq<Comp>, vs: seq<Comp>, r: seq<Comp>, i: nat) {
    && |vs| == |r| == |cs|
    && forall k :: 0 <= k < |cs| ==> cs[k] == if k < i then r[k] else vs[k]
  }

  lemma DoneSoFar(cs: seq<Comp>, vs: seq<Comp>, r: seq<Comp>, i: nat)
    requires Progress(cs, vs, r, i) && i < |cs|
    ensures cs[..i] == r[..i] && cs[i] == vs[i]
    ensures Progress(cs[i := r[i]], vs, r, i + 1)
  {
  }

  lemma KeptNext(r: seq<Comp>, i: nat)
    requires i < |r|
    ensures KeptTo(r, i + 1) == if |r[i].versions| > 0 then KeptTo(r, i) + [r[i]] else KeptTo(r, i)
  {
  }

  /** One round of `_adjust_components_for_ctype`. */
  method AdjustAt(cs: seq<Comp>, i: nat, ghost vs: seq<Comp>, ghost r: seq<Comp>) returns (c: Comp)
    requires Ordered(vs) && i < |cs| && r == Reduce(Inherited, vs) && Progress(cs, vs, r, i)
    ensures c == r[i]
  {
    ReduceAt(Inherited, vs, i);
    DoneSoFar(cs, vs, r, i);
    var m := MergeSeen(cs[..i], cs[i].key);
    c := SubtractFrom(cs[i], m);
  }

  /** The loop of `_adjust_components_for_ctype`. */
  method AdjustInOrder(vs: seq<Comp>, ghost r: seq<Comp>) returns (result: seq<Comp>)
    requires Ordered(vs) && r == Reduce(Inherited, vs)
    ensures result == NonEmpty(r)
  {
    var cs := vs;
    result := [];
    for i := 0 to |cs|
      invariant Progress(cs, vs, r, i)
      invariant result == KeptTo(r, i)
    {
      DoneSoFar(cs, vs, r, i);
      KeptNext(r, i);
      var c := AdjustAt(cs, i, vs, r);
      cs := cs[i := c];
      if |c.versions| > 0 {
        result := result + [c];
      }
    }
    KeptIsNonEmpty(r, |r|);
  }

  /** `_adjust_components_for_ctype`. */
  method AdjustComponents(components: seq<Comp>) returns (result: seq<Comp>)
    requires WellFormed(components)
    ensures result == NonEmpty(Reduce(Inherited, Sort(components)))
  {
    SortMembers(components);
    result := AdjustInOrder(Sort(components), Reduce(Inherited, Sort(components)));
  }

  /** The loop of `adjust` over the component types. */
  method AdjustGroups(cs: seq<Comp>) returns (result: seq<Comp>)
    requires WellFormed(cs)
    ensures result == VersionAdjust.Adjust(cs)
  {
    var order, groups := ComponentsPerCtypes(cs);
    result := [];
    for n := 0 to |order|
      invariant result == ReduceCtypes(Inherited, cs, order[..n])
    {
      ReduceCtypesNext(Inherited, cs, order, n);
      OfCtypeMembers(cs, order[n]);
      var part := AdjustComponents(groups[order[n]]);
      result := result + part;
    }
    assert order[..|order|] == order;
  }

  // ---- Overwrite ----

  predicate Takes(cs: seq<Comp>, n: nat, m: Key, forAllDist: bool, forAllArch: bool)
    requires n <= |cs|
  {
    exists i :: 0 <= i < n && Overwritable(cs[i].key, m, forAllDist, forAllArch)
  }

  /** One round of `overwrite`: merges `m` into every component that takes it, or appends a copy. */
  method OverwriteWith(components: seq<Comp>, m: Comp, forAllDist: bool, forAllArch: bool) returns (cs: seq<Comp>)
    requires WellFormed(components) && WellFormedKey(m.key)
    ensures cs == OverwriteOne(components, m, forAllDist, forAllArch)
  {
    cs := components;
    var merged := false;
    ghost var r := MergeInto(components, m, forAllDist, forAllArch);
    for n := 0 to |components|
      invariant |cs| == |components| && forall k :: 0 <= k < |cs| ==> cs[k] == if k < n then r[k] else components[k]
      invariant merged <==> Takes(components, n, m.key, forAllDist, forAllArch)
    {
      if Overwritable(cs[n].key, m.key, forAllDist, forAllArch) {
        var component := new Component(cs[n].versions, cs[n].key.ctype, cs[n].key.dist, cs[n].key.arch);
        component.Merge(m.versions, true);
        cs := cs[n := component.Value()];
        merged := true;
      }
    }
    if merged {
      assert cs == r;
    } else {
      assert cs == components;
      var tmp := new Component(m.versions, m.key.ctype, m.key.dist, m.key.arch);
      tmp.CleanInfo(forAllDist, forAllArch, false);
      cs := cs + [tmp.Value()];
    }
  }

  lemma OverwriteNext(cs: seq<Comp>, ms: seq<Comp>, n: nat, forAllDist: bool, forAllArch: bool)
    requires n < |ms|
    ensures OverwriteAll(cs, ms[..n + 1], forAllDist, forAllArch) ==
            OverwriteOne(OverwriteAll(cs, ms[..n], forAllDist, forAllArch), ms[n], forAllDist, forAllArch)
  {
    assert ms[..n + 1][..n] == ms[..n];
  }

  // ---- Configurations ----

  /** Components of other types do not matter for a target. */
  lemma ResolveOfCtype(cs: seq<Comp>, t: Key)
    requires WellFormed(cs) && WellFormedKey(t)
    ensures Resolve(OfCtype(cs, t.ctype), t) == Resolve(cs, t)
  {
    OfCtypeMembers(cs, t.ctype);
    forall p
      ensures Find(Resolve(OfCtype(cs, t.ctype), t), p) == Find(Resolve(cs, t), p)
    {
      ResolveByLayers(cs, t, p);
      ResolveByLayers(OfCtype(cs, t.ctype), t, p);
      LayerOfCtype(cs, t, p);
      LayerOfCtype(cs, t.(arch := ALL), p);
      LayerOfCtype(cs, t.(dist := ALL), p);
      LayerOfCtype(cs, t.(dist := ALL, arch := ALL), p);
    }
    SameVersions(Resolve(OfCtype(cs, t.ctype), t), Resolve(cs, t));
  }

  /** The component a generated module has for one component type. */
  function ConfigComp(cs: seq<Comp>, ct: string, dist: string, arch: string): Comp {
    Comp(Key(ct, dist, arch), Resolve(cs, Key(ct, dist, arch)))
  }

  /** The versions a generated module has for one component type. */
  function VersionsFor(cs: seq<Comp>, ct: string): Versions {
    var own := OfCtype(cs, ct);
    if own == [] then map[] else own[0].versions
  }

  lemma {:induction false} OfUniqueCtype(cs: seq<Comp>, n: nat)
    requires n < |cs|
    requires forall i :: 0 <= i < |cs| && i != n ==> cs[i].key.ctype != cs[n].key.ctype
    ensures OfCtype(cs, cs[n].key.ctype) == [cs[n]]
  {
    var pre := cs[..|cs| - 1];
    if n < |pre| {
      OfUniqueCtype(pre, n);
    } else {
      OfForeignCtype(pre, cs[n].key.ctype);
    }
  }

  /** The generated components for the first component types of `order`. */
  ghost predicate AreConfigs(cs: seq<Comp>, order: seq<string>, configs: seq<Comp>, dist: string, arch: string) {
    && |configs| <= |order|
    && forall n :: 0 <= n < |configs| ==> configs[n] == ConfigComp(cs, order[n], dist, arch)
  }

  lemma ConfigsNext(cs: seq<Comp>, order: seq<string>, configs: seq<Comp>, c: Comp, dist: string, arch: string)
    requires AreConfigs(cs, order, configs, dist, arch) && |configs| < |order|
    requires c == ConfigComp(cs, order[|configs|], dist, arch)
    ensures AreConfigs(cs, order, configs + [c], dist, arch)
  {
  }

  /** For every component type the generated versions are those of the target in `cs`. */
  ghost predicate ResolvesLike(configs: seq<Comp>, cs: seq<Comp>, dist: string, arch: string) {
    forall ct :: VersionsFor(configs, ct) == Resolve(cs, Key(ct, dist, arch))
  }

  lemma ConfigsMeaning(cs: seq<Comp>, configs: seq<Comp>, dist: string, arch: string)
    requires WellFormed(cs) && dist != "" && arch != ""
    requires |configs| == |Ctypes(cs)| && AreConfigs(cs, Ctypes(cs), configs, dist, arch)
    ensures ResolvesLike(configs, cs, dist, arch)
  {
    CtypesAreThose(cs);
    forall ct
      ensures VersionsFor(configs, ct) == Resolve(cs, Key(ct, dist, arch))
    {
      if ct in Ctypes(cs) {
        var n :| 0 <= n < |configs| && Ctypes(cs)[n] == ct;
        OfUniqueCtype(configs, n);
      } else {
        OfForeignCtype(configs, ct);
        OfCtypeEmpty(cs, ct);
        ResolveOfCtype(cs, Key(ct, dist, arch));
      }
    }
  }

  /** `_get_config_for_ctype`. */
  method ConfigForCtype(group: seq<Comp>, ct: string, dist: string, arch: string, ghost cs: seq<Comp>) returns (c: Comp)
    requires WellFormed(cs) && group == OfCtype(cs, ct) && dist != "" && arch != ""
    ensures c == ConfigComp(cs, ct, dist, arch)
  {
    var t := Key(ct, dist, arch);
    ResolveOfCtype(cs, t);
    var m := MergeSeen(Sort(group), t);
    c := Comp(t, m);
  }

  /** The loop of `_get_config_module` over the component types. */
  method ConfigComponents(cs: seq<Comp>, dist: string, arch: string) returns (configs: seq<Comp>)
    requires WellFormed(cs) && dist != "" && arch != ""
    ensures ResolvesLike(configs, cs, dist, arch)
  {
    var order, groups := ComponentsPerCtypes(cs);
    configs := [];
    for n := 0 to |order|
      invariant |configs| == n && AreConfigs(cs, order, configs, dist, arch)
    {
      var c := ConfigForCtype(groups[order[n]], order[n], dist, arch, cs);
      ConfigsNext(cs, order, configs, c, dist, arch);
      configs := configs + [c];
    }
    ConfigsMeaning(cs, configs, dist, arch);
  }

  class VersionModule {
    var name: string
    var components: seq<Comp>

    constructor (name: string, components: seq<Comp>)
      ensures this.name == name && this.components == components
    {
      this.name := name;
      this.components := components;
    }

    /** `adjust`: `AdjustMeaning` says what every target gets afterwards. */
    method Adjust()
      requires WellFormed(components)
      modifies this`components
      ensures components == VersionAdjust.Adjust(old(components)) && WellFormed(components)
    {
      ReduceModuleKeys(Inherited, components);
      components := AdjustGroups(components);
    }

    /** `overwrite`: `OverwriteTakesEffect` says what the incoming module achieves. */
    method Overwrite(m: VersionModule, forAllDist: bool, forAllArch: bool)
      requires WellFormed(components) && WellFormed(m.components)
      modifies this`components
      ensures components == VersionSubtract.Overwrite(old(components), old(m.components), forAllDist, forAllArch)
      ensures WellFormed(components)
    {
      var ms := Sort(m.components);
      SortMembers(m.components);
      ghost var was := components;
      for n := 0 to |ms|
        invariant components == OverwriteAll(was, ms[..n], forAllDist, forAllArch)
      {
        OverwriteNext(was, ms, n, forAllDist, forAllArch);
        OverwriteKeys(was, ms[..n], forAllDist, forAllArch);
        components := OverwriteWith(components, ms[n], forAllDist, forAllArch);
      }
      assert ms[..|ms|] == ms;
      OverwriteKeys(was, ms, forAllDist, forAllArch);
      Adjust();
    }

    /** `_get_config_module`: `ConfigMeaning` is the closed form of the result. */
    method GetConfigModule(default: VersionModule, dist: string, arch: string) returns (config: VersionModule)
      requires WellFormed(components) && WellFormed(default.components)
      ensures fresh(config)
      ensures ResolvesLike(config.components, VersionSubtract.Overwrite(default.components, components, false, false),
                           Normalise(dist), Normalise(arch))
    {
      var m := new VersionModule(default.name, default.components);
      m.Overwrite(this, false, false);
      var configs := ConfigComponents(m.components, Normalise(dist), Normalise(arch));
      config := new VersionModule(name, configs);
    }

    /** `subtract`: `SubtractLossless` says what it preserves. */
    method Subtract(default: VersionModule)
      requires WellFormed(components) && WellFormed(default.components)
      modifies this`components
      ensures components == VersionSubtract.Subtract(old(default.components), old(components)) && WellFormed(components)
    {
      ReduceModuleKeys(GivenBy(default.components), components);
      components := SubtractGroups(name, default, components);
    }
  }

  lemma ReduceModuleKeys(given: Given, cs: seq<Comp>)
    requires WellFormed(cs)
    ensures WellFormed(ReduceModule(given, cs))
  {
    ReduceModuleLayer(given, cs, Key("", "", ""), "");
  }

  /** What `subtract` compares a component with: the configuration, at its key, of the components
      before it on top of the default. */
  method GivenAt(name: string, default: VersionModule, base: seq<Comp>, k: Key) returns (m: Versions)
    requires WellFormed(base) && WellFormed(default.components) && WellFormedKey(k)
    ensures m == Config(default.components, base, k)
  {
    var own := new VersionModule(name, base);
    var config := own.GetConfigModule(default, k.dist, k.arch);
    assert VersionsFor(config.components, k.ctype) == Config(default.components, base, k);
    m := VersionsFor(config.components, k.ctype);
  }

  /** One round of `subtract`. */
  method StripAt(name: string, default: VersionModule, cs: seq<Comp>, i: nat, ghost vs: seq<Comp>, ghost given: Given,
      ghost r: seq<Comp>) returns (c: Comp)
    requires Ordered(vs) && WellFormed(default.components) && given == GivenBy(default.components)
    requires i < |cs| && r == Reduce(given, vs) && Progress(cs, vs, r, i)
    ensures c == r[i]
  {
    ReduceAt(given, vs, i);
    ReduceOrdered(given, vs);
    DoneSoFar(cs, vs, r, i);
    var m := GivenAt(name, default, cs[..i], cs[i].key);
    c := SubtractFrom(cs[i], m);
  }

  /** The loop of `subtract` over the components of one type, in inheritance order. */
  method SubtractInOrder(name: string, default: VersionModule, vs: seq<Comp>, ghost given: Given, ghost r: seq<Comp>)
    returns (result: seq<Comp>)
    requires Ordered(vs) && WellFormed(default.components) && given == GivenBy(default.components)
    requires r == Reduce(given, vs)
    ensures result == NonEmpty(r)
  {
    var cs := vs;
    result := [];
    for i := 0 to |cs|
      invariant Progress(cs, vs, r, i)
      invariant result == KeptTo(r, i)
    {
      DoneSoFar(cs, vs, r, i);
      KeptNext(r, i);
      var c := StripAt(name, default, cs, i, vs, given, r);
      cs := cs[i := c];
      if |c.versions| > 0 {
        result := result + [c];
      }
    }
    KeptIsNonEmpty(r, |r|);
  }

  method SubtractComponents(name: string, default: VersionModule, components: seq<Comp>, ghost given: Given)
    returns (result: seq<Comp>)
    requires WellFormed(components) && WellFormed(default.components) && given == GivenBy(default.components)
    ensures result == NonEmpty(Reduce(given, Sort(components)))
  {
    SortMembers(components);
    result := SubtractInOrder(name, default, Sort(components), given, Reduce(given, Sort(components)));
  }

  /** The outer loop of `subtract`, over the component types. */
  method SubtractGroups(name: string, default: VersionModule, cs: seq<Comp>) returns (result: seq<Comp>)
    requires WellFormed(cs) && WellFormed(default.components)
    ensures result == VersionSubtract.Subtract(default.components, cs)
  {
    var order, groups := ComponentsPerCtypes(cs);
    ghost var given := GivenBy(default.components);
    result := [];
    for n := 0 to |order|
      invariant result == ReduceCtypes(given, cs, order[..n])
    {
      ReduceCtypesNext(given, cs, order, n);
      OfCtypeMembers(cs, order[n]);
      var part := SubtractComponents(name, default, groups[order[n]], given);
      result := result + part;
    }
    assert order[..|order|] == order;
  }
}
