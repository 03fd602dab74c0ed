/**
 How a list of components resolves for a build target, and what `adjust` does to it.

 A target sees the components of its type whose distribution is its own or "all" and whose
 architecture is its own or "all". Its configuration is the fold of everything it sees, from
 the general components to the specific ones.
 */
module VersionResolution {
  import opened Wrappers
  import opened VersionOrder

  type Versions = map<string, string>

  function Find(m: Versions, p: string): Option<string> {
    if p in m then Some(m[p]) else None
  }

  /** `check_inheritable`: the component at `t` may inherit from a component at `k`. */
  predicate Sees(t: Key, k: Key) {
    && t.ctype == k.ctype
    && (t.dist == k.dist || k.dist == ALL)
    && (t.arch == k.arch || k.arch == ALL)
  }

  /** `_get_config_for_ctype` on a list that is already in order. */
  function Fold(cs: seq<Comp>, t: Key): Versions {
    if cs == [] then map[]
    else
      var m := Fold(cs[..|cs| - 1], t);
      var c := cs[|cs| - 1];
      if Sees(t, c.key) then m + c.versions else m
  }

  /** `_get_config_for_ctype`: the versions a target gets from an unordered list of components. */
  function Resolve(cs: seq<Comp>, t: Key): Versions {
    Fold(Sort(cs), t)
  }

  /** The version of `p` that is pinned at exactly the key `k`: the last one wins. */
  function Layer(cs: seq<Comp>, k: Key, p: string): Option<string> {
    if cs == [] then None
    else
      var c := cs[|cs| - 1];
      if c.key == k && p in c.versions then Some(c.versions[p]) else Layer(cs[..|cs| - 1], k, p)
  }

  /** All versions of `p` that are pinned at exactly the key `k`. */
  function Pins(cs: seq<Comp>, k: Key, p: string): set<string> {
    set c | c in cs && c.key == k && p in c.versions :: c.versions[p]
  }

  lemma {:induction false} LayerIsPin(cs: seq<Comp>, k: Key, p: string)
    ensures Layer(cs, k, p).None? ==> Pins(cs, k, p) == {}
    ensures Layer(cs, k, p).Some? ==> Layer(cs, k, p).value in Pins(cs, k, p)
  {
    if cs != [] {
      var pre, c := cs[..|cs| - 1], cs[|cs| - 1];
      LayerIsPin(pre, k, p);
      assert cs == pre + [c];
      assert c in cs;
      assert forall e :: e in cs <==> e in pre || e == c;
    }
  }

  /** Layers and pins do not depend on the order of components with different keys. */
  lemma {:induction false} InsertLayer(cs: seq<Comp>, c: Comp, k: Key, p: string)
    requires WellFormed(cs) && WellFormedKey(c.key) && Sorted(cs)
    ensures Layer(Insert(cs, c), k, p) == Layer(cs + [c], k, p)
  {
    if cs != [] && !KeyLe(cs[|cs| - 1].key, c.key) {
      var pre, last := cs[..|cs| - 1], cs[|cs| - 1];
      InsertLayer(pre, c, k, p);
      KeyLeTotal(last.key, c.key);
      assert last.key != c.key;
      assert Insert(cs, c)[..|Insert(cs, c)| - 1] == Insert(pre, c);
      assert (cs + [c])[..|cs|] == cs;
      assert (pre + [c])[..|pre|] == pre;
    }
  }

  lemma SortMembers(cs: seq<Comp>)
    ensures forall c :: c in Sort(cs) <==> c in cs
    ensures WellFormed(cs) ==> WellFormed(Sort(cs))
    ensures Sorted(Sort(cs))
  {
    SortContents(cs);
    SameMembers(Sort(cs), cs);
    SortSorted(cs);
    if WellFormed(cs) {
      forall i | 0 <= i < |Sort(cs)|
        ensures WellFormedKey(Sort(cs)[i].key)
      {
        assert Sort(cs)[i] in cs;
      }
    }
  }

  lemma {:induction false} SortLayer(cs: seq<Comp>, k: Key, p: string)
    requires WellFormed(cs)
    ensures Layer(Sort(cs), k, p) == Layer(cs, k, p)
    ensures Pins(Sort(cs), k, p) == Pins(cs, k, p)
  {
    SortMembers(cs);
    if cs != [] {
      var pre, c := cs[..|cs| - 1], cs[|cs| - 1];
      SortLayer(pre, k, p);
      SortMembers(pre);
      InsertLayer(Sort(pre), c, k, p);
      assert (Sort(pre) + [c])[..|Sort(pre)|] == Sort(pre);
    }
  }

  // ---- Resolution by layers ----

  /** A key that is greater than the last key of a sorted list does not occur in it. */
  lemma {:induction false} NoLayerAbove(cs: seq<Comp>, bound: Key, k: Key, p: string)
    requires forall i :: 0 <= i < |cs| ==> KeyLe(cs[i].key, bound)
    requires !KeyLe(k, bound)
    ensures Layer(cs, k, p).None?
  {
    if cs != [] {
      NoLayerAbove(cs[..|cs| - 1], bound, k, p);
    }
  }

  /** The four layers a target can see, the most specific first. */
  function ByLayers(cs: seq<Comp>, t: Key, p: string): Option<string> {
    OrElse(Layer(cs, t, p),
      OrElse(Layer(cs, t.(arch := ALL), p),
        OrElse(Layer(cs, t.(dist := ALL), p),
          Layer(cs, t.(dist := ALL, arch := ALL), p))))
  }

  lemma KeysBelow(t: Key)
    requires WellFormedKey(t)
    ensures t.arch != ALL ==> !KeyLe(t, t.(arch := ALL))
    ensures t.dist != ALL ==> !KeyLe(t, t.(dist := ALL))
    ensures t.dist != ALL ==> !KeyLe(t, t.(dist := ALL, arch := ALL))
    ensures t.dist != ALL ==> !KeyLe(t.(arch := ALL), t.(dist := ALL))
    ensures t.dist != ALL ==> !KeyLe(t.(arch := ALL), t.(dist := ALL, arch := ALL))
    ensures t.arch != ALL ==> !KeyLe(t.(dist := ALL), t.(dist := ALL, arch := ALL))
  {
  }

  lemma {:induction false} FoldByLayers(cs: seq<Comp>, t: Key, p: string)
    requires WellFormed(cs) && WellFormedKey(t) && Sorted(cs)
    ensures Find(Fold(cs, t), p) == ByLayers(cs, t, p)
  {
    if cs != [] {
      var pre, c := cs[..|cs| - 1], cs[|cs| - 1];
      FoldByLayers(pre, t, p);
      if Sees(t, c.key) && p in c.versions {
        KeysBelow(t);
        forall k | !KeyLe(k, c.key)
          ensures Layer(pre, k, p).None?
        {
          NoLayerAbove(pre, c.key, k, p);
        }
      }
    }
  }

  lemma ResolveByLayers(cs: seq<Comp>, t: Key, p: string)
    requires WellFormed(cs) && WellFormedKey(t)
    ensures Find(Resolve(cs, t), p) == ByLayers(cs, t, p)
  {
    SortMembers(cs);
    FoldByLayers(Sort(cs), t, p);
    SortLayer(cs, t, p);
    SortLayer(cs, t.(arch := ALL), p);
    SortLayer(cs, t.(dist := ALL), p);
    SortLayer(cs, t.(dist := ALL, arch := ALL), p);
  }

  lemma PinsSnoc(cs: seq<Comp>, k: Key, p: string)
    requires cs != []
    ensures var pre, c := cs[..|cs| - 1], cs[|cs| - 1];
            Pins(cs, k, p) == Pins(pre, k, p) + (if c.key == k && p in c.versions then {c.versions[p]} else {})
  {
  }

  /** A target that is not concrete in both coordinates sees a chain of layers. */
  predicate IsChainTarget(t: Key) {
    t.dist == ALL || t.arch == ALL
  }

  // ---- From one component type to the whole module ----

  function NonEmpty(cs: seq<Comp>): seq<Comp> {
    if cs == [] then []
    else NonEmpty(cs[..|cs| - 1]) + (if cs[|cs| - 1].versions == map[] then [] else [cs[|cs| - 1]])
  }

  function OfCtype(cs: seq<Comp>, ctype: string): seq<Comp> {
    if cs == [] then []
    else OfCtype(cs[..|cs| - 1], ctype) + (if cs[|cs| - 1].key.ctype == ctype then [cs[|cs| - 1]] else [])
  }

  /** The component types in order of first appearance: the keys of `_get_components_per_ctypes`. */
  function Ctypes(cs: seq<Comp>): seq<string> {
    if cs == [] then []
    else
      var pre := Ctypes(cs[..|cs| - 1]);
      if cs[|cs| - 1].key.ctype in pre then pre else pre + [cs[|cs| - 1].key.ctype]
  }

  lemma {:induction false} LayerConcat(a: seq<Comp>, b: seq<Comp>, k: Key, p: string)
    ensures Layer(a + b, k, p) == OrElse(Layer(b, k, p), Layer(a, k, p))
  {
    if b == [] {
      assert a + b == a;
    } else {
      LayerConcat(a, b[..|b| - 1], k, p);
      assert (a + b)[..|a + b| - 1] == a + b[..|b| - 1];
    }
  }

  lemma {:induction false} LayerNonEmpty(cs: seq<Comp>, k: Key, p: string)
    ensures Layer(NonEmpty(cs), k, p) == Layer(cs, k, p)
  {
    if cs != [] {
      var pre, c := cs[..|cs| - 1], cs[|cs| - 1];
      LayerNonEmpty(pre, k, p);
      LayerConcat(NonEmpty(pre), if c.versions == map[] then [] else [c], k, p);
    }
  }

  lemma {:induction false} OfCtypeMembers(cs: seq<Comp>, ctype: string)
    ensures forall c :: c in OfCtype(cs, ctype) <==> c in cs && c.key.ctype == ctype
    ensures WellFormed(cs) ==> WellFormed(OfCtype(cs, ctype))
  {
    if cs != [] {
      OfCtypeMembers(cs[..|cs| - 1], ctype);
      assert cs == cs[..|cs| - 1] + [cs[|cs| - 1]];
    }
  }

  lemma {:induction false} LayerOfCtype(cs: seq<Comp>, k: Key, p: string)
    ensures Layer(OfCtype(cs, k.ctype), k, p) == Layer(cs, k, p)
    ensures Pins(OfCtype(cs, k.ctype), k, p) == Pins(cs, k, p)
  {
    OfCtypeMembers(cs, k.ctype);
    if cs != [] {
      var pre, c := cs[..|cs| - 1], cs[|cs| - 1];
      LayerOfCtype(pre, k, p);
      LayerConcat(OfCtype(pre, k.ctype), if c.key.ctype == k.ctype then [c] else [], k, p);
    }
  }

  lemma {:induction false} LayerForeign(cs: seq<Comp>, k: Key, p: string)
    requires forall i :: 0 <= i < |cs| ==> cs[i].key.ctype != k.ctype
    ensures Layer(cs, k, p).None?
  {
    if cs != [] { LayerForeign(cs[..|cs| - 1], k, p); }
  }

  lemma {:induction false} CtypesAreThose(cs: seq<Comp>)
    ensures forall ct :: ct in Ctypes(cs) <==> exists i :: 0 <= i < |cs| && cs[i].key.ctype == ct
    ensures forall i, j :: 0 <= i < j < |Ctypes(cs)| ==> Ctypes(cs)[i] != Ctypes(cs)[j]
  {
    if cs != [] {
      var pre := cs[..|cs| - 1];
      CtypesAreThose(pre);
      forall ct
        ensures ct in Ctypes(cs) <==> exists i :: 0 <= i < |cs| && cs[i].key.ctype == ct
      {
        if ct in Ctypes(pre) {
          var i :| 0 <= i < |pre| && pre[i].key.ctype == ct;
          assert cs[i].key.ctype == ct;
        }
        if i :| 0 <= i < |cs| && cs[i].key.ctype == ct {
          if i < |pre| { assert pre[i].key.ctype == ct; }
        }
      }
    }
  }

  lemma {:induction false} NonEmptyKeys(cs: seq<Comp>, ctype: string)
    requires WellFormed(cs) && forall i :: 0 <= i < |cs| ==> cs[i].key.ctype == ctype
    ensures var r := NonEmpty(cs); WellFormed(r) && forall i :: 0 <= i < |r| ==> r[i].key.ctype == ctype
  {
    if cs != [] { NonEmptyKeys(cs[..|cs| - 1], ctype); }
  }

  lemma {:induction false} OfForeignCtype(cs: seq<Comp>, ct: string)
    requires forall i :: 0 <= i < |cs| ==> cs[i].key.ctype != ct
    ensures OfCtype(cs, ct) == []
  {
    if cs != [] { OfForeignCtype(cs[..|cs| - 1], ct); }
  }

  lemma {:induction false} OfCtypeEmpty(cs: seq<Comp>, ctype: string)
    requires ctype !in Ctypes(cs)
    ensures OfCtype(cs, ctype) == []
  {
    if cs != [] { OfCtypeEmpty(cs[..|cs| - 1], ctype); }
  }

  lemma SortedCtypeLayer(cs: seq<Comp>, k: Key, p: string)
    requires WellFormed(cs)
    ensures Layer(Sort(OfCtype(cs, k.ctype)), k, p) == Layer(cs, k, p)
    ensures Pins(Sort(OfCtype(cs, k.ctype)), k, p) == Pins(cs, k, p)
  {
    OfCtypeMembers(cs, k.ctype);
    SortLayer(OfCtype(cs, k.ctype), k, p);
    LayerOfCtype(cs, k, p);
  }

  lemma SameVersions(a: Versions, b: Versions)
    requires forall p :: Find(a, p) == Find(b, p)
    ensures a == b
  {
    forall p
      ensures p in a <==> p in b
      ensures p in a ==> a[p] == b[p]
    {
      assert Find(a, p) == Find(b, p);
    }
  }

  /** No component type has both an (all, arch) and a (dist, all) component. */
  predicate Chained(cs: seq<Comp>) {
    forall i, j :: 0 <= i < |cs| && 0 <= j < |cs| && cs[i].key.ctype == cs[j].key.ctype ==>
      !(cs[i].key.dist == ALL && cs[i].key.arch != ALL && cs[j].key.dist != ALL && cs[j].key.arch == ALL)
  }

  lemma {:induction false} LayerWitness(cs: seq<Comp>, k: Key, p: string) returns (i: nat)
    requires Layer(cs, k, p).Some?
    ensures i < |cs| && cs[i].key == k && p in cs[i].versions && Layer(cs, k, p) == Some(cs[i].versions[p])
  {
    var c := cs[|cs| - 1];
    if c.key == k && p in c.versions {
      i := |cs| - 1;
    } else {
      i := LayerWitness(cs[..|cs| - 1], k, p);
    }
  }

  lemma LayerOfThree(c0: Comp, c1: Comp, c2: Comp, k: Key, p: string)
    ensures Layer([c0, c1, c2], k, p) ==
            if c2.key == k && p in c2.versions then Some(c2.versions[p])
            else if c1.key == k && p in c1.versions then Some(c1.versions[p])
            else if c0.key == k && p in c0.versions then Some(c0.versions[p])
            else None
  {
    var cs := [c0, c1, c2];
    assert cs[..2] == [c0, c1] && [c0, c1][..1] == [c0];
    assert Layer([c0], k, p) == if c0.key == k && p in c0.versions then Some(c0.versions[p]) else None;
    assert Layer([c0, c1], k, p) == if c1.key == k && p in c1.versions then Some(c1.versions[p]) else Layer([c0], k, p);
  }
}
