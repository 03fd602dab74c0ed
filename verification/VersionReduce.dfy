/**
 The loop that `adjust` and `subtract` share: going through ordered components, each one loses the
 pins that are already given at its key by what comes before it.

 What is "given" differs between the two operations, so it is a parameter here.
 */
module VersionReduce {
  import opened Wrappers
  import opened VersionOrder
  import opened VersionResolution

  /** The versions given at a key, as a function of the components processed so far. */
  type Given = (seq<Comp>, Key) -> Versions

  /** `Component.subtract`: drops the pins that `m` already gives. */
  function Minus(c: Comp, m: Versions): (r: Comp)
    ensures r.key == c.key
  {
    c.(versions := map p | p in c.versions && Find(m, p) != Some(c.versions[p]) :: c.versions[p])
  }

  function Reduce(given: Given, cs: seq<Comp>): (r: seq<Comp>)
    ensures |r| == |cs|
    ensures forall i :: 0 <= i < |cs| ==> r[i].key == cs[i].key
  {
    if cs == [] then []
    else
      var pre := Reduce(given, cs[..|cs| - 1]);
      var c := cs[|cs| - 1];
      pre + [Minus(c, given(pre, c.key))]
  }

  /** Reduces every component type on its own and drops the components that end up empty. */
  function ReduceCtypes(given: Given, cs: seq<Comp>, ctypes: seq<string>): seq<Comp> {
    if ctypes == [] then []
    else
      ReduceCtypes(given, cs, ctypes[..|ctypes| - 1]) +
      NonEmpty(Reduce(given, Sort(OfCtype(cs, ctypes[|ctypes| - 1]))))
  }

  function ReduceModule(given: Given, cs: seq<Comp>): seq<Comp> {
    ReduceCtypes(given, cs, Ctypes(cs))
  }

  // ---- What may be given ----

  /** The version at key `k` once the components `cs` have overwritten the components `ds`. */
  function Both(ds: seq<Comp>, cs: seq<Comp>, k: Key, p: string): Option<string> {
    OrElse(Layer(cs, k, p), Layer(ds, k, p))
  }

  /** What a chain target gets is the upper one of its two layers. */
  function ChainView(ds: seq<Comp>, cs: seq<Comp>, k: Key, p: string): Option<string> {
    OrElse(Both(ds, cs, k, p), Both(ds, cs, k.(dist := ALL, arch := ALL), p))
  }

  predicate Ordered(cs: seq<Comp>) {
    WellFormed(cs) && Sorted(cs)
  }

  ghost predicate SameLayers(a: seq<Comp>, b: seq<Comp>, t: Key, p: string) {
    forall k: Key :: Sees(t, k) ==> Layer(a, k, p) == Layer(b, k, p)
  }

  /** What is given at a key only depends on the layers below it, on top of fixed components `ds`:
      a pin at the key itself counts, and a chain key gets the upper of its two layers. */
  ghost predicate Layered(given: Given, ds: seq<Comp>) {
    && (forall cs, k, p :: Ordered(cs) && WellFormedKey(k) && IsChainTarget(k) ==>
          Find(given(cs, k), p) == ChainView(ds, cs, k, p))
    && (forall cs, k, p :: Ordered(cs) && WellFormedKey(k) && Layer(cs, k, p).Some? ==>
          Find(given(cs, k), p) == Layer(cs, k, p))
    && (forall a, b, k, p :: Ordered(a) && Ordered(b) && WellFormedKey(k) && SameLayers(a, b, k, p) ==>
          Find(given(a, k), p) == Find(given(b, k), p))
  }

  // ---- What reducing does to the layers ----

  lemma ReduceSnoc(given: Given, cs: seq<Comp>)
    requires cs != []
    ensures var pre, c := cs[..|cs| - 1], cs[|cs| - 1];
            && Reduce(given, cs)[..|cs| - 1] == Reduce(given, pre)
            && Reduce(given, cs)[|cs| - 1] == Minus(c, given(Reduce(given, pre), c.key))
  {
  }

  lemma ReduceOrdered(given: Given, cs: seq<Comp>)
    requires Ordered(cs)
    ensures Ordered(Reduce(given, cs))
  {
  }

  /** Chain targets get the same as before. */
  lemma {:induction false} ReduceKeepsChain(given: Given, ds: seq<Comp>, cs: seq<Comp>, k: Key, p: string)
    requires Layered(given, ds) && Ordered(cs) && WellFormedKey(k) && IsChainTarget(k)
    ensures ChainView(ds, Reduce(given, cs), k, p) == ChainView(ds, cs, k, p)
  {
    if cs != [] {
      var pre, c := cs[..|cs| - 1], cs[|cs| - 1];
      var r := Reduce(given, pre);
      ReduceKeepsChain(given, ds, pre, k, p);
      ReduceSnoc(given, cs);
      if Sees(k, c.key) && p in c.versions {
        ReduceOrdered(given, pre);
        assert Find(given(r, c.key), p) == ChainView(ds, r, c.key, p);
        if c.key != k {
          KeysBelow(k);
          NoLayerAbove(pre, c.key, k, p);
          NoLayerAbove(r, c.key, k, p);
          ReduceKeepsChain(given, ds, pre, c.key, p);
        }
      }
    }
  }

  lemma {:induction false} ReduceNone(given: Given, cs: seq<Comp>, k: Key, p: string)
    requires Layer(cs, k, p).None?
    ensures Layer(Reduce(given, cs), k, p).None?
  {
    if cs != [] {
      ReduceNone(given, cs[..|cs| - 1], k, p);
      ReduceSnoc(given, cs);
    }
  }

  /** The version given below the (dist, all) key `k`. */
  function Under(ds: seq<Comp>, cs: seq<Comp>, k: Key, p: string): Option<string> {
    OrElse(Layer(ds, k, p), Both(ds, cs, k.(dist := ALL, arch := ALL), p))
  }

  /** Every pin of `p` at the (dist, all) key `k` is already given from below. */
  predicate Redundant(ds: seq<Comp>, cs: seq<Comp>, k: Key, p: string) {
    forall v :: v in Pins(cs, k, p) ==> Under(ds, cs, k, p) == Some(v)
  }

  /** The (dist, all) layer vanishes exactly if every pin there is given from below; otherwise its
      version does not change. */
  lemma {:induction false} ReduceMiddle(given: Given, ds: seq<Comp>, cs: seq<Comp>, k: Key, p: string)
    requires Layered(given, ds) && Ordered(cs) && WellFormedKey(k) && k.dist != ALL && k.arch == ALL
    ensures MiddleKept(given, ds, cs, k, p)
  {
    if cs != [] {
      var pre, c := cs[..|cs| - 1], cs[|cs| - 1];
      ReduceMiddle(given, ds, pre, k, p);
      if c.key == k && p in c.versions {
        MiddlePinned(given, ds, cs, k, p);
      } else if c.key == k.(dist := ALL) && p in c.versions {
        MiddleBelow(given, ds, cs, k, p);
      } else {
        PinsSnoc(cs, k, p);
        ReduceSnoc(given, cs);
      }
    }
  }

  ghost predicate MiddleKept(given: Given, ds: seq<Comp>, cs: seq<Comp>, k: Key, p: string) {
    && (Layer(Reduce(given, cs), k, p).None? <==> Redundant(ds, cs, k, p))
    && (Layer(Reduce(given, cs), k, p).Some? ==> Layer(Reduce(given, cs), k, p) == Layer(cs, k, p))
  }

  /** What is given at the key while its components are being reduced. */
  lemma GivenMiddle(given: Given, ds: seq<Comp>, pre: seq<Comp>, k: Key, p: string)
    requires Layered(given, ds) && Ordered(pre) && WellFormedKey(k) && k.dist != ALL && k.arch == ALL
    ensures var r := Reduce(given, pre); Find(given(r, k), p) == OrElse(Layer(r, k, p), Under(ds, pre, k, p))
  {
    ReduceOrdered(given, pre);
    ReduceKeepsChain(given, ds, pre, k.(dist := ALL), p);
  }

  /** The last component pins the package at the key. */
  lemma MiddlePinned(given: Given, ds: seq<Comp>, cs: seq<Comp>, k: Key, p: string)
    requires Layered(given, ds) && Ordered(cs) && WellFormedKey(k) && k.dist != ALL && k.arch == ALL
    requires cs != [] && cs[|cs| - 1].key == k && p in cs[|cs| - 1].versions
    requires MiddleKept(given, ds, cs[..|cs| - 1], k, p)
    ensures MiddleKept(given, ds, cs, k, p)
  {
    var pre, c := cs[..|cs| - 1], cs[|cs| - 1];
    GivenMiddle(given, ds, pre, k, p);
    LayerIsPin(pre, k, p);
    var r := Reduce(given, pre);
    MiddleStep(Layer(r, k, p), Layer(pre, k, p), Pins(pre, k, p), Under(ds, pre, k, p), c.versions[p]);
    PinnedLayers(given, ds, cs, k, p);
  }

  /** The layers once a component that pins the package at the key is reduced. */
  lemma PinnedLayers(given: Given, ds: seq<Comp>, cs: seq<Comp>, k: Key, p: string)
    requires cs != [] && cs[|cs| - 1].key == k && k.dist != ALL && p in cs[|cs| - 1].versions
    ensures var pre, v := cs[..|cs| - 1], cs[|cs| - 1].versions[p];
            var r := Reduce(given, pre);
            && Layer(cs, k, p) == Some(v) && Pins(cs, k, p) == Pins(pre, k, p) + {v}
            && Under(ds, cs, k, p) == Under(ds, pre, k, p)
            && Layer(Reduce(given, cs), k, p) == if Find(given(r, k), p) == Some(v) then Layer(r, k, p) else Some(v)
  {
    PinsSnoc(cs, k, p);
    ReduceSnoc(given, cs);
  }

  /** The last component pins the package below: then nothing pins it at the key. */
  lemma MiddleBelow(given: Given, ds: seq<Comp>, cs: seq<Comp>, k: Key, p: string)
    requires Layered(given, ds) && Ordered(cs) && WellFormedKey(k) && k.dist != ALL && k.arch == ALL
    requires cs != [] && cs[|cs| - 1].key == k.(dist := ALL)
    ensures MiddleKept(given, ds, cs, k, p)
  {
    var pre, c := cs[..|cs| - 1], cs[|cs| - 1];
    PinsSnoc(cs, k, p);
    ReduceSnoc(given, cs);
    KeysBelow(k);
    NoLayerAbove(pre, c.key, k, p);
    LayerIsPin(pre, k, p);
    NoLayerAbove(Reduce(given, pre), c.key, k, p);
  }

  /** One step of `ReduceMiddle` on the layers alone: a pin `v` is dropped if it equals what is left
      of the layer so far, or what is given below. */
  lemma MiddleStep(left: Option<string>, layer: Option<string>, pins: set<string>, below: Option<string>, v: string)
    requires left.None? <==> forall w :: w in pins ==> below == Some(w)
    requires left.Some? ==> left == layer
    requires layer.None? ==> pins == {}
    requires layer.Some? ==> layer.value in pins
    ensures var left' := if OrElse(left, below) == Some(v) then left else Some(v);
            && (left'.None? <==> forall w :: w in pins + {v} ==> below == Some(w))
            && (left'.Some? ==> left' == Some(v))
  {
  }

  /** A pin at the target's own key is what the target still gets. */
  lemma {:induction false} ReduceTop(given: Given, ds: seq<Comp>, cs: seq<Comp>, t: Key, p: string)
    requires Layered(given, ds) && Ordered(cs) && WellFormedKey(t)
    requires Layer(cs, t, p).Some?
    ensures Find(given(Reduce(given, cs), t), p) == Layer(cs, t, p)
  {
    var pre, c := cs[..|cs| - 1], cs[|cs| - 1];
    var r, r' := Reduce(given, pre), Reduce(given, cs);
    ReduceSnoc(given, cs);
    ReduceOrdered(given, pre);
    ReduceOrdered(given, cs);
    if c.key == t && p in c.versions {
      if Find(given(r, t), p) == Some(c.versions[p]) {
        assert SameLayers(r', r, t, p);
      } else {
        assert Layer(r', t, p) == Some(c.versions[p]);
      }
    } else {
      ReduceTop(given, ds, pre, t, p);
      if Sees(t, c.key) && p in c.versions {
        KeysBelow(t);
        NoLayerAbove(pre, c.key, t, p);
      }
      assert SameLayers(r', r, t, p);
    }
  }

  // ---- The whole module ----

  lemma ReducedKeys(given: Given, cs: seq<Comp>, ctype: string)
    requires WellFormed(cs)
    ensures var s := Sort(OfCtype(cs, ctype)); var r := Reduce(given, s);
            && Ordered(s) && WellFormed(r) && WellFormed(NonEmpty(r))
            && (forall i :: 0 <= i < |r| ==> r[i].key.ctype == ctype)
  {
    OfCtypeMembers(cs, ctype);
    SortMembers(OfCtype(cs, ctype));
    var s := Sort(OfCtype(cs, ctype));
    forall i | 0 <= i < |s|
      ensures s[i].key.ctype == ctype
    {
      assert s[i] in OfCtype(cs, ctype);
    }
    NonEmptyKeys(Reduce(given, s), ctype);
  }

  /** The components of one type contribute to the layers of that type only. */
  lemma AppendReduced(before: seq<Comp>, part: seq<Comp>, ct: string, k: Key, p: string)
    requires forall i :: 0 <= i < |part| ==> part[i].key.ctype == ct
    ensures Layer(before + NonEmpty(part), k, p) ==
            if k.ctype == ct then OrElse(Layer(part, k, p), Layer(before, k, p)) else Layer(before, k, p)
  {
    LayerConcat(before, NonEmpty(part), k, p);
    LayerNonEmpty(part, k, p);
    if k.ctype != ct {
      LayerForeign(part, k, p);
    }
  }

  lemma {:induction false} ReduceCtypesLayer(given: Given, cs: seq<Comp>, ctypes: seq<string>, k: Key, p: string)
    requires WellFormed(cs) && Distinct(ctypes)
    ensures WellFormed(ReduceCtypes(given, cs, ctypes))
    ensures Layer(ReduceCtypes(given, cs, ctypes), k, p) ==
            if k.ctype in ctypes then Layer(Reduce(given, Sort(OfCtype(cs, k.ctype))), k, p) else None
  {
    if ctypes != [] {
      var pre, ct := ctypes[..|ctypes| - 1], ctypes[|ctypes| - 1];
      ReduceCtypesLayer(given, cs, pre, k, p);
      ReducedKeys(given, cs, ct);
      AppendReduced(ReduceCtypes(given, cs, pre), Reduce(given, Sort(OfCtype(cs, ct))), ct, k, p);
      LastOfDistinct(ctypes, k.ctype);
    }
  }

  lemma LastOfDistinct(ctypes: seq<string>, ct: string)
    requires ctypes != [] && Distinct(ctypes)
    ensures var pre, last := ctypes[..|ctypes| - 1], ctypes[|ctypes| - 1];
            && Distinct(pre) && (ct in ctypes <==> ct in pre || ct == last) && (ct == last ==> ct !in pre)
  {
  }

  lemma ReduceModuleLayer(given: Given, cs: seq<Comp>, k: Key, p: string)
    requires WellFormed(cs)
    ensures WellFormed(ReduceModule(given, cs))
    ensures Layer(ReduceModule(given, cs), k, p) == Layer(Reduce(given, Sort(OfCtype(cs, k.ctype))), k, p)
  {
    CtypesAreThose(cs);
    ReduceCtypesLayer(given, cs, Ctypes(cs), k, p);
    if k.ctype !in Ctypes(cs) { OfCtypeEmpty(cs, k.ctype); }
  }
}
