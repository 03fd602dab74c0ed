/**
 What `adjust` and `subtract` leave is minimal: no pin that remains is given already, no component is
 empty, and nothing is added.
 */
module VersionMinimal {
  import opened Wrappers
  import opened VersionOrder
  import opened VersionResolution
  import opened VersionReduce
  import opened VersionAdjust
  import opened VersionSubtract

  // ---- Where a component of the result comes from ----

  lemma {:induction false} NonEmptyAt(cs: seq<Comp>, i: nat) returns (j: nat)
    requires i < |NonEmpty(cs)|
    ensures j < |cs| && cs[j] == NonEmpty(cs)[i] && cs[j].versions != map[] && NonEmpty(cs[..j]) == NonEmpty(cs)[..i]
  {
    var n := |cs| - 1;
    var pre := cs[..n];
    if i < |NonEmpty(pre)| {
      j := NonEmptyAt(pre, i);
      assert pre[..j] == cs[..j];
    } else {
      j := n;
    }
  }

  lemma {:induction false} OfCtypeConcat(a: seq<Comp>, b: seq<Comp>, ctype: string)
    ensures OfCtype(a + b, ctype) == OfCtype(a, ctype) + OfCtype(b, ctype)
  {
    if b == [] {
      assert a + b == a;
    } else {
      assert (a + b)[..|a + b| - 1] == a + b[..|b| - 1];
      OfCtypeConcat(a, b[..|b| - 1], ctype);
    }
  }

  lemma {:induction false} OfOwnCtype(cs: seq<Comp>, ctype: string)
    requires forall i :: 0 <= i < |cs| ==> cs[i].key.ctype == ctype
    ensures OfCtype(cs, ctype) == cs
  {
    if cs != [] {
      OfOwnCtype(cs[..|cs| - 1], ctype);
      assert cs == cs[..|cs| - 1] + [cs[|cs| - 1]];
    }
  }

  /** The components of one type, in order, before and after. */
  function Group(cs: seq<Comp>, ctype: string): seq<Comp> { Sort(OfCtype(cs, ctype)) }

  /** Component `i` of a result `r` is component `j` of the reduced components of its type, and what
      precedes it of its type is what is left of those before `j`. */
  ghost predicate ComesFrom(given: Given, cs: seq<Comp>, r: seq<Comp>, i: nat, j: nat)
    requires i < |r|
  {
    var full := Reduce(given, Group(cs, r[i].key.ctype));
    && j < |full| && r[i] == full[j] && full[j].versions != map[]
    && OfCtype(r[..i], r[i].key.ctype) == NonEmpty(full[..j])
  }

  lemma {:induction false} ReducedKeysOf(given: Given, cs: seq<Comp>, ctypes: seq<string>, i: nat)
    requires WellFormed(cs) && i < |ReduceCtypes(given, cs, ctypes)|
    ensures ReduceCtypes(given, cs, ctypes)[i].key.ctype in ctypes
  {
    var pre, ct := ctypes[..|ctypes| - 1], ctypes[|ctypes| - 1];
    var before, full := ReduceCtypes(given, cs, pre), Reduce(given, Group(cs, ct));
    if i < |before| {
      ReducedKeysOf(given, cs, pre, i);
    } else {
      ReducedKeys(given, cs, ct);
      var _ := NonEmptyAt(full, i - |before|);
    }
  }

  lemma FromPrefix(given: Given, cs: seq<Comp>, before: seq<Comp>, r: seq<Comp>, i: nat, j: nat)
    requires before <= r && i < |before| && ComesFrom(given, cs, before, i, j)
    ensures ComesFrom(given, cs, r, i, j)
  {
    assert r[..i] == before[..i] && r[i] == before[i];
  }

  lemma {:induction false} ReducedFrom(given: Given, cs: seq<Comp>, ctypes: seq<string>, i: nat) returns (j: nat)
    requires WellFormed(cs) && Distinct(ctypes) && i < |ReduceCtypes(given, cs, ctypes)|
    ensures ComesFrom(given, cs, ReduceCtypes(given, cs, ctypes), i, j)
  {
    var pre, ct := ctypes[..|ctypes| - 1], ctypes[|ctypes| - 1];
    var before, full := ReduceCtypes(given, cs, pre), Reduce(given, Group(cs, ct));
    var r := ReduceCtypes(given, cs, ctypes);
    if i < |before| {
      j := ReducedFrom(given, cs, pre, i);
      FromPrefix(given, cs, before, r, i, j);
    } else {
      j := NonEmptyAt(full, i - |before|);
      ReducedKeys(given, cs, ct);
      forall k | 0 <= k < |before|
        ensures before[k].key.ctype != ct
      {
        ReducedKeysOf(given, cs, pre, k);
      }
      LastGroup(before, full, ct, i, j);
    }
  }

  lemma LastGroup(before: seq<Comp>, full: seq<Comp>, ct: string, i: nat, j: nat)
    requires forall k :: 0 <= k < |before| ==> before[k].key.ctype != ct
    requires forall k :: 0 <= k < |full| ==> full[k].key.ctype == ct
    requires |before| <= i <= |before + NonEmpty(full)| && j <= |full|
    requires NonEmpty(full[..j]) == NonEmpty(full)[..i - |before|]
    ensures OfCtype((before + NonEmpty(full))[..i], ct) == NonEmpty(full[..j])
  {
    var part := NonEmpty(full[..j]);
    assert (before + NonEmpty(full))[..i] == before + part;
    OfCtypeConcat(before, part, ct);
    OfForeignCtype(before, ct);
    NonEmptyOf(full[..j]);
    forall k | 0 <= k < |part|
      ensures part[k].key.ctype == ct
    {
      assert part[k] in full[..j];
    }
    OfOwnCtype(part, ct);
  }

  lemma {:induction false} NonEmptyOf(cs: seq<Comp>)
    ensures forall c :: c in NonEmpty(cs) ==> c in cs
  {
    if cs != [] {
      NonEmptyOf(cs[..|cs| - 1]);
    }
  }

  // ---- Minimality ----

  lemma NonEmptySorted(cs: seq<Comp>)
    requires Ordered(cs)
    ensures Ordered(NonEmpty(cs))
  {
    forall i, k | 0 <= i < k < |NonEmpty(cs)|
      ensures KeyLe(NonEmpty(cs)[i].key, NonEmpty(cs)[k].key)
    {
      var j' := NonEmptyAt(cs, k);
      assert NonEmpty(cs[..j'])[i] == NonEmpty(cs)[i];
      var j := NonEmptyAt(cs[..j'], i);
    }
    forall i | 0 <= i < |NonEmpty(cs)|
      ensures WellFormedKey(NonEmpty(cs)[i].key)
    {
      var j := NonEmptyAt(cs, i);
    }
  }

  /** What is left after reducing one component. */
  lemma {:induction false} ReducedPin(given: Given, vs: seq<Comp>, j: nat, p: string)
    requires j < |vs| && p in Reduce(given, vs)[j].versions
    ensures var c := Reduce(given, vs)[j];
            && p in vs[j].versions && vs[j].versions[p] == c.versions[p]
            && Find(given(Reduce(given, vs)[..j], c.key), p) != Some(c.versions[p])
  {
    var pre := vs[..|vs| - 1];
    ReduceSnoc(given, vs);
    if j < |pre| {
      ReducedPin(given, pre, j, p);
      assert Reduce(given, vs)[..j] == Reduce(given, pre)[..j];
    }
  }

  /** A pin of the components. */
  predicate HasPin(cs: seq<Comp>, k: Key, p: string, v: string) {
    exists c :: c in cs && c.key == k && p in c.versions && c.versions[p] == v
  }

  lemma SameGiven(given: Given, ds: seq<Comp>, a: seq<Comp>, k: Key, p: string)
    requires Layered(given, ds) && Ordered(a) && WellFormedKey(k)
    ensures Find(given(NonEmpty(a), k), p) == Find(given(a, k), p)
  {
    NonEmptySorted(a);
    forall l: Key | Sees(k, l)
      ensures Layer(NonEmpty(a), l, p) == Layer(a, l, p)
    {
      LayerNonEmpty(a, l, p);
    }
    assert SameLayers(NonEmpty(a), a, k, p);
  }

  /** Components without versions do not matter. */
  ghost predicate IgnoresEmpty(given: Given) {
    forall a, k, p {:trigger Find(given(NonEmpty(a), k), p)} ::
      Ordered(a) && WellFormedKey(k) ==> Find(given(NonEmpty(a), k), p) == Find(given(a, k), p)
  }

  lemma LayeredIgnoresEmpty(given: Given, ds: seq<Comp>)
    requires Layered(given, ds)
    ensures IgnoresEmpty(given)
  {
    forall a, k, p | Ordered(a) && WellFormedKey(k)
      ensures Find(given(NonEmpty(a), k), p) == Find(given(a, k), p)
    {
      SameGiven(given, ds, a, k, p);
    }
  }

  lemma GroupPin(cs: seq<Comp>, ct: string, j: nat, p: string)
    requires j < |Group(cs, ct)| && p in Group(cs, ct)[j].versions
    ensures HasPin(cs, Group(cs, ct)[j].key, p, Group(cs, ct)[j].versions[p])
  {
    SortMembers(OfCtype(cs, ct));
    OfCtypeMembers(cs, ct);
    assert Group(cs, ct)[j] in cs;
  }

  lemma PrefixOrdered(cs: seq<Comp>, j: nat)
    requires Ordered(cs) && j <= |cs|
    ensures Ordered(cs[..j])
  {
  }

  /** Component `j` of the reduced components of a type. */
  lemma FullMinimal(given: Given, vs: seq<Comp>, j: nat, p: string)
    requires IgnoresEmpty(given) && Ordered(vs) && j < |vs| && p in Reduce(given, vs)[j].versions
    ensures var full := Reduce(given, vs);
            && p in vs[j].versions && vs[j].versions[p] == full[j].versions[p] && vs[j].key == full[j].key
            && Find(given(NonEmpty(full[..j]), full[j].key), p) != Some(full[j].versions[p])
  {
    ReducedPin(given, vs, j, p);
    ReduceOrdered(given, vs);
    PrefixOrdered(Reduce(given, vs), j);
    assert WellFormedKey(vs[j].key);
  }

  lemma ReduceMinimal(given: Given, cs: seq<Comp>, i: nat, p: string)
    requires IgnoresEmpty(given) && WellFormed(cs)
    requires i < |ReduceModule(given, cs)| && p in ReduceModule(given, cs)[i].versions
    ensures var r := ReduceModule(given, cs);
            && Find(given(OfCtype(r[..i], r[i].key.ctype), r[i].key), p) != Some(r[i].versions[p])
            && HasPin(cs, r[i].key, p, r[i].versions[p])
  {
    CtypesAreThose(cs);
    var j := ReducedFrom(given, cs, Ctypes(cs), i);
    var ct := ReduceModule(given, cs)[i].key.ctype;
    ReducedKeys(given, cs, ct);
    FullMinimal(given, Group(cs, ct), j, p);
    GroupPin(cs, ct, j, p);
  }

  lemma ReduceNotEmpty(given: Given, cs: seq<Comp>, i: nat)
    requires WellFormed(cs) && i < |ReduceModule(given, cs)|
    ensures ReduceModule(given, cs)[i].versions != map[]
  {
    CtypesAreThose(cs);
    var _ := ReducedFrom(given, cs, Ctypes(cs), i);
  }

  lemma {:induction false} FoldOfCtype(cs: seq<Comp>, t: Key)
    ensures Fold(OfCtype(cs, t.ctype), t) == Fold(cs, t)
  {
    if cs != [] {
      var pre, c := cs[..|cs| - 1], cs[|cs| - 1];
      FoldOfCtype(pre, t);
      if c.key.ctype == t.ctype {
        assert OfCtype(cs, t.ctype)[..|OfCtype(pre, t.ctype)|] == OfCtype(pre, t.ctype);
      } else {
        assert OfCtype(cs, t.ctype) == OfCtype(pre, t.ctype);
      }
    }
  }

  /** `adjust` is minimal: no component that remains is empty or has a pin that those before it give, and
      every pin was there before. */
  lemma AdjustMinimal(cs: seq<Comp>, i: nat)
    requires WellFormed(cs) && i < |Adjust(cs)|
    ensures var r := Adjust(cs);
            && r[i].versions != map[]
            && forall p :: p in r[i].versions ==>
                 && Find(Fold(r[..i], r[i].key), p) != Some(r[i].versions[p])
                 && HasPin(cs, r[i].key, p, r[i].versions[p])
  {
    var r := Adjust(cs);
    InheritedLayered();
    LayeredIgnoresEmpty(Inherited, []);
    ReduceNotEmpty(Inherited, cs, i);
    FoldOfCtype(r[..i], r[i].key);
    forall p | p in r[i].versions
      ensures Find(Fold(r[..i], r[i].key), p) != Some(r[i].versions[p]) && HasPin(cs, r[i].key, p, r[i].versions[p])
    {
      ReduceMinimal(Inherited, cs, i, p);
    }
  }

  /** `subtract` is minimal: no component that remains is empty or has a pin that the default and those
      before it give, and every pin was there before. */
  lemma SubtractMinimal(ds: seq<Comp>, ms: seq<Comp>, i: nat)
    requires WellFormed(ds) && WellFormed(ms) && i < |Subtract(ds, ms)|
    ensures var r := Subtract(ds, ms);
            && r[i].versions != map[]
            && forall p :: p in r[i].versions ==>
                 && Find(Config(ds, OfCtype(r[..i], r[i].key.ctype), r[i].key), p) != Some(r[i].versions[p])
                 && HasPin(ms, r[i].key, p, r[i].versions[p])
  {
    var given := GivenBy(ds);
    GivenByView(ds);
    GivenByLayered(given, ds);
    LayeredIgnoresEmpty(given, ds);
    ReduceNotEmpty(given, ms, i);
    var r := Subtract(ds, ms);
    forall p | p in r[i].versions
      ensures Find(given(OfCtype(r[..i], r[i].key.ctype), r[i].key), p) != Some(r[i].versions[p])
      ensures HasPin(ms, r[i].key, p, r[i].versions[p])
    {
      ReduceMinimal(given, ms, i, p);
    }
  }
}
