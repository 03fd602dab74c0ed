/**
 `overwrite` with its flags: a component for all distributions or all architectures takes the versions of
 more specific ones.
 */
module VersionOverwrite {
  import opened Wrappers
  import opened VersionOrder
  import opened VersionResolution
  import opened VersionAdjust
  import opened VersionSubtract

  /** A component at `k` takes the versions of an incoming one at `m`: `m` could inherit from `k`, and where the two
      differ the flag is set. */
  predicate Takes(k: Key, m: Key, forAllDist: bool, forAllArch: bool) {
    Sees(m, k) && (forAllDist || k.dist == m.dist) && (forAllArch || k.arch == m.arch)
  }

  predicate HasKey(cs: seq<Comp>, k: Key) {
    exists i :: 0 <= i < |cs| && cs[i].key == k
  }

  predicate SomeTakes(cs: seq<Comp>, m: Key, forAllDist: bool, forAllArch: bool) {
    exists i :: 0 <= i < |cs| && Takes(cs[i].key, m, forAllDist, forAllArch)
  }

  /** The key of an incoming component that none takes: Debian packages keep their distribution. */
  function NewKey(m: Key, forAllDist: bool, forAllArch: bool): Key {
    Key(m.ctype, if forAllDist && m.ctype != "deb" then "all" else m.dist, if forAllArch then "all" else m.arch)
  }

  lemma {:induction false} MergedLayer(cs: seq<Comp>, m: Comp, d: bool, a: bool, k: Key, p: string)
    ensures Layer(MergeInto(cs, m, d, a), k, p) ==
            if Takes(k, m.key, d, a) && p in m.versions && HasKey(cs, k) then Some(m.versions[p]) else Layer(cs, k, p)
  {
    if cs != [] {
      var pre, c := cs[..|cs| - 1], cs[|cs| - 1];
      MergedLayer(pre, m, d, a, k, p);
      assert MergeInto(cs, m, d, a)[..|cs| - 1] == MergeInto(pre, m, d, a);
      LastKey(cs, k);
    }
  }

  lemma LastKey(cs: seq<Comp>, k: Key)
    requires cs != []
    ensures HasKey(cs, k) <==> HasKey(cs[..|cs| - 1], k) || cs[|cs| - 1].key == k
  {
    var pre := cs[..|cs| - 1];
    if i :| 0 <= i < |pre| && pre[i].key == k {
      assert cs[i].key == k;
    }
    if i :| 0 <= i < |cs| && cs[i].key == k && i < |pre| {
      assert pre[i].key == k;
    }
  }

  /** One round of `overwrite`, whatever the flags: if some component takes the incoming versions, exactly those that
      do have them afterwards; else a component with its new key has. */
  lemma OverwriteRound(cs: seq<Comp>, m: Comp, d: bool, a: bool, k: Key, p: string)
    ensures Layer(OverwriteOne(cs, m, d, a), k, p) ==
            if p in m.versions &&
               (if SomeTakes(cs, m.key, d, a) then Takes(k, m.key, d, a) && HasKey(cs, k) else k == NewKey(m.key, d, a))
            then Some(m.versions[p]) else Layer(cs, k, p)
  {
    if i :| 0 <= i < |cs| && Takes(cs[i].key, m.key, d, a) {
      assert Overwritable(cs[i].key, m.key, d, a);
      MergedLayer(cs, m, d, a, k, p);
    } else {
      forall i | 0 <= i < |cs|
        ensures !Overwritable(cs[i].key, m.key, d, a)
      {
        assert !Takes(cs[i].key, m.key, d, a);
      }
      var c := m.(key := CleanKey(m.key, d, a, false));
      assert OverwriteOne(cs, m, d, a) == cs + [c];
      assert (cs + [c])[..|cs|] == cs;
    }
  }

  /** The last incoming version that a component at `k` takes. */
  function LastTaken(ms: seq<Comp>, k: Key, p: string, d: bool, a: bool): Option<string> {
    if ms == [] then None
    else
      var m := ms[|ms| - 1];
      if Takes(k, m.key, d, a) && p in m.versions then Some(m.versions[p]) else LastTaken(ms[..|ms| - 1], k, p, d, a)
  }

  lemma {:induction false} KeysStay(cs: seq<Comp>, ms: seq<Comp>, d: bool, a: bool, k: Key)
    requires HasKey(cs, k)
    ensures HasKey(OverwriteAll(cs, ms, d, a), k)
  {
    if ms != [] {
      var before := OverwriteAll(cs, ms[..|ms| - 1], d, a);
      KeysStay(cs, ms[..|ms| - 1], d, a, k);
      var i :| 0 <= i < |before| && before[i].key == k;
      assert OverwriteOne(before, ms[|ms| - 1], d, a)[i].key == k;
    }
  }

  /** All rounds: a key that is there takes the last incoming version that it can. */
  lemma {:induction false} OverwriteFlagged(cs: seq<Comp>, ms: seq<Comp>, d: bool, a: bool, k: Key, p: string)
    requires HasKey(cs, k)
    ensures Layer(OverwriteAll(cs, ms, d, a), k, p) == OrElse(LastTaken(ms, k, p, d, a), Layer(cs, k, p))
  {
    if ms != [] {
      var pre, m := ms[..|ms| - 1], ms[|ms| - 1];
      var before := OverwriteAll(cs, pre, d, a);
      OverwriteFlagged(cs, pre, d, a, k, p);
      KeysStay(cs, pre, d, a, k);
      OverwriteRound(before, m, d, a, k, p);
      if Takes(k, m.key, d, a) {
        var i :| 0 <= i < |before| && before[i].key == k;
        assert SomeTakes(before, m.key, d, a);
      } else if !SomeTakes(before, m.key, d, a) && k == NewKey(m.key, d, a) {
        NewKeyTakes(m.key, d, a);
        assert false;
      }
    }
  }

  /** The new key would take the versions. */
  lemma NewKeyTakes(m: Key, d: bool, a: bool)
    ensures Takes(NewKey(m, d, a), m, d, a)
  {
  }

  lemma FlaggedLayer(cs: seq<Comp>, m: Comp, k: Key, p: string)
    requires p in m.versions && Sees(m.key, k) && Layer(OverwriteOne(cs, m, true, true), k, p).Some?
    ensures Layer(OverwriteOne(cs, m, true, true), k, p) == Some(m.versions[p])
  {
    OverwriteRound(cs, m, true, true, k, p);
    if Layer(cs, k, p).Some? {
      var i := LayerWitness(cs, k, p);
      assert SomeTakes(cs, m.key, true, true) && HasKey(cs, k);
    }
  }

  /** A target whose layers all have the same version gets it. */
  lemma OneVersion(r: seq<Comp>, t: Key, p: string, v: string)
    requires WellFormedKey(t) && forall k :: Sees(t, k) && Layer(r, k, p).Some? ==> Layer(r, k, p) == Some(v)
    requires exists k :: Sees(t, k) && Layer(r, k, p) == Some(v)
    ensures AfterAdjust(r, t, p) == Some(v)
  {
    var k :| Sees(t, k) && Layer(r, k, p) == Some(v);
    assert k == t || k == t.(arch := ALL) || k == t.(dist := ALL) || k == t.(dist := ALL, arch := ALL);
  }

  /** With both flags, as `freeze` sets them, every package of an incoming component resolves at its key to the
      incoming version. */
  lemma FlaggedTakesEffect(cs: seq<Comp>, m: Comp, p: string)
    requires WellFormed(cs) && WellFormedKey(m.key) && p in m.versions
    ensures Find(Resolve(Overwrite(cs, [m], true, true), m.key), p) == Some(m.versions[p])
  {
    var r := OverwriteOne(cs, m, true, true);
    OneIncoming(cs, m);
    OverwriteKeys(cs, [m], true, true);
    AdjustMeaning(r, m.key, p);
    forall k | Sees(m.key, k) && Layer(r, k, p).Some?
      ensures Layer(r, k, p) == Some(m.versions[p])
    {
      FlaggedLayer(cs, m, k, p);
    }
    SomeLayer(cs, m, p);
    OneVersion(r, m.key, p, m.versions[p]);
  }

  lemma SortOne(m: Comp)
    ensures Sort([m]) == [m]
  {
    var none: seq<Comp> := [m][..0];
    assert none == [] && Sort(none) == [];
    assert Insert([], m) == [] + [m];
  }

  lemma OneRound(cs: seq<Comp>, m: Comp)
    ensures OverwriteAll(cs, [m], true, true) == OverwriteOne(cs, m, true, true)
  {
    var none: seq<Comp> := [m][..0];
    assert none == [] && OverwriteAll(cs, none, true, true) == cs;
  }

  lemma OneIncoming(cs: seq<Comp>, m: Comp)
    ensures Overwrite(cs, [m], true, true) == Adjust(OverwriteOne(cs, m, true, true))
    ensures OverwriteAll(cs, [m], true, true) == OverwriteOne(cs, m, true, true)
  {
    SortOne(m);
    OneRound(cs, m);
  }

  lemma SomeLayer(cs: seq<Comp>, m: Comp, p: string)
    requires p in m.versions
    ensures exists k :: Sees(m.key, k) && Layer(OverwriteOne(cs, m, true, true), k, p) == Some(m.versions[p])
  {
    var k := NewKey(m.key, true, true);
    if i :| 0 <= i < |cs| && Takes(cs[i].key, m.key, true, true) {
      k := cs[i].key;
    }
    NewKeyTakes(m.key, true, true);
    OverwriteRound(cs, m, true, true, k, p);
  }
}
