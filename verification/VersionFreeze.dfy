/**
 `VersionBuild.freeze(rebuild=True)`: compute the default module, clean distribution and architecture
 from every component, and subtract the default from every module.
 */
module VersionFreeze {
  import opened Wrappers
  import opened VersionOrder
  import opened VersionResolution
  import opened VersionSubtract
  import opened VersionMinimal

  const DEFAULT_MODULE := "default"
  const OVERWRITE_CTYPES := {"deb", "py2", "py3"}

  datatype Module = Module(name: string, comps: seq<Comp>)

  /** `is_aggregatable_module`: the modules that inherit every component type from the default. */
  predicate IsAggregatable(name: string) {
    && !("sonic-slave-" <= name)
    && !("build-sonic-slave-" <= name)
    && name != DEFAULT_MODULE
    && name != "host-image" && name != "host-base-image"
  }

  /** `clone(exclude_ctypes=...)`. */
  function Without(cs: seq<Comp>, ctypes: set<string>): (r: seq<Comp>)
    ensures forall c :: c in r <==> c in cs && c.key.ctype !in ctypes
  {
    if cs == [] then []
    else
      var pre, c := Without(cs[..|cs| - 1], ctypes), cs[|cs| - 1];
      assert cs == cs[..|cs| - 1] + [c];
      if c.key.ctype in ctypes then pre else pre + [c]
  }

  /** The part of the default that a module inherits. */
  function DefaultFor(name: string, ds: seq<Comp>): seq<Comp> {
    if IsAggregatable(name) then ds else Without(ds, OVERWRITE_CTYPES)
  }

  /** `get_config_module`. */
  function Generate(ds: seq<Comp>, m: Module, t: Key): Versions {
    Config(DefaultFor(m.name, ds), m.comps, t)
  }

  // ---- The default module ----

  function AllComps(build: seq<Module>): seq<Comp> {
    if build == [] then [] else AllComps(build[..|build| - 1]) + build[|build| - 1].comps
  }

  /** The components that vote on the default versions. */
  function Voters(build: seq<Module>): seq<Comp> {
    if build == [] then [] else Voters(build[..|build| - 1]) + VotersIn(build[|build| - 1])
  }

  function VotersIn(m: Module): seq<Comp> {
    if IsAggregatable(m.name) then m.comps else Without(m.comps, OVERWRITE_CTYPES)
  }

  predicate Votes(c: Comp, ctype: string, dist: Option<string>, p: string) {
    c.key.ctype == ctype && (dist.None? || dist.value == c.key.dist) && p in c.versions
  }

  /** `_get_versions`: all versions of a package. */
  function VersionsOf(cs: seq<Comp>, ctype: string, dist: Option<string>, p: string): set<string> {
    set c | c in cs && Votes(c, ctype, dist, p) :: c.versions[p]
  }

  /** `_get_common_versions`: the packages that have one version only. */
  ghost function CommonVersions(cs: seq<Comp>, ctype: string, dist: Option<string>): (r: Versions)
    ensures forall p :: p in r <==> |VersionsOf(cs, ctype, dist, p)| == 1
    ensures forall p :: p in r ==> VersionsOf(cs, ctype, dist, p) == {r[p]}
  {
    var packages := set c, p | c in cs && p in c.versions :: p;
    var r := map p | p in packages && |VersionsOf(cs, ctype, dist, p)| == 1 ::
      (SingleVersion(VersionsOf(cs, ctype, dist, p)); var v :| VersionsOf(cs, ctype, dist, p) == {v}; v);
    assert forall p :: |VersionsOf(cs, ctype, dist, p)| == 1 ==> p in packages by {
      forall p | |VersionsOf(cs, ctype, dist, p)| == 1
        ensures p in packages
      {
        SingleVersion(VersionsOf(cs, ctype, dist, p));
        var v :| VersionsOf(cs, ctype, dist, p) == {v};
        assert v in VersionsOf(cs, ctype, dist, p);
      }
    }
    r
  }

  lemma SingleVersion(s: set<string>)
    requires |s| == 1
    ensures exists v :: s == {v}
  {
    var v :| v in s;
    assert |s - {v}| == 0;
    assert s == {v};
  }

  ghost function DefaultOfDists(voters: seq<Comp>, dists: seq<string>): seq<Comp> {
    if dists == [] then []
    else
      DefaultOfDists(voters, dists[..|dists| - 1]) +
      [Comp(Key("deb", Normalise(dists[|dists| - 1]), ALL), CommonVersions(voters, "deb", Some(dists[|dists| - 1])))]
  }

  ghost function DefaultOfCtypes(voters: seq<Comp>, dists: seq<string>, ctypes: seq<string>): seq<Comp> {
    if ctypes == [] then []
    else
      var ct := ctypes[|ctypes| - 1];
      DefaultOfCtypes(voters, dists, ctypes[..|ctypes| - 1]) +
      if ct == "deb" then DefaultOfDists(voters, dists)
      else [Comp(Key(ct, ALL, ALL), CommonVersions(voters, ct, None))]
  }

  function Dists(cs: seq<Comp>): seq<string> {
    if cs == [] then []
    else
      var pre, d := Dists(cs[..|cs| - 1]), cs[|cs| - 1].key.dist;
      if d in pre then pre else pre + [d]
  }

  predicate HasDefault(build: seq<Module>) {
    exists i :: 0 <= i < |build| && build[i].name == DEFAULT_MODULE
  }

  function FindDefault(build: seq<Module>): seq<Comp>
    requires HasDefault(build)
  {
    if build[0].name == DEFAULT_MODULE then build[0].comps else FindDefault(build[1..])
  }

  /** `clean_info()` of a module: Debian components keep their distribution, nothing keeps its architecture. */
  function Clean(cs: seq<Comp>): (r: seq<Comp>)
    ensures |r| == |cs|
    ensures forall i :: 0 <= i < |cs| ==> r[i].versions == cs[i].versions
    ensures forall i :: 0 <= i < |cs| ==>
      r[i].key == Key(cs[i].key.ctype, if cs[i].key.ctype == "deb" then cs[i].key.dist else "all", "all")
  {
    seq(|cs|, i requires 0 <= i < |cs| => cs[i].(key := CleanKey(cs[i].key, true, true, false)))
  }

  /** `get_default_module`, as it is after `_clean_component_info`: a default module of the build is
      cleaned with the others, a computed one is not. */
  ghost function DefaultModule(build: seq<Module>): seq<Comp> {
    if HasDefault(build) then Clean(FindDefault(build))
    else
      var cs := AllComps(build);
      DefaultOfCtypes(Voters(build), Dists(cs), Ctypes(cs))
  }

  /** One module of the frozen build. */
  ghost function Frozen(ds: seq<Comp>, m: Module): Module {
    if m.name == DEFAULT_MODULE then Module(m.name, ds)
    else if m.name == "host-base-image" then Module(m.name, Clean(m.comps))
    else Module(m.name, Subtract(DefaultFor(m.name, ds), Clean(m.comps)))
  }

  predicate WellFormedBuild(build: seq<Module>) {
    forall i :: 0 <= i < |build| ==> WellFormed(build[i].comps)
  }

  // ---- The frozen build generates what the cleaned build generates ----

  predicate ForAllArchs(cs: seq<Comp>) {
    forall i :: 0 <= i < |cs| ==> WellFormedKey(cs[i].key) && cs[i].key.arch == ALL
  }

  lemma {:induction false} DefaultOfDistsForAllArchs(voters: seq<Comp>, dists: seq<string>)
    ensures ForAllArchs(DefaultOfDists(voters, dists))
  {
    if dists != [] { DefaultOfDistsForAllArchs(voters, dists[..|dists| - 1]); }
  }

  lemma {:induction false} DefaultOfCtypesForAllArchs(voters: seq<Comp>, dists: seq<string>, ctypes: seq<string>)
    ensures ForAllArchs(DefaultOfCtypes(voters, dists, ctypes))
  {
    if ctypes != [] {
      DefaultOfCtypesForAllArchs(voters, dists, ctypes[..|ctypes| - 1]);
      DefaultOfDistsForAllArchs(voters, dists);
    }
  }

  lemma {:induction false} FindDefaultWellFormed(build: seq<Module>)
    requires HasDefault(build) && WellFormedBuild(build)
    ensures WellFormed(FindDefault(build))
  {
    if build[0].name != DEFAULT_MODULE { FindDefaultWellFormed(build[1..]); }
  }

  lemma DefaultForAllArchs(build: seq<Module>)
    requires WellFormedBuild(build)
    ensures ForAllArchs(DefaultModule(build))
  {
    if HasDefault(build) {
      FindDefaultWellFormed(build);
    } else {
      DefaultOfCtypesForAllArchs(Voters(build), Dists(AllComps(build)), Ctypes(AllComps(build)));
    }
  }

  /** Main result on freezing: for every module other than the default and for every target, the
      frozen module generates on top of the frozen default exactly what the cleaned one generates. */
  lemma FreezeLossless(build: seq<Module>, i: nat, t: Key)
    requires WellFormedBuild(build) && WellFormedKey(t)
    requires i < |build| && build[i].name != DEFAULT_MODULE
    ensures var ds := DefaultModule(build);
            var cleaned := Module(build[i].name, Clean(build[i].comps));
            Generate(ds, Frozen(ds, build[i]), t) == Generate(ds, cleaned, t)
  {
    var ds := DefaultModule(build);
    DefaultForAllArchs(build);
    var own := DefaultFor(build[i].name, ds);
    forall k | 0 <= k < |own|
      ensures WellFormedKey(own[k].key) && own[k].key.arch == ALL
    {
      assert own[k] in ds;
    }
    SubtractLosslessWhenChained(own, Clean(build[i].comps), t);
  }

  // ---- What the default module contains ----

  /** Of the modules that inherit everything from the default every component takes part in the vote on it, of the
      others those that are not of Debian or Python packages. */
  predicate Joins(m: Module, c: Comp) {
    c in m.comps && (IsAggregatable(m.name) || c.key.ctype !in {"deb", "py2", "py3"})
  }

  predicate TakesPart(build: seq<Module>, c: Comp) {
    exists i :: 0 <= i < |build| && Joins(build[i], c)
  }

  lemma VotersOf(m: Module, c: Comp)
    ensures c in VotersIn(m) <==> Joins(m, c)
  {
  }

  lemma {:induction false} VotersTakePart(build: seq<Module>, c: Comp)
    ensures c in Voters(build) <==> TakesPart(build, c)
  {
    if build != [] {
      var pre, m := build[..|build| - 1], build[|build| - 1];
      VotersTakePart(pre, c);
      VotersOf(m, c);
      assert build == pre + [m];
      if i :| 0 <= i < |pre| && Joins(pre[i], c) {
        assert Joins(build[i], c);
      }
      if i :| 0 <= i < |build| && Joins(build[i], c) && i < |pre| {
        assert Joins(pre[i], c);
      }
      assert Joins(m, c) ==> Joins(build[|pre|], c);
    }
  }

  /** A build that has a default module keeps it, cleaned. */
  lemma {:induction false} OwnDefault(build: seq<Module>, i: nat)
    requires i < |build| && build[i].name == "default" && forall j :: 0 <= j < i ==> build[j].name != "default"
    ensures DefaultModule(build) == Clean(build[i].comps)
  {
    if i > 0 {
      OwnDefault(build[1..], i - 1);
    }
  }

  lemma {:induction false} AllCompsOf(build: seq<Module>, i: nat, c: Comp)
    requires i < |build| && c in build[i].comps
    ensures c in AllComps(build)
  {
    if i < |build| - 1 {
      AllCompsOf(build[..|build| - 1], i, c);
    }
  }

  /** A component of this type and distribution that takes part pins the package to this version, and none pins it to
      another. */
  ghost predicate AgreedIn(build: seq<Module>, ctype: string, d: string, p: string, v: string) {
    && (exists c :: TakesPart(build, c) && c.key.ctype == ctype && c.key.dist == d && Find(c.versions, p) == Some(v))
    && (forall c :: TakesPart(build, c) && c.key.ctype == ctype && c.key.dist == d && p in c.versions ==> c.versions[p] == v)
  }

  /** The same for components of any distribution. */
  ghost predicate AgreedAnywhere(build: seq<Module>, ctype: string, p: string, v: string) {
    && (exists c :: TakesPart(build, c) && c.key.ctype == ctype && Find(c.versions, p) == Some(v))
    && (forall c :: TakesPart(build, c) && c.key.ctype == ctype && p in c.versions ==> c.versions[p] == v)
  }

  ghost predicate Unanimous(voters: seq<Comp>, ctype: string, dist: Option<string>, p: string, v: string) {
    && (exists c :: c in voters && Votes(c, ctype, dist, p) && c.versions[p] == v)
    && (forall c :: c in voters && Votes(c, ctype, dist, p) ==> c.versions[p] == v)
  }

  lemma CommonExactly(voters: seq<Comp>, ctype: string, dist: Option<string>, p: string, v: string)
    ensures Find(CommonVersions(voters, ctype, dist), p) == Some(v) <==> Unanimous(voters, ctype, dist, p, v)
  {
    var all := VersionsOf(voters, ctype, dist, p);
    assert forall c :: c in voters && Votes(c, ctype, dist, p) ==> c.versions[p] in all;
    if Unanimous(voters, ctype, dist, p, v) {
      assert all == {v};
    }
    if all == {v} {
      assert v in all;
    }
  }

  lemma AgreedInExactly(build: seq<Module>, ctype: string, d: string, p: string, v: string)
    ensures Unanimous(Voters(build), ctype, Some(d), p, v) <==> AgreedIn(build, ctype, d, p, v)
  {
    forall c
      ensures c in Voters(build) <==> TakesPart(build, c)
    {
      VotersTakePart(build, c);
    }
  }

  lemma AgreedAnywhereExactly(build: seq<Module>, ctype: string, p: string, v: string)
    ensures Unanimous(Voters(build), ctype, None, p, v) <==> AgreedAnywhere(build, ctype, p, v)
  {
    forall c
      ensures c in Voters(build) <==> TakesPart(build, c)
    {
      VotersTakePart(build, c);
    }
  }

  /** The names are different and not empty. */
  predicate GoodNames(names: seq<string>) { Distinct(names) && "" !in names }

  lemma {:induction false} DistsLayer(voters: seq<Comp>, dists: seq<string>, k: Key, p: string)
    requires GoodNames(dists)
    ensures Layer(DefaultOfDists(voters, dists), k, p) ==
            if k.ctype == "deb" && k.dist in dists && k.arch == "all"
            then Find(CommonVersions(voters, "deb", Some(k.dist)), p) else None
  {
    if dists != [] {
      var pre, d := dists[..|dists| - 1], dists[|dists| - 1];
      DistsLayer(voters, pre, k, p);
      var c := Comp(Key("deb", Normalise(d), ALL), CommonVersions(voters, "deb", Some(d)));
      LayerOfLast(DefaultOfDists(voters, pre), c, k, p);
      assert d in dists && d != "";
      LastName(dists, k.dist);
    }
  }

  lemma LayerOfLast(pre: seq<Comp>, c: Comp, k: Key, p: string)
    ensures Layer(pre + [c], k, p) == if c.key == k && p in c.versions then Some(c.versions[p]) else Layer(pre, k, p)
  {
    assert (pre + [c])[..|pre|] == pre;
  }

  lemma LastName(names: seq<string>, d: string)
    requires names != [] && GoodNames(names)
    ensures var pre, last := names[..|names| - 1], names[|names| - 1];
            && GoodNames(pre) && (d in names <==> d in pre || d == last) && (d == last ==> d !in pre)
  {
  }

  lemma {:induction false} CtypesLayer(voters: seq<Comp>, dists: seq<string>, ctypes: seq<string>, k: Key, p: string)
    requires GoodNames(dists) && Distinct(ctypes)
    ensures Layer(DefaultOfCtypes(voters, dists, ctypes), k, p) ==
            if k.ctype !in ctypes then None
            else if k.ctype == "deb" then Layer(DefaultOfDists(voters, dists), k, p)
            else if k.dist == "all" && k.arch == "all" then Find(CommonVersions(voters, k.ctype, None), p)
            else None
  {
    if ctypes != [] {
      var pre, ct := ctypes[..|ctypes| - 1], ctypes[|ctypes| - 1];
      CtypesLayer(voters, dists, pre, k, p);
      assert Distinct(pre) && ct !in pre && (k.ctype in ctypes <==> k.ctype in pre || k.ctype == ct);
      if ct == "deb" {
        LayerConcat(DefaultOfCtypes(voters, dists, pre), DefaultOfDists(voters, dists), k, p);
        DistsLayer(voters, dists, k, p);
      } else {
        LayerOfLast(DefaultOfCtypes(voters, dists, pre), Comp(Key(ct, ALL, ALL), CommonVersions(voters, ct, None)), k, p);
      }
    }
  }

  lemma {:induction false} DistsAreThose(cs: seq<Comp>)
    ensures Distinct(Dists(cs)) && forall d :: d in Dists(cs) <==> exists c :: c in cs && c.key.dist == d
  {
    if cs != [] {
      var pre, c := cs[..|cs| - 1], cs[|cs| - 1];
      DistsAreThose(pre);
      assert cs == pre + [c];
      assert c in cs;
    }
  }

  lemma {:induction false} AllCompsWellFormed(build: seq<Module>)
    requires WellFormedBuild(build)
    ensures WellFormed(AllComps(build))
  {
    if build != [] {
      AllCompsWellFormed(build[..|build| - 1]);
    }
  }

  lemma GoodDists(build: seq<Module>)
    requires WellFormedBuild(build)
    ensures GoodNames(Dists(AllComps(build)))
  {
    AllCompsWellFormed(build);
    DistsAreThose(AllComps(build));
  }

  lemma PartOfAll(build: seq<Module>, c: Comp)
    requires TakesPart(build, c)
    ensures c.key.dist in Dists(AllComps(build)) && c.key.ctype in Ctypes(AllComps(build))
  {
    var i :| 0 <= i < |build| && Joins(build[i], c);
    AllCompsOf(build, i, c);
    DistsAreThose(AllComps(build));
    CtypesAreThose(AllComps(build));
    var j :| 0 <= j < |AllComps(build)| && AllComps(build)[j] == c;
  }

  /** The default module of a build that has none: a package is in the default of a distribution, for Debian
      packages, or of all distributions, for others, with the version on which all that take part agree. Nothing
      else is in it. */
  lemma DefaultHoldsAgreed(build: seq<Module>, k: Key, p: string, v: string)
    requires WellFormedBuild(build) && !HasDefault(build)
    ensures Layer(DefaultModule(build), k, p) == Some(v) <==>
      && k.arch == "all"
      && if k.ctype == "deb" then AgreedIn(build, "deb", k.dist, p, v)
         else k.dist == "all" && AgreedAnywhere(build, k.ctype, p, v)
  {
    var voters, dists, ctypes := Voters(build), Dists(AllComps(build)), Ctypes(AllComps(build));
    GoodDists(build);
    CtypesAreThose(AllComps(build));
    CtypesLayer(voters, dists, ctypes, k, p);
    DistsLayer(voters, dists, k, p);
    CommonExactly(voters, "deb", Some(k.dist), p, v);
    CommonExactly(voters, k.ctype, None, p, v);
    AgreedInExactly(build, "deb", k.dist, p, v);
    AgreedAnywhereExactly(build, k.ctype, p, v);
    if c :| TakesPart(build, c) && c.key.ctype == k.ctype && (k.ctype == "deb" ==> c.key.dist == k.dist) {
      PartOfAll(build, c);
    }
  }

  /** A frozen module is minimal: of a module other than the default and the base image of the host, no pin is left
      that the default and the components before it give. The base image keeps all. */
  lemma FrozenMinimal(build: seq<Module>, i: nat, j: nat, p: string)
    requires WellFormedBuild(build) && i < |build| && build[i].name != "default"
    requires var r := Frozen(DefaultModule(build), build[i]).comps; j < |r| && p in r[j].versions
    ensures var ds := DefaultModule(build);
            var r := Frozen(ds, build[i]).comps;
            && HasPin(Clean(build[i].comps), r[j].key, p, r[j].versions[p])
            && (build[i].name != "host-base-image" ==>
                  Find(Config(DefaultFor(build[i].name, ds), OfCtype(r[..j], r[j].key.ctype), r[j].key), p)
                    != Some(r[j].versions[p]))
            && (build[i].name == "host-base-image" ==> r == Clean(build[i].comps))
  {
    var ds := DefaultModule(build);
    var r := Frozen(ds, build[i]).comps;
    DefaultForAllArchs(build);
    var own := DefaultFor(build[i].name, ds);
    forall k | 0 <= k < |own|
      ensures WellFormedKey(own[k].key)
    {
      assert own[k] in ds;
    }
    if build[i].name != "host-base-image" {
      SubtractMinimal(own, Clean(build[i].comps), j);
    } else {
      assert r[j] in Clean(build[i].comps);
    }
  }

  /** What a module inherits from the default: everything, or all but Debian and Python packages. */
  lemma InheritedPins(name: string, ds: seq<Comp>, k: Key, p: string)
    ensures Layer(DefaultFor(name, ds), k, p) ==
      if IsAggregatable(name) || k.ctype !in {"deb", "py2", "py3"} then Layer(ds, k, p) else None
  {
    WithoutLayer(ds, OVERWRITE_CTYPES, k, p);
  }

  lemma {:induction false} WithoutLayer(cs: seq<Comp>, ctypes: set<string>, k: Key, p: string)
    ensures Layer(Without(cs, ctypes), k, p) == if k.ctype in ctypes then None else Layer(cs, k, p)
  {
    if cs != [] {
      var pre, c := cs[..|cs| - 1], cs[|cs| - 1];
      WithoutLayer(pre, ctypes, k, p);
      LayerOfLast(Without(pre, ctypes), c, k, p);
    }
  }

  /** Docker images inherit everything; build slaves, the images of the host and the default itself do not. */
  lemma WhoInherits(x: string)
    ensures IsAggregatable("docker-" + x)
    ensures !IsAggregatable("sonic-slave-" + x) && !IsAggregatable("build-sonic-slave-" + x)
    ensures !IsAggregatable("default") && !IsAggregatable("host-image") && !IsAggregatable("host-base-image")
  {
    assert ("docker-" + x)[0] == 'd' && ("docker-" + x)[1] == 'o';
    assert "default"[1] == 'e' && "sonic-slave-"[0] == 's' && "build-sonic-slave-"[0] == 'b' && "host-image"[0] == 'h'
      && "host-base-image"[0] == 'h';
  }
}
