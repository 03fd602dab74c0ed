/**
 Exactness of the round trip for whole tables.
 */
module YangExactTables {
  import opened Wrappers
  import opened YangText
  import opened YangModel
  import opened YangTranslate
  import opened YangRoundTrip
  import opened YangContainers
  import opened YangExact

  // ---- What the inner containers store and leave ----

  lemma {:induction false} ContainersRest(py: Python, model: Container, i: nat, yang: Yang, config: Config)
    requires i <= |model.containers| && XlateContainers(py, model, i, yang, config).Some?
    ensures var rest := XlateContainers(py, model, i, yang, config).value.1;
            && (forall k :: k in rest ==> k in config && rest[k] == config[k])
            && (forall k :: k in config && k !in ChildNames(model)[i..] ==> k in rest)
    decreases |model.containers| - i
  {
    if i < |model.containers| {
      var c := model.containers[i];
      assert ChildNames(model)[i..] == [c.name] + ChildNames(model)[i + 1..];
      if c.name !in config || !IsTrueConfig(config[c.name]) {
        ContainersRest(py, model, i + 1, yang[c.name := Tree(map[])], config);
      } else {
        var children := XlateContainer(py, c, config[c.name].fields).value;
        ContainersRest(py, model, i + 1, PutTree(yang, c.name, children), config - {c.name});
      }
    }
  }

  /** The outcome for one inner container. */
  ghost predicate Stored(py: Python, c: Container, config: Config, yang: Yang, rest: Config) {
    if c.name in config && IsTrueConfig(config[c.name]) then
      && config[c.name].Dict? && XlateContainer(py, c, config[c.name].fields).Some? && c.name !in rest
      && Get(yang, c.name) == Get(PutTree(map[], c.name, XlateContainer(py, c, config[c.name].fields).value), c.name)
    else Get(yang, c.name) == Some(Tree(map[])) && (c.name in config ==> c.name in rest)
  }

  lemma {:induction false} ContainersStore(py: Python, model: Container, i: nat, yang: Yang, config: Config, j: nat)
    requires i <= j < |model.containers| && XlateContainers(py, model, i, yang, config).Some? && Distinct(ChildNames(model))
    ensures var r := XlateContainers(py, model, i, yang, config).value; Stored(py, model.containers[j], config, r.0, r.1)
    decreases j - i
  {
    var c, n := model.containers[i], model.containers[j].name;
    NamesBehind(model, i);
    if c.name !in config || !IsTrueConfig(config[c.name]) {
      var next := yang[c.name := Tree(map[])];
      if i < j {
        ContainersStore(py, model, i + 1, next, config, j);
      } else {
        ContainersKeep(py, model, i + 1, next, config, n);
        ContainersRest(py, model, i + 1, next, config);
        NotBehind(model, i);
      }
    } else {
      var next, rest := PutTree(yang, c.name, XlateContainer(py, c, config[c.name].fields).value), config - {c.name};
      if i < j {
        ContainersStore(py, model, i + 1, next, rest, j);
      } else {
        ContainersKeep(py, model, i + 1, next, rest, n);
        ContainersRest(py, model, i + 1, next, rest);
      }
    }
  }

  lemma NotBehind(model: Container, i: nat)
    requires i < |model.containers| && Distinct(ChildNames(model))
    ensures model.containers[i].name !in ChildNames(model)[i + 1..]
  {
    var behind := ChildNames(model)[i + 1..];
    forall j | 0 <= j < |behind|
      ensures behind[j] != model.containers[i].name
    {
      assert behind[j] == ChildNames(model)[i + 1 + j] != ChildNames(model)[i];
    }
  }

  // ---- What reverse translation of inner containers yields ----

  lemma {:induction false} RevContainersFrom(py: Python, model: Container, i: nat, yang: Yang, back: Config, k: string)
    requires i <= |model.containers| && RevContainers(py, model, i, yang, back).Some?
    requires k !in ChildNames(model) || k !in yang || !IsTrueYang(yang[k])
    ensures k in RevContainers(py, model, i, yang, back).value <==> k in back
    ensures k in back ==> RevContainers(py, model, i, yang, back).value[k] == back[k]
    decreases |model.containers| - i
  {
    if i < |model.containers| {
      var c := model.containers[i];
      assert ChildNames(model)[i] == c.name;
      if c.name !in yang || !IsTrueYang(yang[c.name]) {
        RevContainersFrom(py, model, i + 1, yang, back, k);
      } else {
        var inner := RevContainer(py, c, yang[c.name].children).value;
        RevContainersFrom(py, model, i + 1, yang, back[c.name := Dict(inner)], k);
      }
    }
  }

  lemma {:induction false} RevContainersAt(py: Python, model: Container, i: nat, yang: Yang, back: Config, j: nat)
    requires i <= j < |model.containers| && RevContainers(py, model, i, yang, back).Some? && Distinct(ChildNames(model))
    requires var n := model.containers[j].name; n in yang && yang[n].Tree? && yang[n].children != map[]
    ensures var c, r := model.containers[j], RevContainers(py, model, i, yang, back).value;
            var inner := RevContainer(py, c, yang[c.name].children);
            inner.Some? && c.name in r && r[c.name] == Dict(inner.value)
    decreases j - i
  {
    var c := model.containers[i];
    NamesBehind(model, i);
    if i < j {
      var next := if c.name in yang && IsTrueYang(yang[c.name])
                  then back[c.name := Dict(RevContainer(py, c, yang[c.name].children).value)] else back;
      RevContainersAt(py, model, i + 1, yang, next, j);
    } else {
      var next := back[c.name := Dict(RevContainer(py, c, yang[c.name].children).value)];
      RevBehind(py, model, i + 1, yang, next, c.name);
    }
  }

  lemma {:induction false} RevBehind(py: Python, model: Container, i: nat, yang: Yang, back: Config, k: string)
    requires i <= |model.containers| && RevContainers(py, model, i, yang, back).Some? && k in back
    requires forall j :: i <= j < |model.containers| ==> model.containers[j].name != k
    ensures k in RevContainers(py, model, i, yang, back).value && RevContainers(py, model, i, yang, back).value[k] == back[k]
    decreases |model.containers| - i
  {
    if i < |model.containers| {
      var c := model.containers[i];
      var next := if c.name in yang && IsTrueYang(yang[c.name])
                  then back[c.name := Dict(RevContainer(py, c, yang[c.name].children).value)] else back;
      RevBehind(py, model, i + 1, yang, next, k);
    }
  }

  // ---- The image of a table that is not empty is not empty ----

  lemma {:induction false} TakenSome(l: Coder, config: Config, keys: seq<string>, k: string)
    requires (forall x :: x in keys ==> x in config) && k in keys && Accepts(l, k, config[k])
    ensures Taken(l, config, keys) != []
  {
    var n := |keys| - 1;
    if keys[n] != k {
      assert k in keys[..n];
      TakenSome(l, config, keys[..n], k);
    }
  }

  lemma {:induction false} FirstBefore(lists: seq<Coder>, j: nat, k: string, v: CValue)
    requires j < |lists| && Accepts(lists[j], k, v) && forall i :: 0 <= i < j ==> !Accepts(lists[i], k, v)
    ensures FirstAccepting(lists[..j], k, v) == None && FirstAccepting(lists, k, v) == Some(lists[j])
  {
    if j > 0 {
      assert lists[..j][1..] == lists[1..][..j - 1] && lists[1..][j - 1] == lists[j];
      FirstBefore(lists[1..], j - 1, k, v);
    }
  }

  /** A list that takes a key is stored. */
  lemma ListStored(py: Python, lists: seq<ListModel>, config: Config, k: string, j: nat)
    requires IsPython(py) && Distinct(Names(Coders(py, lists))) && k in config && TakenBy(py, lists, j, k, config[k])
    ensures lists[j].name in XlateLists(py.order, Coders(py, lists), map[], config).0
  {
    var coders := Coders(py, lists);
    FirstBefore(coders, j, k, config[k]);
    LandsInFirst(py.order, coders, map[], config, j);
    var left := Unclaimed(coders[..j], config);
    assert Enumerates(py.order(left), left.Keys);
    TakenSome(coders[j], left, py.order(left), k);
  }

  lemma {:induction false} ImageNotEmpty(py: Python, model: Container, config: Config)
    requires IsPython(py) && WellFormed(model) && XlateContainer(py, model, config).Some? && config != map[]
    ensures XlateContainer(py, model, config).value != map[]
    decreases model
  {
    var final := XlateContainer(py, model, config).value;
    var y1, c1, y2, c2 := StagesOf(py, model, config);
    FinalAgrees(py, model, config, y1, c1, y2, c2, final);
    if c1 == map[] {
      SomeListStored(py, model, config, final);
    } else if |model.containers| == 0 {
      assert c2 == c1;
      var k :| k in c1;
      assert k in final;
    } else {
      var c := model.containers[0];
      ContainersStore(py, model, 0, y1, c1, 0);
      if c.name in c1 && IsTrueConfig(c1[c.name]) {
        ImageNotEmpty(py, c, c1[c.name].fields);
      }
      assert ChildNames(model)[0] == c.name;
      assert Get(final, c.name) == Get(y2, c.name);
      assert c.name in final;
    }
  }

  lemma SomeListStored(py: Python, model: Container, config: Config, final: Yang)
    requires IsPython(py) && WellFormed(model) && config != map[] && AfterLists(py, model, config).1 == map[]
    requires AgreeOn(ListNames(model), final, AfterLists(py, model, config).0)
    ensures final != map[]
  {
    var lists := ActiveLists(model);
    var coders := Coders(py, lists);
    AfterListsIs(py, model, config);
    var k :| k in config;
    assert k !in Unclaimed(coders, config);
    assert coders[0..] == coders;
    var j := FirstIsTaker(py, lists, k, config[k], 0);
    ActiveNames(py, model);
    ListStored(py, lists, config, k, j);
    assert Names(coders)[j] == lists[j].name;
    assert Get(final, lists[j].name).Some?;
  }

  // ---- A table that comes back is restorable ----

  /** Forward translation in stages, and reverse translation of the result in stages. */
  ghost predicate ComesBack(py: Python, model: Container, config: Config, y1: Yang, c1: Config, y2: Yang, c2: Config, final: Yang,
      r1: Config, r2: Config)
  {
    && Stages(py, model, config, y1, c1, y2, c2, final)
    && RevLists(Coders(py, model.lists), final, map[]) == Some(r1)
    && RevContainers(py, model, 0, final, r1) == Some(r2)
    && RevLeaves(py, model.leaves, final, r2) == Some(config)
  }

  /** What the stages leave is part of the table; only inner containers are removed from the second. */
  lemma Leftovers(py: Python, model: Container, config: Config, y1: Yang, c1: Config, y2: Yang, c2: Config, final: Yang)
    requires IsPython(py) && Stages(py, model, config, y1, c1, y2, c2, final)
    ensures forall k :: k in c1 ==> k in config && c1[k] == config[k]
    ensures forall k :: k in c2 ==> k in c1 && c2[k] == c1[k] && k in model.leaves
    ensures forall k :: k in c1 && k !in ChildNames(model) ==> k in c2
  {
    AfterListsIs(py, model, config);
    if c1 != map[] {
      ContainersRest(py, model, 0, y1, c1);
      assert ChildNames(model)[0..] == ChildNames(model);
    }
  }

  lemma LeafSide(py: Python, model: Container, config: Config, y1: Yang, c1: Config, y2: Yang, c2: Config, final: Yang,
      r1: Config, r2: Config, k: string)
    requires IsPython(py) && WellFormed(model) && ComesBack(py, model, config, y1, c1, y2, c2, final, r1, r2)
    requires k in c1 && k in model.leaves
    ensures GoodField(model.leaves[k], c1[k])
  {
    Leftovers(py, model, config, y1, c1, y2, c2, final);
    assert k in c2 && final[k] == LeafValue(Convert(py, model.leaves[k], c2[k]).value);
    FieldSurvivesExactly(py, model.leaves[k], c1[k]);
  }

  /** A key that no leaf holds comes back from the stage before. */
  lemma NotFromLeaf(py: Python, model: Container, config: Config, y1: Yang, c1: Config, y2: Yang, c2: Config, final: Yang,
      r1: Config, r2: Config, k: string)
    requires IsPython(py) && WellFormed(model) && ComesBack(py, model, config, y1, c1, y2, c2, final, r1, r2)
    requires k in config && k !in c2
    ensures k in r2 && r2[k] == config[k]
  {
    FinalAgrees(py, model, config, y1, c1, y2, c2, final);
  }

  lemma MiddleStores(py: Python, model: Container, y1: Yang, c1: Config, y2: Yang, c2: Config, i: nat)
    requires Distinct(ChildNames(model)) && AfterContainers(py, model, y1, c1) == Some((y2, c2)) && c1 != map[]
    requires i < |model.containers|
    ensures Stored(py, model.containers[i], c1, y2, c2)
  {
    ContainersStore(py, model, 0, y1, c1, i);
  }

  lemma ChildStored(py: Python, model: Container, config: Config, y1: Yang, c1: Config, y2: Yang, c2: Config, final: Yang, i: nat)
    requires IsPython(py) && WellFormed(model) && Stages(py, model, config, y1, c1, y2, c2, final)
    requires i < |model.containers| && model.containers[i].name in c1 && c1[model.containers[i].name].Dict?
    ensures var c := model.containers[i];
            var children := XlateContainer(py, c, c1[c.name].fields);
            && c.name !in c2 && children.Some? && children.value != map[]
            && Get(final, c.name) == Some(Tree(children.value))
  {
    var c := model.containers[i];
    assert ChildNames(model)[i] == c.name;
    Leftovers(py, model, config, y1, c1, y2, c2, final);
    MiddleStores(py, model, y1, c1, y2, c2, i);
    assert c.name !in c2;
    ImageNotEmpty(py, c, c1[c.name].fields);
    FinalAgrees(py, model, config, y1, c1, y2, c2, final);
    assert Get(final, c.name) == Get(y2, c.name);
  }

  lemma ChildSide(py: Python, model: Container, config: Config, y1: Yang, c1: Config, y2: Yang, c2: Config, final: Yang,
      r1: Config, r2: Config, i: nat)
    requires IsPython(py) && WellFormed(model) && ComesBack(py, model, config, y1, c1, y2, c2, final, r1, r2)
    requires i < |model.containers| && model.containers[i].name in c1 && c1[model.containers[i].name].Dict?
    ensures var c := model.containers[i];
            var children := XlateContainer(py, c, c1[c.name].fields);
            children.Some? && RevContainer(py, c, children.value) == Some(c1[c.name].fields)
  {
    Leftovers(py, model, config, y1, c1, y2, c2, final);
    ChildStored(py, model, config, y1, c1, y2, c2, final, i);
    RevContainersAt(py, model, 0, final, r1, i);
    NotFromLeaf(py, model, config, y1, c1, y2, c2, final, r1, r2, model.containers[i].name);
  }

  /** A key that the lists took is not stored under the name of an inner container. */
  lemma NotFromContainer(py: Python, model: Container, config: Config, y1: Yang, c1: Config,
      y2: Yang, c2: Config, final: Yang, k: string)
    requires IsPython(py) && WellFormed(model) && Stages(py, model, config, y1, c1, y2, c2, final)
    requires k in ChildNames(model) && k !in c1
    ensures k !in final || !IsTrueYang(final[k])
  {
    SameChild(py, model, config, y1, c1, y2, c2, final, k);
    if c1 != map[] {
      EmptyChild(py, model, y1, c1, y2, c2, k);
    }
  }

  lemma SameChild(py: Python, model: Container, config: Config, y1: Yang, c1: Config,
      y2: Yang, c2: Config, final: Yang, k: string)
    requires IsPython(py) && WellFormed(model) && Stages(py, model, config, y1, c1, y2, c2, final)
    requires k in ChildNames(model)
    ensures Get(final, k) == Get(y2, k) && (c1 == map[] ==> k !in y2)
  {
    FinalAgrees(py, model, config, y1, c1, y2, c2, final);
  }

  lemma EmptyChild(py: Python, model: Container, y1: Yang, c1: Config, y2: Yang, c2: Config, k: string)
    requires Distinct(ChildNames(model)) && AfterContainers(py, model, y1, c1) == Some((y2, c2)) && c1 != map[]
    requires k in ChildNames(model) && k !in c1
    ensures Get(y2, k) == Some(Tree(map[]))
  {
    var i :| 0 <= i < |ChildNames(model)| && ChildNames(model)[i] == k;
    assert model.containers[i].name == k;
    MiddleStores(py, model, y1, c1, y2, c2, i);
  }

  /** A key that a list took comes back from the lists. */
  lemma FromLists(py: Python, model: Container, config: Config, y1: Yang, c1: Config, y2: Yang, c2: Config, final: Yang,
      r1: Config, r2: Config, k: string)
    requires IsPython(py) && WellFormed(model) && ComesBack(py, model, config, y1, c1, y2, c2, final, r1, r2)
    requires k in config && k !in c1
    ensures k in r1 && r1[k] == config[k]
  {
    Leftovers(py, model, config, y1, c1, y2, c2, final);
    NotFromLeaf(py, model, config, y1, c1, y2, c2, final, r1, r2, k);
    if k in ChildNames(model) {
      NotFromContainer(py, model, config, y1, c1, y2, c2, final, k);
    }
    RevContainersFrom(py, model, 0, final, r1, k);
  }

  lemma ListSide(py: Python, model: Container, config: Config, y1: Yang, c1: Config, y2: Yang, c2: Config, final: Yang,
      r1: Config, r2: Config)
    requires IsPython(py) && WellFormed(model) && ComesBack(py, model, config, y1, c1, y2, c2, final, r1, r2)
    ensures ClaimsRestored(Coders(py, ActiveLists(model)), config)
  {
    var lists := ActiveLists(model);
    var coders := Coders(py, lists);
    forall k | k in config
      ensures Originates(coders, config, k)
    {
      if FirstAccepting(coders, k, config[k]).Some? {
        AfterListsIs(py, model, config);
        FromLists(py, model, config, y1, c1, y2, c2, final, r1, r2, k);
        FinalAgrees(py, model, config, y1, c1, y2, c2, final);
        ActiveNames(py, model);
        ListOrigin(py.order, coders, map[], config, final, map[], k);
      }
    }
    AllRestored(py, lists, config);
  }

  lemma StagesBack(py: Python, model: Container, config: Config, y1: Yang, c1: Config, y2: Yang, c2: Config, final: Yang)
    returns (r1: Config, r2: Config)
    requires Stages(py, model, config, y1, c1, y2, c2, final) && RevContainer(py, model, final) == Some(config)
    ensures ComesBack(py, model, config, y1, c1, y2, c2, final, r1, r2)
  {
    r1 := RevLists(Coders(py, model.lists), final, map[]).value;
    r2 := RevContainers(py, model, 0, final, r1).value;
  }

  lemma EntriesAreGood(py: Python, lists: seq<ListModel>, config: Config, k: string, j: nat)
    requires (forall i :: 0 <= i < |lists| ==> Distinct(lists[i].keys)) && ClaimsRestored(Coders(py, lists), config)
    requires k in config && TakenBy(py, lists, j, k, config[k])
    ensures Contains(lists[j].name, "_LIST") && GoodEntry(lists[j], k, config[k])
  {
    var coders := Coders(py, lists);
    assert ClaimRestored(coders, k, config[k]);
    FirstBefore(coders, j, k, config[k]);
    EntrySurvivesExactly(py, lists[j], k, config[k]);
  }

  /** Only restorable tables come back. */
  lemma {:induction false} OnlyRestorable(py: Python, model: Container, config: Config)
    requires IsPython(py) && WellFormed(model) && XlateContainer(py, model, config).Some?
    requires RevContainer(py, model, XlateContainer(py, model, config).value) == Some(config)
    ensures Restorable(py, model, config)
    decreases model
  {
    var final := XlateContainer(py, model, config).value;
    var y1, c1, y2, c2 := StagesOf(py, model, config);
    var r1, r2 := StagesBack(py, model, config, y1, c1, y2, c2, final);
    ListSide(py, model, config, y1, c1, y2, c2, final, r1, r2);
    var lists := ActiveLists(model);
    forall k, j: nat | k in config && TakenBy(py, lists, j, k, config[k])
      ensures Contains(lists[j].name, "_LIST") && GoodEntry(lists[j], k, config[k])
    {
      EntriesAreGood(py, lists, config, k, j);
    }
    forall i | 0 <= i < |model.containers| && model.containers[i].name in c1 && c1[model.containers[i].name].Dict?
      ensures Restorable(py, model.containers[i], c1[model.containers[i].name].fields)
    {
      ChildSide(py, model, config, y1, c1, y2, c2, final, r1, r2, i);
      OnlyRestorable(py, model.containers[i], c1[model.containers[i].name].fields);
    }
    forall k | k in c1 && k in model.leaves
      ensures GoodField(model.leaves[k], c1[k])
    {
      LeafSide(py, model, config, y1, c1, y2, c2, final, r1, r2, k);
    }
  }

  /** The round trip is exact: a table that forward translation accepts comes back if and only if it is
      restorable, for any schema depth and any number of lists. */
  lemma TableSurvivesExactly(py: Python, model: Container, config: Config)
    requires IsPython(py) && WellFormed(model) && XlateContainer(py, model, config).Some?
    ensures RevContainer(py, model, XlateContainer(py, model, config).value) == Some(config) <==> Restorable(py, model, config)
  {
    if Restorable(py, model, config) {
      TableRoundTrip(py, model, config);
    } else if RevContainer(py, model, XlateContainer(py, model, config).value) == Some(config) {
      OnlyRestorable(py, model, config);
    }
  }
}
