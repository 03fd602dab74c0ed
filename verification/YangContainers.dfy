/**
 The round trip of whole tables: containers of any depth, with any number of lists.
 */
module YangContainers {
  import opened Wrappers
  import opened YangText
  import opened YangModel
  import opened YangTranslate
  import opened YangRoundTrip

  // ---- Schemas and tables that can be translated back ----

  function ListNames(model: Container): seq<string> {
    seq(|model.lists|, i requires 0 <= i < |model.lists| => model.lists[i].name)
  }

  function ChildNames(model: Container): seq<string> {
    seq(|model.containers|, i requires 0 <= i < |model.containers| => model.containers[i].name)
  }

  /** Siblings have different names, and so have the keys of a list (sections 7.5 and 7.8.2 of RFC 7950). */
  predicate WellFormed(model: Container)
    decreases model
  {
    && Distinct(ListNames(model)) && Distinct(ChildNames(model))
    && (forall n :: n in ListNames(model) ==> n !in ChildNames(model) && n !in model.leaves)
    && (forall n :: n in ChildNames(model) ==> n !in model.leaves)
    && (forall i :: 0 <= i < |model.lists| ==> Distinct(model.lists[i].keys))
    && (forall i :: 0 <= i < |model.containers| ==> WellFormed(model.containers[i]))
  }

  /** The list at position `j` is the first that accepts the key and its value. */
  predicate TakenBy(py: Python, lists: seq<ListModel>, j: nat, key: string, v: CValue) {
    j < |lists| && EntryOf(py, lists[j], key, v).Some? && forall i :: 0 <= i < j ==> EntryOf(py, lists[i], key, v).None?
  }

  /** Every part of the table can be restored from where it goes: what a list takes is a good entry of a
      list that is read back, what a container takes is good for it, what a leaf takes is a good field. */
  ghost predicate Restorable(py: Python, model: Container, config: Config)
    decreases model
  {
    var lists, rest := ActiveLists(model), AfterLists(py, model, config).1;
    && (forall k, j: nat :: k in config && TakenBy(py, lists, j, k, config[k])
          ==> Contains(lists[j].name, "_LIST") && GoodEntry(lists[j], k, config[k]))
    && (forall i :: 0 <= i < |model.containers| && model.containers[i].name in rest
          && rest[model.containers[i].name].Dict?
          ==> Restorable(py, model.containers[i], rest[model.containers[i].name].fields))
    && (forall k :: k in rest && k in model.leaves ==> GoodField(model.leaves[k], rest[k]))
  }

  // ---- Lists ----

  lemma {:induction false} FirstIsTaker(py: Python, lists: seq<ListModel>, key: string, v: CValue, from: nat) returns (j: nat)
    requires from <= |lists| && FirstAccepting(Coders(py, lists)[from..], key, v).Some?
    requires forall i :: 0 <= i < from ==> EntryOf(py, lists[i], key, v).None?
    ensures TakenBy(py, lists, j, key, v) && FirstAccepting(Coders(py, lists)[from..], key, v) == Some(CoderOf(py, lists[j]))
    decreases |lists| - from
  {
    var rest := Coders(py, lists)[from..];
    if EntryOf(py, lists[from], key, v).Some? {
      j := from;
    } else {
      assert rest[1..] == Coders(py, lists)[from + 1..];
      j := FirstIsTaker(py, lists, key, v, from + 1);
    }
  }

  lemma ClaimsAreRestored(py: Python, model: Container, config: Config)
    requires WellFormed(model) && Restorable(py, model, config)
    ensures ClaimsRestored(Coders(py, ActiveLists(model)), config)
  {
    var lists := ActiveLists(model);
    var coders := Coders(py, lists);
    assert coders[0..] == coders;
    forall k | k in config && FirstAccepting(coders, k, config[k]).Some?
      ensures ClaimRestored(coders, k, config[k])
    {
      var j := FirstIsTaker(py, lists, k, config[k], 0);
      assert lists[j] == model.lists[j];
      EntryRoundTrip(py, lists[j], k, config[k]);
    }
  }

  /** On an empty table the lists store nothing. */
  lemma {:induction false} ListsOfNothing(order: Order, lists: seq<Coder>)
    requires IsOrder(order)
    ensures XlateLists(order, lists, map[], map[]) == (map[], map[])
  {
    if lists != [] {
      var none: Config := map[];
      assert Enumerates(order(none), none.Keys);
      assert forall k :: k in order(none) ==> k in none.Keys;
      assert PutList(map[], lists[0].name, []) == map[];
      assert Rest(lists[0], none) == map[];
      ListsOfNothing(order, lists[1..]);
    }
  }

  lemma AfterListsIs(py: Python, model: Container, config: Config)
    requires IsPython(py)
    ensures AfterLists(py, model, config) == XlateLists(py.order, Coders(py, ActiveLists(model)), map[], config)
    ensures AfterLists(py, model, config).1 == Unclaimed(Coders(py, ActiveLists(model)), config)
  {
    ListsOfNothing(py.order, Coders(py, ActiveLists(model)));
    ListsLeaveUnclaimed(py.order, Coders(py, ActiveLists(model)), map[], config);
  }

  lemma ActiveNames(py: Python, model: Container)
    requires WellFormed(model)
    ensures var names := Names(Coders(py, ActiveLists(model)));
            Distinct(names) && forall n :: n in names ==> n in ListNames(model)
  {
    var names := Names(Coders(py, ActiveLists(model)));
    forall i | 0 <= i < |names|
      ensures names[i] == ListNames(model)[i]
    {
    }
  }

  /** The lists store nothing under other names. */
  lemma ListsStoreOwn(py: Python, model: Container, config: Config, name: string)
    requires IsPython(py) && WellFormed(model) && name !in ListNames(model)
    ensures name !in AfterLists(py, model, config).0
  {
    AfterListsIs(py, model, config);
    ActiveNames(py, model);
    ListsKeep(py.order, Coders(py, ActiveLists(model)), map[], config, name);
  }

  lemma ActivePartRoundTrip(order: Order, lists: seq<Coder>, config: Config, final: Yang)
    requires IsOrder(order) && Distinct(Names(lists)) && ClaimsRestored(lists, config)
    requires AgreeOn(Names(lists), final, XlateLists(order, lists, map[], config).0)
    ensures RevLists(lists, final, map[]) == Some(config - Unclaimed(lists, config).Keys)
  {
    ListsRoundTrip(order, lists, map[], config, final, map[]);
    assert map[] + (config - Unclaimed(lists, config).Keys) == config - Unclaimed(lists, config).Keys;
  }

  lemma UnusedList(py: Python, model: Container, final: Yang)
    requires ActiveLists(model) != model.lists && model.lists[0].name !in final
    ensures RevLists(Coders(py, model.lists), final, map[]) == RevLists(Coders(py, ActiveLists(model)), final, map[])
  {
  }

  /** What the lists took comes back, also when the only list of the schema is not used. */
  lemma ListPartRoundTrip(py: Python, model: Container, config: Config, final: Yang)
    requires IsPython(py) && WellFormed(model) && Restorable(py, model, config)
    requires AgreeOn(ListNames(model), final, AfterLists(py, model, config).0)
    ensures RevLists(Coders(py, model.lists), final, map[]) == Some(config - AfterLists(py, model, config).1.Keys)
  {
    AfterListsIs(py, model, config);
    ActiveNames(py, model);
    ClaimsAreRestored(py, model, config);
    ActivePartRoundTrip(py.order, Coders(py, ActiveLists(model)), config, final);
    if ActiveLists(model) != model.lists {
      var name := model.lists[0].name;
      assert ListNames(model)[0] == name;
      ListsKeep(py.order, Coders(py, []), map[], config, name);
      assert name !in AfterLists(py, model, config).0;
      assert Get(final, name) == None;
      UnusedList(py, model, final);
    }
  }

  // ---- Containers ----

  lemma {:induction false} ContainersKeep(py: Python, model: Container, i: nat, yang: Yang, config: Config, name: string)
    requires i <= |model.containers| && XlateContainers(py, model, i, yang, config).Some?
    requires forall j :: i <= j < |model.containers| ==> model.containers[j].name != name
    ensures Get(XlateContainers(py, model, i, yang, config).value.0, name) == Get(yang, name)
    decreases |model.containers| - i
  {
    if i < |model.containers| {
      var c := model.containers[i];
      if c.name !in config || !IsTrueConfig(config[c.name]) {
        ContainersKeep(py, model, i + 1, yang[c.name := Tree(map[])], config, name);
      } else {
        var children := XlateContainer(py, c, config[c.name].fields).value;
        assert Get(PutTree(yang, c.name, children), name) == Get(yang, name);
        ContainersKeep(py, model, i + 1, PutTree(yang, c.name, children), config - {c.name}, name);
      }
    }
  }

  /** Nothing comes back from nothing. */
  lemma {:induction false} RevNoLists(lists: seq<Coder>, config: Config)
    ensures RevLists(lists, map[], config) == Some(config)
  {
    if lists != [] {
      RevNoLists(lists[1..], config);
    }
  }

  lemma {:induction false} RevNoContainers(py: Python, model: Container, i: nat, yang: Yang, config: Config)
    requires i <= |model.containers| && forall n :: n in ChildNames(model) ==> n !in yang
    ensures RevContainers(py, model, i, yang, config) == Some(config)
    decreases |model.containers| - i
  {
    if i < |model.containers| {
      assert ChildNames(model)[i] == model.containers[i].name;
      RevNoContainers(py, model, i + 1, yang, config);
    }
  }

  lemma RevNothing(py: Python, model: Container)
    ensures RevContainer(py, model, map[]) == Some(map[])
  {
    RevNoLists(Coders(py, model.lists), map[]);
    RevNoContainers(py, model, 0, map[], map[]);
  }

  ghost predicate ChildRestored(py: Python, c: Container, v: CValue) {
    v.Dict? && XlateContainer(py, c, v.fields).Some? ==>
      RevContainer(py, c, XlateContainer(py, c, v.fields).value) == Some(v.fields)
  }

  ghost predicate ChildrenRestored(py: Python, model: Container, config: Config) {
    forall i :: 0 <= i < |model.containers| && model.containers[i].name in config
      ==> ChildRestored(py, model.containers[i], config[model.containers[i].name])
  }

  lemma ChildComesBack(py: Python, model: Container, i: nat, v: CValue, final: Yang, back: Config)
    requires i < |model.containers|
    requires var c := model.containers[i];
             && v.Dict? && v.fields != map[] && XlateContainer(py, c, v.fields).Some? && ChildRestored(py, c, v)
             && Get(final, c.name) == Get(PutTree(map[], c.name, XlateContainer(py, c, v.fields).value), c.name)
    ensures RevContainers(py, model, i, final, back) ==
      RevContainers(py, model, i + 1, final, back[model.containers[i].name := v])
  {
    RevNothing(py, model.containers[i]);
  }

  /** What the inner containers took comes back. */
  lemma {:induction false} ContainersRoundTrip(py: Python, model: Container, i: nat, yang: Yang, config: Config,
      final: Yang, back: Config)
    requires i <= |model.containers| && XlateContainers(py, model, i, yang, config).Some?
    requires Distinct(ChildNames(model)) && ChildrenRestored(py, model, config)
    requires AgreeOn(ChildNames(model)[i..], final, XlateContainers(py, model, i, yang, config).value.0)
    ensures var rest := XlateContainers(py, model, i, yang, config).value.1;
            RevContainers(py, model, i, final, back) == Some(back + (config - rest.Keys))
            && (forall k :: k in rest ==> k in config && rest[k] == config[k])
    decreases |model.containers| - i
  {
    if i == |model.containers| {
      assert back + (config - config.Keys) == back;
    } else {
      var c := model.containers[i];
      NamesBehind(model, i);
      if c.name !in config || !IsTrueConfig(config[c.name]) {
        var next := yang[c.name := Tree(map[])];
        ContainersKeep(py, model, i + 1, next, config, c.name);
        ContainersRoundTrip(py, model, i + 1, next, config, final, back);
      } else {
        var children := XlateContainer(py, c, config[c.name].fields).value;
        var next, rest := PutTree(yang, c.name, children), config - {c.name};
        ContainersKeep(py, model, i + 1, next, rest, c.name);
        ChildComesBack(py, model, i, config[c.name], final, back);
        ContainersRoundTrip(py, model, i + 1, next, rest, final, back[c.name := config[c.name]]);
        MergeOne(back, config, c.name, XlateContainers(py, model, i + 1, next, rest).value.1);
      }
    }
  }

  lemma MergeOne(back: Config, config: Config, name: string, rest: Config)
    requires name in config && forall k :: k in rest ==> k in config - {name}
    ensures back[name := config[name]] + (config - {name} - rest.Keys) == back + (config - rest.Keys)
  {
  }

  lemma NamesBehind(model: Container, i: nat)
    requires i < |model.containers| && Distinct(ChildNames(model))
    ensures ChildNames(model)[i..] == [model.containers[i].name] + ChildNames(model)[i + 1..]
    ensures forall j :: i < j < |model.containers| ==> model.containers[j].name != model.containers[i].name
  {
    forall j | i < j < |model.containers|
      ensures model.containers[j].name != model.containers[i].name
    {
      assert ChildNames(model)[j] != ChildNames(model)[i];
    }
  }

  // ---- Leaves and the whole container ----

  lemma LeavesRoundTrip(py: Python, leaves: map<string, Leaf>, yang: Yang, config: Config, back: Config)
    requires XlateLeaves(py, leaves, yang, config).Some? && forall k :: k in leaves ==> k !in yang
    requires forall k :: k in config && k in leaves ==> GoodField(leaves[k], config[k])
    ensures RevLeaves(py, leaves, XlateLeaves(py, leaves, yang, config).value, back) == Some(back + config)
  {
    var final := XlateLeaves(py, leaves, yang, config).value;
    forall k | k in final && k in leaves
      ensures k in config && final[k].LeafValue? && RevConvert(py, leaves[k], final[k].leaf) == Some(config[k])
    {
      FieldSurvivesExactly(py, leaves[k], config[k]);
    }
    assert (map k | k in final && k in leaves :: RevConvert(py, leaves[k], final[k].leaf).value) == config;
  }

  /** What the inner containers make of the rest of a table. */
  function AfterContainers(py: Python, model: Container, yang: Yang, config: Config): Option<(Yang, Config)> {
    if config == map[] then Some((yang, config)) else XlateContainers(py, model, 0, yang, config)
  }

  lemma MiddleRoundTrip(py: Python, model: Container, yang: Yang, config: Config, final: Yang, back: Config)
    requires AfterContainers(py, model, yang, config).Some?
    requires Distinct(ChildNames(model)) && ChildrenRestored(py, model, config)
    requires (forall n :: n in ChildNames(model) ==> n !in yang)
    requires AgreeOn(ChildNames(model), final, AfterContainers(py, model, yang, config).value.0)
    ensures var rest := AfterContainers(py, model, yang, config).value.1;
            RevContainers(py, model, 0, final, back) == Some(back + (config - rest.Keys))
            && (forall k :: k in rest ==> k in config && rest[k] == config[k])
  {
    if config == map[] {
      forall n | n in ChildNames(model)
        ensures n !in final
      {
        assert Get(final, n) == Get(yang, n);
      }
      RevNoContainers(py, model, 0, final, back);
      assert back + (config - config.Keys) == back;
    } else {
      assert ChildNames(model)[0..] == ChildNames(model);
      ContainersRoundTrip(py, model, 0, yang, config, final, back);
    }
  }

  lemma MiddleKeeps(py: Python, model: Container, yang: Yang, config: Config, name: string)
    requires AfterContainers(py, model, yang, config).Some? && name !in ChildNames(model)
    ensures Get(AfterContainers(py, model, yang, config).value.0, name) == Get(yang, name)
  {
    if config != map[] {
      forall j | 0 <= j < |model.containers|
        ensures model.containers[j].name != name
      {
        assert ChildNames(model)[j] in ChildNames(model);
      }
      ContainersKeep(py, model, 0, yang, config, name);
    }
  }

  /** The names that the schema keeps apart are also apart in the result. */
  lemma Separate(py: Python, model: Container, config: Config, y2: Yang, c2: Config)
    requires IsPython(py) && WellFormed(model)
    requires AfterContainers(py, model, AfterLists(py, model, config).0, AfterLists(py, model, config).1) == Some((y2, c2))
    ensures forall n :: n in ListNames(model) ==> Get(y2, n) == Get(AfterLists(py, model, config).0, n)
    ensures forall n :: n in ChildNames(model) ==> n !in AfterLists(py, model, config).0
    ensures forall n :: n in model.leaves ==> n !in y2
  {
    var (y1, c1) := AfterLists(py, model, config);
    forall n | n in ListNames(model)
      ensures Get(y2, n) == Get(y1, n)
    {
      MiddleKeeps(py, model, y1, c1, n);
    }
    forall n | n in ChildNames(model)
      ensures n !in y1
    {
      ListsStoreOwn(py, model, config, n);
    }
    forall n | n in model.leaves
      ensures n !in y2
    {
      ListsStoreOwn(py, model, config, n);
      MiddleKeeps(py, model, y1, c1, n);
    }
  }

  /** Round trip: whatever table forward translation accepts, reverse translation restores, for any
      schema depth and any number of lists. */
  lemma {:induction false} TableRoundTrip(py: Python, model: Container, config: Config)
    requires IsPython(py) && WellFormed(model) && Restorable(py, model, config)
    requires XlateContainer(py, model, config).Some?
    ensures RevContainer(py, model, XlateContainer(py, model, config).value) == Some(config)
    decreases model
  {
    var (y1, c1) := AfterLists(py, model, config);
    forall i | 0 <= i < |model.containers| && model.containers[i].name in c1
      ensures ChildRestored(py, model.containers[i], c1[model.containers[i].name])
    {
      var c, v := model.containers[i], c1[model.containers[i].name];
      if v.Dict? && XlateContainer(py, c, v.fields).Some? {
        TableRoundTrip(py, c, v.fields);
      }
    }
    PartsRoundTrip(py, model, config);
  }

  /** The result of forward translation, with what each stage left. */
  ghost predicate Stages(py: Python, model: Container, config: Config, y1: Yang, c1: Config, y2: Yang, c2: Config, final: Yang) {
    && AfterLists(py, model, config) == (y1, c1) && AfterContainers(py, model, y1, c1) == Some((y2, c2))
    && XlateLeaves(py, model.leaves, y2, c2) == Some(final)
  }

  lemma StagesOf(py: Python, model: Container, config: Config) returns (y1: Yang, c1: Config, y2: Yang, c2: Config)
    requires XlateContainer(py, model, config).Some?
    ensures Stages(py, model, config, y1, c1, y2, c2, XlateContainer(py, model, config).value)
  {
    var after := AfterLists(py, model, config);
    y1, c1 := after.0, after.1;
    var more := AfterContainers(py, model, y1, c1).value;
    y2, c2 := more.0, more.1;
  }

  /** The final result agrees with each stage on the names of that stage. */
  lemma FinalAgrees(py: Python, model: Container, config: Config, y1: Yang, c1: Config, y2: Yang, c2: Config, final: Yang)
    requires IsPython(py) && WellFormed(model) && Stages(py, model, config, y1, c1, y2, c2, final)
    ensures AgreeOn(ListNames(model), final, y1) && AgreeOn(ChildNames(model), final, y2)
    ensures (forall n :: n in ChildNames(model) ==> n !in y1) && (forall n :: n in model.leaves ==> n !in y2)
  {
    Separate(py, model, config, y2, c2);
  }

  lemma LeafPartRoundTrip(py: Python, model: Container, config: Config, y2: Yang, c1: Config, c2: Config, back: Config)
    requires XlateLeaves(py, model.leaves, y2, c2).Some? && forall n :: n in model.leaves ==> n !in y2
    requires forall k :: k in c2 ==> k in c1 && c2[k] == c1[k]
    requires forall k :: k in c1 && k in model.leaves ==> GoodField(model.leaves[k], c1[k])
    ensures RevLeaves(py, model.leaves, XlateLeaves(py, model.leaves, y2, c2).value, back) == Some(back + c2)
  {
    LeavesRoundTrip(py, model.leaves, y2, c2, back);
  }

  lemma Compose(py: Python, model: Container, final: Yang, config: Config, c1: Config, c2: Config)
    requires (forall k :: k in c1 ==> k in config && c1[k] == config[k]) && (forall k :: k in c2 ==> k in c1 && c2[k] == c1[k])
    requires RevLists(Coders(py, model.lists), final, map[]) == Some(config - c1.Keys)
    requires RevContainers(py, model, 0, final, config - c1.Keys) == Some(config - c1.Keys + (c1 - c2.Keys))
    requires RevLeaves(py, model.leaves, final, config - c1.Keys + (c1 - c2.Keys)) == Some(config - c1.Keys + (c1 - c2.Keys) + c2)
    ensures RevContainer(py, model, final) == Some(config)
  {
    assert config - c1.Keys + (c1 - c2.Keys) + c2 == config;
  }

  lemma PartsRoundTrip(py: Python, model: Container, config: Config)
    requires IsPython(py) && WellFormed(model) && Restorable(py, model, config)
    requires XlateContainer(py, model, config).Some? && ChildrenRestored(py, model, AfterLists(py, model, config).1)
    ensures RevContainer(py, model, XlateContainer(py, model, config).value) == Some(config)
  {
    var final := XlateContainer(py, model, config).value;
    var y1, c1, y2, c2 := StagesOf(py, model, config);
    FinalAgrees(py, model, config, y1, c1, y2, c2, final);
    ListPartRoundTrip(py, model, config, final);
    MiddleRoundTrip(py, model, y1, c1, final, config - c1.Keys);
    AfterListsIs(py, model, config);
    LeafPartRoundTrip(py, model, config, y2, c1, c2, config - c1.Keys + (c1 - c2.Keys));
    Compose(py, model, final, config, c1, c2);
  }
}
