/**
 What forward translation accepts and what it produces, name by name, and where the tables of a ConfigDB
 go.
 */
module YangMeaning {
  import opened Wrappers
  import opened YangText
  import opened YangModel
  import opened YangTranslate
  import opened YangRoundTrip
  import opened YangContainers
  import opened YangExactTables
  import opened YangTables

  // ---- Fields ----

  /** The typed value of a field: numbers are read, anything else is kept as it is. */
  lemma FieldTyped(py: Python, leaf: Leaf, s: string, l: seq<string>)
    ensures !leaf.isList && leaf.kind != Uint ==> Convert(py, leaf, Scalar(s)) == Some(Single(Text(s)))
    ensures !leaf.isList && leaf.kind == Uint ==>
      Convert(py, leaf, Scalar(s)) == if ParseInt(s).Some? then Some(Single(Number(ParseInt(s).value))) else None
    ensures leaf.isList && leaf.kind != Uint ==>
      Convert(py, leaf, Strings(l)) == Some(Many(seq(|l|, i requires 0 <= i < |l| => Text(l[i]))))
    ensures leaf.isList && leaf.kind == Uint ==>
      (Convert(py, leaf, Strings(l)).Some? <==> forall i :: 0 <= i < |l| ==> ParseInt(l[i]).Some?)
    ensures leaf.isList && leaf.kind == Uint && Convert(py, leaf, Strings(l)).Some? ==>
      var y := Convert(py, leaf, Strings(l)).value;
      y.Many? && |y.values| == |l| && forall i :: 0 <= i < |l| ==> Some(y.values[i].n) == ParseInt(l[i])
  {
    if leaf.isList && leaf.kind != Uint {
      assert ToYangAll(leaf.kind, l) == seq(|l|, i requires 0 <= i < |l| => Text(l[i]));
    }
  }

  /** Blanks, tabs, line feeds, carriage returns, vertical tabs and form feeds. */
  predicate IsBlank(c: char) { c in {' ', '\t', '\n', '\r', '\U{0B}', '\U{0C}'} }

  predicate AllBlank(a: string) { forall i :: 0 <= i < |a| ==> IsBlank(a[i]) }

  predicate NoBlankEnds(s: string) { s != "" && !IsBlank(s[0]) && !IsBlank(s[|s| - 1]) }

  lemma {:induction false} StripPadded(a: string, s: string, b: string)
    requires AllBlank(a) && AllBlank(b) && NoBlankEnds(s)
    ensures Strip(a + s + b) == s
    decreases |a| + |b|
  {
    var t := a + s + b;
    if a != "" {
      assert t[0] == a[0] && t[1..] == a[1..] + s + b;
      StripPadded(a[1..], s, b);
    } else if b != "" {
      assert t[0] == s[0] && t[|t| - 1] == b[|b| - 1] && t[..|t| - 1] == a + s + b[..|b| - 1];
      StripPadded(a, s, b[..|b| - 1]);
    } else {
      assert t == s;
    }
  }

  lemma ParsePadded(a: string, s: string, b: string)
    requires AllBlank(a) && AllBlank(b) && NoBlankEnds(s)
    ensures ParseInt(a + s + b) == ParseInt(s)
  {
    StripPadded(a, s, b);
    StripPadded("", s, "");
    assert "" + s + "" == s;
  }

  lemma ParsePlus(s: string)
    requires CanonicalNat(s)
    ensures ParseInt("+" + s) == Some(Value(s)) && NoBlankEnds("+" + s) && NoBlankEnds("-" + s) && NoBlankEnds(s)
  {
    NumeralOfDigits(s);
    var t := "+" + s;
    assert t[0] == '+' && t[|t| - 1] == s[|s| - 1] && t[1..] == s;
    assert ("-" + s)[|s|] == s[|s| - 1];
    assert Strip(t) == t;
  }

  lemma DigitsRead(s: string, a: string, b: string)
    requires AllBlank(a) && AllBlank(b) && CanonicalNat(s)
    ensures ParseInt(a + s + b) == Some(Value(s)) && ParseInt(a + ("+" + s) + b) == Some(Value(s))
  {
    ParsePlus(s);
    SurvivesNat(s);
    ParsePadded(a, s, b);
    ParsePadded(a, "+" + s, b);
  }

  lemma NegativeRead(s: string, a: string, b: string)
    requires AllBlank(a) && AllBlank(b) && CanonicalNat(s)
    ensures ParseInt(a + ("-" + s) + b) == Some(0 - Value(s))
  {
    ParsePlus(s);
    ParsePadded(a, "-" + s, b);
    NumeralOfDigits(s);
    ParseNegative(s);
  }

  /** White space around a number does not matter, nor does a plus sign in front of it. */
  lemma NumberRead(n: nat, a: string, b: string)
    requires AllBlank(a) && AllBlank(b)
    ensures ParseInt(a + PrintNat(n) + b) == Some(n) && ParseInt(a + ("+" + PrintNat(n)) + b) == Some(n)
    ensures ParseInt(a + ("-" + PrintNat(n)) + b) == Some(0 - n as int)
  {
    PrintNatCanonical(n);
    DigitsRead(PrintNat(n), a, b);
    NegativeRead(PrintNat(n), a, b);
  }

  /** The ConfigDB value of a leaf: a boolean is false if and only if it is empty or 0. */
  lemma FieldBack(py: Python, leaf: Leaf, s: string, n: int, l: seq<string>)
    requires !leaf.isList
    ensures leaf.kind == Boolean ==> RevConvert(py, leaf, Single(Text(s))) == Some(Scalar(if s == "" then "false" else "true"))
    ensures leaf.kind == Boolean ==> RevConvert(py, leaf, Single(Number(n))) == Some(Scalar(if n == 0 then "false" else "true"))
    ensures leaf.kind != Boolean ==> RevConvert(py, leaf, Single(Text(s))) == Some(Scalar(s))
    ensures leaf.kind != Boolean ==> RevConvert(py, leaf, Single(Number(n))) == Some(Scalar(PrintInt(n)))
    ensures leaf.kind == Boolean ==> RevConvert(py, leaf, Many([])) == Some(Scalar("false"))
    ensures RevConvert(py, leaf.(isList := true), Single(Number(n))) == None
    ensures RevConvert(py, leaf.(isList := true), Single(Text(s))) ==
      Some(Strings(seq(|s|, i requires 0 <= i < |s| => [s[i]])))
    ensures RevConvert(py, leaf.(isList := true), Many(seq(|l|, i requires 0 <= i < |l| => Text(l[i])))) == Some(Strings(l))
  {
    assert FromYangAll(seq(|l|, i requires 0 <= i < |l| => Text(l[i]))) == l;
  }

  // ---- Entries ----

  /** A list accepts a table key if it has as many parts as the list has keys, and its value is empty or a dictionary
      whose fields are all leaves of the list with values of the right type. */
  lemma EntryAcceptedExactly(py: Python, l: ListModel, key: string, v: CValue)
    ensures EntryOf(py, l, key, v).Some? <==>
      && |SplitAt(key, '|')| == |l.keys|
      && (v == Scalar("") || v == Strings([])
          || (v.Dict? && forall k :: k in v.fields ==> k in l.leaves && Convert(py, l.leaves[k], v.fields[k]).Some?))
  {
  }

  /** An entry holds the trimmed parts of its table key under the names of the keys, and the typed values of the
      fields, which win. */
  lemma EntryHolds(py: Python, l: ListModel, key: string, d: Config)
    requires Distinct(l.keys) && EntryOf(py, l, key, Dict(d)).Some?
    ensures var e := EntryOf(py, l, key, Dict(d)).value;
            && (forall k :: k in e <==> k in l.keys || k in d)
            && (forall k :: k in d ==> k in l.leaves && Some(e[k]) == Convert(py, l.leaves[k], d[k]))
            && (forall i :: 0 <= i < |l.keys| && l.keys[i] !in d ==>
                  e[l.keys[i]] == Single(Text(Strip(SplitAt(key, '|')[i]))))
  {
    forall i | 0 <= i < |l.keys|
      ensures KeyDict(l.keys, Split(key))[l.keys[i]] == Single(Text(Strip(Split(key)[i])))
    {
      KeyDictAt(l.keys, Split(key), i);
    }
  }

  // ---- Tables: acceptance ----

  /** List `j` of the container is used: a single list only if it is named after the container. */
  predicate IsUsed(model: Container, j: nat) {
    j < |model.lists| && (|model.lists| != 1 || model.lists[j].name == model.name + "_LIST")
  }

  predicate Claimed(py: Python, model: Container, key: string, v: CValue) {
    exists j: nat :: j < |model.lists| && IsUsed(model, j) && EntryOf(py, model.lists[j], key, v).Some?
  }

  /** Every key of the table has a place: in a list, as an inner container, or as a leaf. */
  ghost predicate Acceptable(py: Python, model: Container, config: Config)
    decreases model
  {
    forall k :: k in config && !Claimed(py, model, k, config[k]) ==>
      if k in ChildNames(model) && IsTrueConfig(config[k])
      then config[k].Dict? && forall i :: 0 <= i < |model.containers| && model.containers[i].name == k ==>
             Acceptable(py, model.containers[i], config[k].fields)
      else k in model.leaves && Convert(py, model.leaves[k], config[k]).Some?
  }

  lemma {:induction false} FirstExactly(lists: seq<Coder>, key: string, v: CValue)
    ensures FirstAccepting(lists, key, v).Some? <==> exists j :: 0 <= j < |lists| && Accepts(lists[j], key, v)
  {
    if lists != [] {
      FirstExactly(lists[1..], key, v);
      if j :| 0 <= j < |lists| && Accepts(lists[j], key, v) && j > 0 {
        assert Accepts(lists[1..][j - 1], key, v);
      }
      if j :| 0 <= j < |lists[1..]| && Accepts(lists[1..][j], key, v) {
        assert Accepts(lists[j + 1], key, v);
      }
    }
  }

  lemma ClaimedExactly(py: Python, model: Container, key: string, v: CValue)
    ensures FirstAccepting(Coders(py, ActiveLists(model)), key, v).Some? <==> Claimed(py, model, key, v)
  {
    var lists := Coders(py, ActiveLists(model));
    FirstExactly(lists, key, v);
    if j :| 0 <= j < |lists| && Accepts(lists[j], key, v) {
      assert IsUsed(model, j) && EntryOf(py, model.lists[j], key, v).Some?;
    }
    if j: nat :| j < |model.lists| && IsUsed(model, j) && EntryOf(py, model.lists[j], key, v).Some? {
      assert Accepts(lists[j], key, v);
    }
  }

  /** Inner container `j` can be translated. */
  ghost predicate ChildFits(py: Python, model: Container, config: Config, j: nat)
    requires j < |model.containers|
  {
    var c := model.containers[j];
    c.name in config && IsTrueConfig(config[c.name]) ==>
      config[c.name].Dict? && XlateContainer(py, c, config[c.name].fields).Some?
  }

  lemma FitsWithout(py: Python, model: Container, config: Config, name: string, j: nat)
    requires j < |model.containers| && model.containers[j].name != name
    ensures ChildFits(py, model, config - {name}, j) <==> ChildFits(py, model, config, j)
  {
  }

  lemma {:induction false} ContainersSucceed(py: Python, model: Container, i: nat, yang: Yang, config: Config)
    requires i <= |model.containers| && Distinct(ChildNames(model))
    ensures XlateContainers(py, model, i, yang, config).Some? <==>
      forall j :: i <= j < |model.containers| ==> ChildFits(py, model, config, j)
    decreases |model.containers| - i
  {
    if i < |model.containers| {
      var c := model.containers[i];
      NamesBehind(model, i);
      if c.name !in config || !IsTrueConfig(config[c.name]) {
        assert ChildFits(py, model, config, i);
        ContainersSucceed(py, model, i + 1, yang[c.name := Tree(map[])], config);
      } else if ChildFits(py, model, config, i) {
        var next := PutTree(yang, c.name, XlateContainer(py, c, config[c.name].fields).value);
        ContainersSucceed(py, model, i + 1, next, config - {c.name});
        forall j | i < j < |model.containers|
          ensures ChildFits(py, model, config - {c.name}, j) <==> ChildFits(py, model, config, j)
        {
          FitsWithout(py, model, config, c.name, j);
        }
      }
    }
  }

  /** The key is taken by an inner container. */
  predicate ForChild(model: Container, config: Config, k: string) {
    k in config && k in ChildNames(model) && IsTrueConfig(config[k])
  }

  lemma RestExactly(py: Python, model: Container, yang: Yang, config: Config, k: string)
    requires AfterContainers(py, model, yang, config).Some? && Distinct(ChildNames(model))
    ensures var rest := AfterContainers(py, model, yang, config).value.1;
            (k in rest <==> k in config && !ForChild(model, config, k)) && (k in rest ==> rest[k] == config[k])
  {
    if config != map[] {
      ContainersRest(py, model, 0, yang, config);
      assert ChildNames(model)[0..] == ChildNames(model);
      if k in ChildNames(model) {
        var j :| 0 <= j < |model.containers| && model.containers[j].name == k;
        ContainersStore(py, model, 0, yang, config, j);
      }
    }
  }

  /** What is left for inner containers and leaves. */
  lemma LeftExactly(py: Python, model: Container, config: Config, k: string)
    requires IsPython(py)
    ensures var c1 := AfterLists(py, model, config).1;
            (k in c1 <==> k in config && !Claimed(py, model, k, config[k])) && (k in c1 ==> c1[k] == config[k])
  {
    AfterListsIs(py, model, config);
    if k in config { ClaimedExactly(py, model, k, config[k]); }
  }

  ghost predicate ChildrenFit(py: Python, model: Container, config: Config) {
    forall j :: 0 <= j < |model.containers| ==> ChildFits(py, model, config, j)
  }

  /** Every key that is left is a leaf with a value of the right type. */
  ghost predicate LeavesFit(py: Python, model: Container, config: Config) {
    forall k :: k in config && !ForChild(model, config, k) ==> k in model.leaves && Convert(py, model.leaves[k], config[k]).Some?
  }

  lemma MiddleExactly(py: Python, model: Container, yang: Yang, config: Config)
    requires Distinct(ChildNames(model))
    ensures AfterContainers(py, model, yang, config).Some? <==> ChildrenFit(py, model, config)
  {
    ContainersSucceed(py, model, 0, yang, config);
  }

  lemma StagesExactly(py: Python, model: Container, config: Config)
    requires IsPython(py) && Distinct(ChildNames(model))
    ensures var c1 := AfterLists(py, model, config).1;
            XlateContainer(py, model, config).Some? <==> ChildrenFit(py, model, c1) && LeavesFit(py, model, c1)
  {
    var (y1, c1) := AfterLists(py, model, config);
    MiddleExactly(py, model, y1, c1);
    var r := AfterContainers(py, model, y1, c1);
    if r.Some? {
      forall k
        ensures k in r.value.1 <==> k in c1 && !ForChild(model, c1, k)
        ensures k in r.value.1 ==> r.value.1[k] == c1[k]
      {
        RestExactly(py, model, y1, c1, k);
      }
      LeavesExactly(py, model, c1, r.value.0, r.value.1);
    }
  }

  lemma LeavesExactly(py: Python, model: Container, c1: Config, y2: Yang, c2: Config)
    requires forall k :: (k in c2 <==> k in c1 && !ForChild(model, c1, k)) && (k in c2 ==> c2[k] == c1[k])
    ensures XlateLeaves(py, model.leaves, y2, c2).Some? <==> LeavesFit(py, model, c1)
  {
  }

  ghost predicate ChildExact(py: Python, c: Container, config: Config) {
    c.name in config && config[c.name].Dict? ==>
      (XlateContainer(py, c, config[c.name].fields).Some? <==> Acceptable(py, c, config[c.name].fields))
  }

  /** Forward translation accepts a table if and only if every key of it has a place. */
  lemma {:induction false} TableAcceptedExactly(py: Python, model: Container, config: Config)
    requires IsPython(py) && WellFormed(model)
    ensures XlateContainer(py, model, config).Some? <==> Acceptable(py, model, config)
    decreases model
  {
    var c1 := AfterLists(py, model, config).1;
    StagesExactly(py, model, config);
    forall k
      ensures k in c1 <==> k in config && !Claimed(py, model, k, config[k])
      ensures k in c1 ==> c1[k] == config[k]
    {
      LeftExactly(py, model, config, k);
    }
    forall j | 0 <= j < |model.containers|
      ensures ChildExact(py, model.containers[j], c1)
    {
      var c := model.containers[j];
      if c.name in c1 && c1[c.name].Dict? {
        TableAcceptedExactly(py, c, c1[c.name].fields);
      }
    }
    AcceptableExactly(py, model, config, c1);
  }

  lemma AcceptableExactly(py: Python, model: Container, config: Config, c1: Config)
    requires Distinct(ChildNames(model))
    requires forall k :: (k in c1 <==> k in config && !Claimed(py, model, k, config[k])) && (k in c1 ==> c1[k] == config[k])
    requires forall j :: 0 <= j < |model.containers| ==> ChildExact(py, model.containers[j], c1)
    ensures ChildrenFit(py, model, c1) && LeavesFit(py, model, c1) <==> Acceptable(py, model, config)
  {
    if ChildrenFit(py, model, c1) && LeavesFit(py, model, c1) {
      forall k | k in c1 && ForChild(model, c1, k)
        ensures c1[k].Dict?
      {
        var j :| 0 <= j < |model.containers| && model.containers[j].name == k;
        assert ChildFits(py, model, c1, j);
      }
      forall i | 0 <= i < |model.containers| && ForChild(model, c1, model.containers[i].name)
        ensures Acceptable(py, model.containers[i], c1[model.containers[i].name].fields)
      {
        assert ChildFits(py, model, c1, i);
      }
    }
    if Acceptable(py, model, config) {
      forall j | 0 <= j < |model.containers|
        ensures ChildFits(py, model, c1, j)
      {
        assert ChildNames(model)[j] == model.containers[j].name;
      }
    }
  }

  // ---- Tables: contents ----

  /** The keys that are left when list `j` has its turn: those that no list before it accepts. */
  function BeforeList(py: Python, model: Container, j: nat, config: Config): Config
    requires j <= |model.lists|
  {
    map k | k in config && (forall i: nat :: i < j ==> EntryOf(py, model.lists[i], k, config[k]).None?) :: config[k]
  }

  lemma BeforeListIs(py: Python, model: Container, j: nat, config: Config)
    requires IsUsed(model, j)
    ensures ActiveLists(model) == model.lists
    ensures Unclaimed(Coders(py, model.lists)[..j], config) == BeforeList(py, model, j, config)
  {
    var lists := Coders(py, model.lists)[..j];
    forall k | k in config
      ensures FirstAccepting(lists, k, config[k]).None? <==>
        forall i: nat :: i < j ==> EntryOf(py, model.lists[i], k, config[k]).None?
    {
      FirstExactly(lists, k, config[k]);
      if i: nat :| i < j && EntryOf(py, model.lists[i], k, config[k]).Some? {
        assert Accepts(lists[i], k, config[k]);
      }
    }
  }

  /** A list that is used holds the entries of the keys that it accepts and no list before it does, in the order of the
      dictionary, and is absent if there are none. A list that is not used is absent. */
  lemma ListHolds(py: Python, model: Container, config: Config, j: nat)
    requires IsPython(py) && WellFormed(model) && XlateContainer(py, model, config).Some? && j < |model.lists|
    ensures var final := XlateContainer(py, model, config).value;
            if IsUsed(model, j)
            then StoresAt(final, model.lists[j].name,
                          TakenInOrder(py.order, CoderOf(py, model.lists[j]), BeforeList(py, model, j, config)))
            else model.lists[j].name !in final
  {
    var final := XlateContainer(py, model, config).value;
    var y1, c1, y2, c2 := StagesOf(py, model, config);
    FinalAgrees(py, model, config, y1, c1, y2, c2, final);
    assert ListNames(model)[j] == model.lists[j].name;
    assert Get(final, model.lists[j].name) == Get(y1, model.lists[j].name);
    AfterListsIs(py, model, config);
    if IsUsed(model, j) {
      BeforeListIs(py, model, j, config);
      ActiveNames(py, model);
      LandsInFirst(py.order, Coders(py, model.lists), map[], config, j);
    } else {
      ListsKeep(py.order, Coders(py, []), map[], config, model.lists[j].name);
    }
  }

  /** An inner container holds the translation of the dictionary under its name, and is absent if that is empty or no
      key is left for inner containers; without such a dictionary it is empty. */
  lemma ChildHolds(py: Python, model: Container, config: Config, i: nat)
    requires IsPython(py) && WellFormed(model) && XlateContainer(py, model, config).Some? && i < |model.containers|
    ensures var c := model.containers[i];
            var left := exists k :: k in config && !Claimed(py, model, k, config[k]);
            Get(XlateContainer(py, model, config).value, c.name) ==
              if !left then None
              else if c.name in config && !Claimed(py, model, c.name, config[c.name]) && IsTrueConfig(config[c.name])
              then (var y := XlateContainer(py, c, FieldsAt(config, c.name));
                    if y.None? || y.value == map[] then None else Some(Tree(y.value)))
              else Some(Tree(map[]))
  {
    var c, final := model.containers[i], XlateContainer(py, model, config).value;
    var y1, c1, y2, c2 := StagesOf(py, model, config);
    assert ChildNames(model)[i] == c.name;
    SameChild(py, model, config, y1, c1, y2, c2, final, c.name);
    forall k
      ensures k in c1 <==> k in config && !Claimed(py, model, k, config[k])
      ensures k in c1 ==> c1[k] == config[k]
    {
      LeftExactly(py, model, config, k);
    }
    if c1 != map[] {
      var k :| k in c1;
      assert k in config && !Claimed(py, model, k, config[k]);
      MiddleStores(py, model, y1, c1, y2, c2, i);
    }
  }

  function FieldsAt(config: Config, k: string): Config {
    if k in config && config[k].Dict? then config[k].fields else map[]
  }

  /** A leaf holds the typed value of a key that no list has claimed. */
  lemma LeafHolds(py: Python, model: Container, config: Config, n: string)
    requires IsPython(py) && WellFormed(model) && XlateContainer(py, model, config).Some? && n in model.leaves
    ensures Get(XlateContainer(py, model, config).value, n) ==
      if n in config && !Claimed(py, model, n, config[n])
      then (var y := Convert(py, model.leaves[n], config[n]); if y.Some? then Some(LeafValue(y.value)) else None)
      else None
  {
    var final := XlateContainer(py, model, config).value;
    var y1, c1, y2, c2 := StagesOf(py, model, config);
    FinalAgrees(py, model, config, y1, c1, y2, c2, final);
    LeftExactly(py, model, config, n);
    Leftovers(py, model, config, y1, c1, y2, c2, final);
    assert n !in ChildNames(model);
  }

  /** There is nothing else in the container. */
  lemma NothingElse(py: Python, model: Container, config: Config, n: string)
    requires IsPython(py) && WellFormed(model) && XlateContainer(py, model, config).Some?
    requires n !in ListNames(model) && n !in ChildNames(model) && n !in model.leaves
    ensures n !in XlateContainer(py, model, config).value
  {
    var y1, c1, y2, c2 := StagesOf(py, model, config);
    ListsStoreOwn(py, model, config, n);
    MiddleKeeps(py, model, y1, c1, n);
  }

  // ---- Reverse: what is passed over ----

  /** A list that is absent, holds nothing, or has no _LIST in its name gives nothing back; one that holds anything but
      entries cannot be read. */
  lemma ListBack(py: Python, l: ListModel, yang: Yang, config: Config)
    ensures l.name !in yang || !Contains(l.name, "_LIST") || yang[l.name] in {Entries([]), Tree(map[]), LeafValue(Many([]))}
      ==> RevList(CoderOf(py, l), yang, config) == Some(config)
    ensures l.name in yang && Contains(l.name, "_LIST") && yang[l.name].Tree? && yang[l.name].children != map[]
      ==> RevList(CoderOf(py, l), yang, config) == None
  {
  }

  // ---- The whole ConfigDB ----

  /** The translated ConfigDB holds every table, translated, under module and top level container, then under top
      level container and table, and nothing else. */
  lemma DbHolds(py: Python, schema: Schema, db: Db, tables: seq<string>, s: Slot)
    requires GoodSchema(schema) && db.Keys <= schema.Keys && Enumerates(tables, db.Keys)
    requires XlateDb(py, schema, db, tables).Some?
    ensures forall t :: t in db ==>
      Look(XlateDb(py, schema, db, tables).value, (schema[t].modul + ":" + schema[t].top, schema[t].top + ":" + t)) ==
      XlateContainer(py, schema[t].container, db[t])
    ensures Look(XlateDb(py, schema, db, tables).value, s).Some? ==>
      exists t :: t in db && s == (schema[t].modul + ":" + schema[t].top, schema[t].top + ":" + t)
  {
    var forward, place := ForwardOf(py, schema, db), (t: string) => PlaceOf(schema, t);
    forall t | t in tables
      ensures TableOf(place(t).1) == Some(t)
    {
      PlaceNamesTable(schema, t);
    }
    XlateAllHolds(forward, place, TableOf, tables, s);
    forall t | t in db
      ensures Look(XlateDb(py, schema, db, tables).value, place(t)) == XlateContainer(py, schema[t].container, db[t])
    {
      assert t in tables;
      XlateAllHolds(forward, place, TableOf, tables, place(t));
    }
  }

  /** The parts of the names of a slot. */
  lemma SlotNames(modul: string, top: string, table: string)
    requires ':' !in modul && ':' !in top && ':' !in table
    ensures SplitAt(modul + ":" + top, ':') == [modul, top] && SplitAt(top + ":" + table, ':') == [top, table]
    ensures TableOf(table) == Some(table) && TableOf(top + ":" + table) == Some(table)
    ensures TableOf(modul + ":" + top + ":" + table) == None
  {
    SplitPlain(top, ':');
    SplitPlain(table, ':');
    SplitFirst(modul, top, ':');
    SplitFirst(top, table, ':');
    SplitFirst(modul, top + ":" + table, ':');
    assert modul + ":" + top + ":" + table == modul + [':'] + (top + ":" + table);
  }
}
