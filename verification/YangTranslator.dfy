/**
 The translation as it is carried out: loops that fill dictionaries and lists and remove the consumed
 keys from a copy of the table.
 */
module YangTranslator {
  import opened Wrappers
  import opened YangText
  import opened YangModel
  import opened YangTranslate
  import opened YangRoundTrip
  import opened YangTables

  // ---- Forward: fields and entries ----

  method FindYangTypedValue(py: Python, leaf: Leaf, v: CValue) returns (r: Option<YLeaf>)
    ensures r == Convert(py, leaf, v)
  {
    if leaf.isList {
      var items := Items(py, v);
      var values := [];
      for i := 0 to |items|
        invariant |values| == i && AllConvert(leaf.kind, items[..i])
        invariant forall k :: 0 <= k < i ==> values[k] == ToYang(leaf.kind, items[k]).value
      {
        var y := ToYang(leaf.kind, items[i]);
        if y.None? {
          return None;
        }
        values := values + [y.value];
        assert forall k :: 0 <= k < i ==> items[..i][k] == items[k];
      }
      assert items[..|items|] == items;
      assert values == ToYangAll(leaf.kind, items);
      return Some(Many(values));
    } else {
      var y := ToYang(leaf.kind, Str(py, v));
      return if y.Some? then Some(Single(y.value)) else None;
    }
  }

  method ExtractKey(key: string, keys: seq<string>) returns (r: Option<Entry>)
    ensures r == if |Split(key)| == |keys| then Some(KeyDict(keys, Split(key))) else None
  {
    var parts := Split(key);
    if |keys| != |parts| {
      return None;
    }
    var keyDict: Entry := map[];
    for i := 0 to |keys|
      invariant keyDict == KeyDict(keys[..i], parts[..i])
    {
      keyDict := keyDict[keys[i] := Single(Text(Strip(parts[i])))];
      assert keys[..i + 1][..i] == keys[..i] && parts[..i + 1][..i] == parts[..i];
    }
    assert keys[..|keys|] == keys && parts[..|parts|] == parts;
    return Some(keyDict);
  }

  predicate Converts(py: Python, leaves: map<string, Leaf>, d: Config, k: string) {
    k in d && k in leaves && Convert(py, leaves[k], d[k]).Some?
  }

  ghost predicate FieldsConvert(py: Python, leaves: map<string, Leaf>, d: Config, ks: seq<string>) {
    forall k :: k in ks ==> Converts(py, leaves, d, k)
  }

  /** The fields among `ks`. */
  function SomeFields(py: Python, leaves: map<string, Leaf>, d: Config, ks: seq<string>): Entry {
    map k | k in ks && Converts(py, leaves, d, k) :: Convert(py, leaves[k], d[k]).value
  }

  lemma OneMoreField(py: Python, leaves: map<string, Leaf>, d: Config, ks: seq<string>, k: string, e: Entry)
    requires FieldsConvert(py, leaves, d, ks) && Converts(py, leaves, d, k)
    ensures FieldsConvert(py, leaves, d, ks + [k])
    ensures e + SomeFields(py, leaves, d, ks + [k]) ==
      (e + SomeFields(py, leaves, d, ks))[k := Convert(py, leaves[k], d[k]).value]
  {
  }

  lemma AllFields(py: Python, leaves: map<string, Leaf>, d: Config, ks: seq<string>)
    requires Enumerates(ks, d.Keys)
    ensures CanConvert(py, leaves, d) <==> FieldsConvert(py, leaves, d, ks)
    ensures CanConvert(py, leaves, d) ==> ConvertAll(py, leaves, d) == SomeFields(py, leaves, d, ks)
  {
  }

  lemma NextKey(keys: seq<string>, i: nat)
    requires i < |keys|
    ensures keys[i] in keys && keys[..i + 1] == keys[..i] + [keys[i]]
  {
  }

  /** Adds the typed fields of an entry; fails on an unknown field or a value of the wrong type. */
  method FillFields(py: Python, leaves: map<string, Leaf>, d: Config, keyDict: Entry) returns (r: Option<Entry>)
    requires IsPython(py)
    ensures r == if CanConvert(py, leaves, d) then Some(keyDict + ConvertAll(py, leaves, d)) else None
  {
    var keys := py.order(d);
    assert Enumerates(keys, d.Keys);
    AllFields(py, leaves, d, keys);
    var entry := keyDict;
    for i := 0 to |keys|
      invariant FieldsConvert(py, leaves, d, keys[..i])
      invariant entry == keyDict + SomeFields(py, leaves, d, keys[..i])
    {
      var k := keys[i];
      NextKey(keys, i);
      if k !in leaves {
        return None;
      }
      var y := FindYangTypedValue(py, leaves[k], d[k]);
      if y.None? {
        return None;
      }
      OneMoreField(py, leaves, d, keys[..i], k, keyDict);
      entry := entry[k := y.value];
    }
    assert keys[..|keys|] == keys;
    return Some(entry);
  }

  /** The list entry for a table key, if it can be built. */
  method BuildEntry(py: Python, l: ListModel, key: string, v: CValue) returns (r: Option<Entry>)
    requires IsPython(py)
    ensures r == EntryOf(py, l, key, v)
  {
    var keyDict := ExtractKey(key, l.keys);
    if keyDict.None? {
      return None;
    }
    assert keyDict.value + map[] == keyDict.value;
    match v {
      case Scalar(s) => return if s == "" then Some(keyDict.value) else None;
      case Strings(items) => return if items == [] then Some(keyDict.value) else None;
      case Dict(d) => r := FillFields(py, l.leaves, d, keyDict.value);
    }
  }

  // ---- Forward: lists and containers ----

  /** What is left of a table after the list has been offered the keys `ks`. */
  function Left(coder: Coder, config: Config, ks: seq<string>): Config {
    config - Picked(coder, config, ks).Keys
  }

  lemma OneMoreKey(coder: Coder, config: Config, ks: seq<string>, k: string)
    requires k in config && k !in ks
    ensures k in Left(coder, config, ks)
    ensures Left(coder, config, ks + [k]) ==
      if Accepts(coder, k, config[k]) then Left(coder, config, ks) - {k} else Left(coder, config, ks)
  {
  }

  lemma KeyAt(coder: Coder, config: Config, keys: seq<string>, i: nat)
    requires Enumerates(keys, config.Keys) && i < |keys|
    ensures keys[i] in config && keys[i] in Left(coder, config, keys[..i])
    ensures var e := coder.encode(keys[i], config[keys[i]]);
            && Taken(coder, config, keys[..i + 1]) == Taken(coder, config, keys[..i]) + (if e.Some? then [e.value] else [])
            && Left(coder, config, keys[..i + 1]) ==
                 if e.Some? then Left(coder, config, keys[..i]) - {keys[i]} else Left(coder, config, keys[..i])
  {
    assert keys[i] in keys && keys[..i + 1] == keys[..i] + [keys[i]] && keys[..i + 1][..i] == keys[..i];
    OneMoreKey(coder, config, keys[..i], keys[i]);
  }

  lemma AllKeys(order: Order, coder: Coder, config: Config)
    requires Enumerates(order(config), config.Keys)
    ensures var keys := order(config)[..|order(config)|];
            && (forall k :: k in keys ==> k in config)
            && Taken(coder, config, keys) == TakenInOrder(order, coder, config)
            && Left(coder, config, keys) == Rest(coder, config)
  {
    assert order(config)[..|order(config)|] == order(config);
  }

  /** Offers a table key to the list: if the list accepts it, it moves from the table to the list. */
  method OfferKey(py: Python, l: ListModel, ghost coder: Coder, ghost config0: Config, keys: seq<string>, i: nat,
      entries0: seq<Entry>, rest: Config) returns (entries: seq<Entry>, config: Config)
    requires IsPython(py) && coder == CoderOf(py, l) && Enumerates(keys, config0.Keys) && i < |keys|
    requires entries0 == Taken(coder, config0, keys[..i]) && rest == Left(coder, config0, keys[..i])
    ensures entries == Taken(coder, config0, keys[..i + 1]) && config == Left(coder, config0, keys[..i + 1])
  {
    KeyAt(coder, config0, keys, i);
    var e := BuildEntry(py, l, keys[i], rest[keys[i]]);
    if e.Some? {
      entries, config := entries0 + [e.value], rest - {keys[i]};
    } else {
      entries, config := entries0, rest;
    }
  }

  /** Moves every key that the list accepts from the table to the list. */
  method XlateList(py: Python, l: ListModel, config0: Config) returns (entries: seq<Entry>, config: Config)
    requires IsPython(py)
    ensures entries == TakenInOrder(py.order, CoderOf(py, l), config0) && config == Rest(CoderOf(py, l), config0)
  {
    var keys := py.order(config0);
    assert Enumerates(keys, config0.Keys);
    entries, config := [], config0;
    ghost var coder := CoderOf(py, l);
    for i := 0 to |keys|
      invariant entries == Taken(coder, config0, keys[..i])
      invariant config == Left(coder, config0, keys[..i])
    {
      entries, config := OfferKey(py, l, coder, config0, keys, i, entries, config);
    }
    AllKeys(py.order, coder, config0);
  }

  method XlateListInContainer(py: Python, l: ListModel, yang0: Yang, config0: Config) returns (yang: Yang, config: Config)
    requires IsPython(py)
    ensures yang == PutList(yang0, l.name, TakenInOrder(py.order, CoderOf(py, l), config0))
    ensures config == Rest(CoderOf(py, l), config0)
  {
    var entries;
    entries, config := XlateList(py, l, config0);
    yang := yang0[l.name := Entries(entries)];
    if entries == [] {
      yang := yang - {l.name};
    }
  }

  /** Offers the table to each list in turn. */
  method XlateEachList(py: Python, lists: seq<ListModel>, config0: Config) returns (yang: Yang, config: Config)
    requires IsPython(py)
    ensures (yang, config) == XlateLists(py.order, Coders(py, lists), map[], config0)
  {
    yang, config := map[], config0;
    ghost var coders := Coders(py, lists);
    for i := 0 to |lists|
      invariant XlateLists(py.order, coders[i..], yang, config) == XlateLists(py.order, coders, map[], config0)
    {
      assert coders[i..][1..] == coders[i + 1..];
      yang, config := XlateListInContainer(py, lists[i], yang, config);
    }
  }

  /** Translates a container inside a container; absent or empty values leave an empty container and
      are not consumed. */
  method XlateContainerInContainer(py: Python, c: Container, yang0: Yang, config0: Config) returns (r: Option<(Yang, Config)>)
    requires IsPython(py)
    ensures r == if c.name !in config0 || !IsTrueConfig(config0[c.name]) then Some((yang0[c.name := Tree(map[])], config0))
                 else if !config0[c.name].Dict? || XlateContainer(py, c, config0[c.name].fields).None? then None
                 else Some((PutTree(yang0, c.name, XlateContainer(py, c, config0[c.name].fields).value), config0 - {c.name}))
    decreases c, 2
  {
    var yang := yang0[c.name := Tree(map[])];
    if c.name !in config0 || !IsTrueConfig(config0[c.name]) {
      return Some((yang, config0));
    }
    if !config0[c.name].Dict? {
      return None;
    }
    var children := XlateTable(py, c, config0[c.name].fields);
    if children.None? {
      return None;
    }
    PutTwice(yang0, c.name, children.value);
    yang := yang[c.name := Tree(children.value)];
    if children.value == map[] {
      yang := yang - {c.name};
    }
    return Some((yang, config0 - {c.name}));
  }

  lemma PutTwice(yang: Yang, name: string, children: Yang)
    ensures yang[name := Tree(map[])][name := Tree(children)] == yang[name := Tree(children)]
    ensures yang[name := Tree(children)] - {name} == yang - {name}
  {
  }

  method XlateEachContainer(py: Python, model: Container, yang0: Yang, config0: Config) returns (r: Option<(Yang, Config)>)
    requires IsPython(py)
    ensures r == XlateContainers(py, model, 0, yang0, config0)
    decreases model, 0
  {
    var yang, config := yang0, config0;
    for i := 0 to |model.containers|
      invariant XlateContainers(py, model, i, yang, config) == XlateContainers(py, model, 0, yang0, config0)
    {
      var next := XlateContainerInContainer(py, model.containers[i], yang, config);
      if next.None? {
        return None;
      }
      yang, config := next.value.0, next.value.1;
    }
    return Some((yang, config));
  }

  /** Translates a table; fails if some key of it has not been consumed in the end. */
  method XlateTable(py: Python, model: Container, config: Config) returns (r: Option<Yang>)
    requires IsPython(py)
    ensures r == XlateContainer(py, model, config)
    decreases model, 1
  {
    var yang: Yang, configC := map[], config;
    var lists := model.lists;
    if |lists| == 1 {
      if lists[0].name == model.name + "_LIST" && configC != map[] {
        yang, configC := XlateEachList(py, lists, configC);
      }
    } else if configC != map[] {
      yang, configC := XlateEachList(py, lists, configC);
    }
    assert (yang, configC) == AfterLists(py, model, config);
    if configC != map[] {
      var inner := XlateEachContainer(py, model, yang, configC);
      if inner.None? {
        return None;
      }
      yang, configC := inner.value.0, inner.value.1;
    }
    r := XlateEachLeaf(py, model.leaves, yang, configC);
  }

  /** What is left of the table when the leaves among `ks` are removed. */
  function NotLeaves(leaves: map<string, Leaf>, config: Config, ks: seq<string>): Config {
    config - (set k | k in ks && k in leaves)
  }

  /** The leaves among `ks` can be converted. */
  ghost predicate LeavesConvert(py: Python, leaves: map<string, Leaf>, config: Config, ks: seq<string>) {
    forall k :: k in ks && k in leaves ==> Converts(py, leaves, config, k)
  }

  /** Translates the remaining keys as leaves; all of them must be. */
  method XlateEachLeaf(py: Python, leaves: map<string, Leaf>, yang0: Yang, config0: Config) returns (r: Option<Yang>)
    requires IsPython(py)
    ensures r == XlateLeaves(py, leaves, yang0, config0)
  {
    var keys := py.order(config0);
    assert Enumerates(keys, config0.Keys);
    var yang, config := yang0, config0;
    for i := 0 to |keys|
      invariant LeavesConvert(py, leaves, config0, keys[..i])
      invariant yang == yang0 + SomeLeaves(py, leaves, config0, keys[..i])
      invariant config == NotLeaves(leaves, config0, keys[..i])
    {
      var k := keys[i];
      NextKey(keys, i);
      LeafRemoved(leaves, config0, keys[..i], k);
      if k in leaves {
        StillThere(leaves, config0, keys, i);
        var y := FindYangTypedValue(py, leaves[k], config[k]);
        if y.None? {
          return None;
        }
        yang := yang[k := LeafValue(y.value)];
        config := config - {k};
      }
      OneMoreLeaf(py, leaves, config0, keys[..i], k, yang0);
    }
    assert keys[..|keys|] == keys;
    AllLeaves(py, leaves, config0, keys);
    return if config == map[] then Some(yang) else None;
  }

  lemma StillThere(leaves: map<string, Leaf>, config: Config, keys: seq<string>, i: nat)
    requires Enumerates(keys, config.Keys) && i < |keys|
    ensures keys[i] in config && keys[i] in NotLeaves(leaves, config, keys[..i])
    ensures NotLeaves(leaves, config, keys[..i])[keys[i]] == config[keys[i]]
  {
    assert keys[i] in keys && keys[i] !in keys[..i];
  }

  function SomeLeaves(py: Python, leaves: map<string, Leaf>, config: Config, ks: seq<string>): Yang {
    map k | k in ks && Converts(py, leaves, config, k) :: LeafValue(Convert(py, leaves[k], config[k]).value)
  }

  lemma LeafRemoved(leaves: map<string, Leaf>, config: Config, ks: seq<string>, k: string)
    ensures var before := NotLeaves(leaves, config, ks);
            NotLeaves(leaves, config, ks + [k]) == if k in leaves then before - {k} else before
  {
  }

  lemma OneMoreLeaf(py: Python, leaves: map<string, Leaf>, config: Config, ks: seq<string>, k: string, yang: Yang)
    ensures yang + SomeLeaves(py, leaves, config, ks + [k]) ==
      if Converts(py, leaves, config, k)
      then (yang + SomeLeaves(py, leaves, config, ks))[k := LeafValue(Convert(py, leaves[k], config[k]).value)]
      else yang + SomeLeaves(py, leaves, config, ks)
  {
  }

  lemma AllLeaves(py: Python, leaves: map<string, Leaf>, config: Config, ks: seq<string>)
    requires Enumerates(ks, config.Keys)
    requires LeavesConvert(py, leaves, config, ks)
    ensures CanXlateLeaves(py, leaves, config) && LeavesOf(py, leaves, config) == SomeLeaves(py, leaves, config, ks)
    ensures NotLeaves(leaves, config, ks) == map[] <==> forall k :: k in config ==> k in leaves
  {
    var rest := NotLeaves(leaves, config, ks);
    assert forall k :: k in rest <==> k in config && k !in leaves;
  }

  // ---- Reverse ----

  method RevFindYangTypedValue(py: Python, leaf: Leaf, y: YLeaf) returns (r: Option<CValue>)
    ensures r == RevConvert(py, leaf, y)
  {
    if leaf.isList && y.Many? {
      var items := [];
      for i := 0 to |y.values|
        invariant |items| == i && forall k :: 0 <= k < i ==> items[k] == FromYang(y.values[k])
      {
        items := items + [FromYang(y.values[i])];
      }
      assert items == FromYangAll(y.values);
      return Some(Strings(items));
    } else if leaf.isList {
      return if y.value.Text? then Some(Strings(Items(py, Scalar(y.value.text)))) else None;
    } else if leaf.kind.Boolean? {
      return Some(Scalar(if IsTrue(y) then "true" else "false"));
    } else {
      return Some(Scalar(LeafText(py, y)));
    }
  }

  /** The table key of a list entry: its key leaves, each followed by a bar, without the bars at the end. */
  method CreateKey(py: Python, e: Entry, l: ListModel) returns (r: Option<string>)
    ensures r == if HasKeys(l, e) then Some(StripBars(Glue(KeyParts(py, l.keys, e)))) else None
  {
    var key := "";
    for i := 0 to |l.keys|
      invariant forall k :: k in l.keys[..i] ==> k in e && IsTrue(e[k])
      invariant key == Glue(KeyParts(py, l.keys[..i], e))
    {
      var k := l.keys[i];
      assert l.keys[..i + 1] == l.keys[..i] + [k];
      if k !in e || !IsTrue(e[k]) {
        return None;
      }
      assert KeyParts(py, l.keys[..i + 1], e) == KeyParts(py, l.keys[..i], e) + [LeafText(py, e[k])];
      GlueSnoc(KeyParts(py, l.keys[..i], e), LeafText(py, e[k]));
      key := key + LeafText(py, e[k]) + [BAR];
    }
    assert l.keys[..|l.keys|] == l.keys;
    ghost var whole := key;
    while key != "" && key[|key| - 1] == BAR
      invariant StripBars(key) == StripBars(whole)
      decreases |key|
    {
      key := key[..|key| - 1];
    }
    return Some(key);
  }

  lemma {:induction false} GlueSnoc(parts: seq<string>, p: string)
    ensures Glue(parts + [p]) == Glue(parts) + p + [BAR]
  {
    if parts == [] {
      assert parts + [p] == [p] && [p][1..] == [];
    } else {
      assert (parts + [p])[1..] == parts[1..] + [p];
      GlueSnoc(parts[1..], p);
    }
  }

  predicate Reverts(py: Python, l: ListModel, e: Entry, k: string) {
    k in e && k in l.leaves && RevConvert(py, l.leaves[k], e[k]).Some?
  }

  /** The reverted fields among `ks`, leaving out the keys of the list. */
  function SomeReverted(py: Python, l: ListModel, e: Entry, ks: set<string>): Config {
    map k | k in ks && k !in l.keys && Reverts(py, l, e, k) :: RevConvert(py, l.leaves[k], e[k]).value
  }

  lemma OneMoreReverted(py: Python, l: ListModel, e: Entry, ks: set<string>, k: string)
    requires k !in ks
    ensures SomeReverted(py, l, e, ks + {k}) ==
      if k !in l.keys && Reverts(py, l, e, k) then SomeReverted(py, l, e, ks)[k := RevConvert(py, l.leaves[k], e[k]).value]
      else SomeReverted(py, l, e, ks)
  {
  }

  lemma AllReverted(py: Python, l: ListModel, e: Entry)
    ensures CanRevert(py, l, e) <==> forall k :: k in e && k !in l.keys ==> Reverts(py, l, e, k)
    ensures CanRevert(py, l, e) ==>
      SomeReverted(py, l, e, e.Keys) == map k | k in e && k !in l.keys :: RevConvert(py, l.leaves[k], e[k]).value
  {
  }

  method RevFields(py: Python, l: ListModel, e: Entry) returns (r: Option<Config>)
    ensures r == if CanRevert(py, l, e) then Some(SomeReverted(py, l, e, e.Keys)) else None
  {
    AllReverted(py, l, e);
    var todo, fields: Config := e.Keys, map[];
    while todo != {}
      invariant todo <= e.Keys && forall k :: k in e && k !in todo && k !in l.keys ==> Reverts(py, l, e, k)
      invariant fields == SomeReverted(py, l, e, e.Keys - todo)
      decreases |todo|
    {
      var k :| k in todo;
      OneMoreReverted(py, l, e, e.Keys - todo, k);
      assert e.Keys - (todo - {k}) == e.Keys - todo + {k};
      if k !in l.keys {
        if k !in l.leaves {
          return None;
        }
        var v := RevFindYangTypedValue(py, l.leaves[k], e[k]);
        if v.None? {
          return None;
        }
        fields := fields[k := v.value];
      }
      todo := todo - {k};
    }
    assert e.Keys - {} == e.Keys;
    return Some(fields);
  }

  method RevXlateEntry(py: Python, l: ListModel, e: Entry) returns (r: Option<(string, Config)>)
    ensures r == RevEntry(py, l, e)
  {
    var key := CreateKey(py, e, l);
    if key.None? {
      return None;
    }
    var fields := RevFields(py, l, e);
    AllReverted(py, l, e);
    return if fields.None? then None else Some((key.value, fields.value));
  }

  method RevXlateList(py: Python, l: ListModel, entries: seq<Entry>, config0: Config) returns (r: Option<Config>)
    ensures r == RevEntries(CoderOf(py, l), entries, config0)
  {
    ghost var coder := CoderOf(py, l);
    var config := config0;
    for i := 0 to |entries|
      invariant RevEntries(coder, entries[..i], config0) == Some(config)
    {
      var e := RevXlateEntry(py, l, entries[i]);
      RevPrefix(coder, entries, i, config0);
      if e.None? {
        return None;
      }
      config := config[e.value.0 := Dict(e.value.1)];
    }
    assert entries[..|entries|] == entries;
    return Some(config);
  }

  /** One more entry; a failure is final. */
  lemma RevPrefix(coder: Coder, entries: seq<Entry>, i: nat, config: Config)
    requires i < |entries| && RevEntries(coder, entries[..i], config).Some?
    ensures var e := coder.decode(entries[i]);
            && (e.None? ==> RevEntries(coder, entries, config) == None)
            && (e.Some? ==> RevEntries(coder, entries[..i + 1], config) ==
                              Some(RevEntries(coder, entries[..i], config).value[e.value.0 := Dict(e.value.1)]))
  {
    assert entries[..i + 1][..i] == entries[..i];
    if coder.decode(entries[i]).None? {
      RevStuck(coder, entries, i, config);
    }
  }

  lemma {:induction false} RevStuck(coder: Coder, entries: seq<Entry>, i: nat, config: Config)
    requires i < |entries| && coder.decode(entries[i]).None?
    ensures RevEntries(coder, entries, config) == None
    decreases |entries|
  {
    var n := |entries| - 1;
    if i < n {
      RevStuck(coder, entries[..n], i, config);
    }
  }

  method RevXlateListInContainer(py: Python, l: ListModel, yang: Yang, config0: Config) returns (r: Option<Config>)
    ensures r == RevList(CoderOf(py, l), yang, config0)
  {
    if l.name !in yang || !IsTrueYang(yang[l.name]) || !Contains(l.name, "_LIST") {
      return Some(config0);
    }
    if !yang[l.name].Entries? {
      return None;
    }
    r := RevXlateList(py, l, yang[l.name].entries, config0);
  }

  method RevXlateEachList(py: Python, lists: seq<ListModel>, yang: Yang) returns (r: Option<Config>)
    ensures r == RevLists(Coders(py, lists), yang, map[])
  {
    var config: Config := map[];
    ghost var coders := Coders(py, lists);
    for i := 0 to |lists|
      invariant RevLists(coders[i..], yang, config) == RevLists(coders, yang, map[])
    {
      assert coders[i..][1..] == coders[i + 1..];
      var next := RevXlateListInContainer(py, lists[i], yang, config);
      if next.None? {
        return None;
      }
      config := next.value;
    }
    return Some(config);
  }

  method RevXlateEachContainer(py: Python, model: Container, yang: Yang, config0: Config) returns (r: Option<Config>)
    ensures r == RevContainers(py, model, 0, yang, config0)
    decreases model, 0
  {
    var config := config0;
    for i := 0 to |model.containers|
      invariant RevContainers(py, model, i, yang, config) == RevContainers(py, model, 0, yang, config0)
    {
      var c := model.containers[i];
      if c.name in yang && IsTrueYang(yang[c.name]) {
        if !yang[c.name].Tree? {
          return None;
        }
        var inner := RevXlateTable(py, c, yang[c.name].children);
        if inner.None? {
          return None;
        }
        config := config[c.name := Dict(inner.value)];
      }
    }
    return Some(config);
  }

  /** Translates a YANG container back to a table. */
  method RevXlateTable(py: Python, model: Container, yang: Yang) returns (r: Option<Config>)
    ensures r == RevContainer(py, model, yang)
    decreases model, 1
  {
    var config := RevXlateEachList(py, model.lists, yang);
    if config.None? {
      return None;
    }
    config := RevXlateEachContainer(py, model, yang, config.value);
    if config.None? {
      return None;
    }
    r := RevXlateEachLeaf(py, model.leaves, yang, config.value);
  }

  method RevXlateEachLeaf(py: Python, leaves: map<string, Leaf>, yang: Yang, config0: Config) returns (r: Option<Config>)
    ensures r == RevLeaves(py, leaves, yang, config0)
  {
    var todo, config := yang.Keys, config0;
    while todo != {}
      invariant todo <= yang.Keys && forall k :: k in yang && k !in todo && k in leaves ==> LeafReverts(py, leaves, yang, k)
      invariant config == config0 + SomeRevLeaves(py, leaves, yang, yang.Keys - todo)
      decreases |todo|
    {
      var k :| k in todo;
      assert yang.Keys - (todo - {k}) == yang.Keys - todo + {k};
      OneMoreRevLeaf(py, leaves, yang, yang.Keys - todo, k, config0);
      if k in leaves {
        if !yang[k].LeafValue? {
          return None;
        }
        var v := RevFindYangTypedValue(py, leaves[k], yang[k].leaf);
        if v.None? {
          return None;
        }
        config := config[k := v.value];
      }
      todo := todo - {k};
    }
    assert yang.Keys - {} == yang.Keys;
    AllRevLeaves(py, leaves, yang);
    return Some(config);
  }

  predicate LeafReverts(py: Python, leaves: map<string, Leaf>, yang: Yang, k: string) {
    k in yang && k in leaves && yang[k].LeafValue? && RevConvert(py, leaves[k], yang[k].leaf).Some?
  }

  function SomeRevLeaves(py: Python, leaves: map<string, Leaf>, yang: Yang, ks: set<string>): Config {
    map k | k in ks && LeafReverts(py, leaves, yang, k) :: RevConvert(py, leaves[k], yang[k].leaf).value
  }

  lemma OneMoreRevLeaf(py: Python, leaves: map<string, Leaf>, yang: Yang, ks: set<string>, k: string, config: Config)
    ensures config + SomeRevLeaves(py, leaves, yang, ks + {k}) ==
      if LeafReverts(py, leaves, yang, k)
      then (config + SomeRevLeaves(py, leaves, yang, ks))[k := RevConvert(py, leaves[k], yang[k].leaf).value]
      else config + SomeRevLeaves(py, leaves, yang, ks)
  {
  }

  lemma AllRevLeaves(py: Python, leaves: map<string, Leaf>, yang: Yang)
    requires forall k :: k in yang && k in leaves ==> LeafReverts(py, leaves, yang, k)
    ensures CanRevLeaves(py, leaves, yang)
    ensures SomeRevLeaves(py, leaves, yang, yang.Keys) ==
      map k | k in yang && k in leaves :: RevConvert(py, leaves[k], yang[k].leaf).value
  {
  }

  // ---- The whole ConfigDB ----

  lemma {:induction false} XlateStuck(forward: Forward, place: string -> Slot, tables: seq<string>, i: nat)
    requires i < |tables| && forward(tables[i]).None?
    ensures XlateAll(forward, place, tables) == None
    decreases |tables|
  {
    var n := |tables| - 1;
    if i < n {
      XlateStuck(forward, place, tables[..n], i);
    }
  }

  lemma XlateNext(forward: Forward, place: string -> Slot, tables: seq<string>, i: nat)
    requires i < |tables| && XlateAll(forward, place, tables[..i]).Some?
    ensures var before, y := XlateAll(forward, place, tables[..i]).value, forward(tables[i]);
            if y.None? then XlateAll(forward, place, tables) == None
            else XlateAll(forward, place, tables[..i + 1]) == Some(Put(before, place(tables[i]), y.value))
  {
    assert tables[..i + 1][..i] == tables[..i];
    if forward(tables[i]).None? {
      XlateStuck(forward, place, tables, i);
    }
  }

  /** Translates every table, in the order of the dictionary. */
  method XlateConfigDb(py: Python, schema: Schema, db: Db, tables: seq<string>) returns (r: Option<YangDb>)
    requires IsPython(py)
    ensures r == XlateDb(py, schema, db, tables)
  {
    ghost var forward, place := ForwardOf(py, schema, db), (t: string) => PlaceOf(schema, t);
    var yang: YangDb := map[];
    for i := 0 to |tables|
      invariant XlateAll(forward, place, tables[..i]) == Some(yang)
    {
      var t := tables[i];
      XlateNext(forward, place, tables, i);
      if t !in schema || t !in db {
        return None;
      }
      var y := XlateTable(py, schema[t].container, db[t]);
      if y.None? {
        return None;
      }
      yang := Put(yang, PlaceOf(schema, t), y.value);
    }
    assert tables[..|tables|] == tables;
    return Some(yang);
  }

  lemma {:induction false} RevAllStuck(backward: Backward, tableOf: string -> Option<string>, yang: YangDb,
      slots: seq<Slot>, i: nat)
    requires i < |slots| && RevOne(backward, tableOf, yang, slots[i]).None?
    ensures RevAll(backward, tableOf, yang, slots) == None
    decreases |slots|
  {
    var n := |slots| - 1;
    if i < n {
      RevAllStuck(backward, tableOf, yang, slots[..n], i);
    }
  }

  lemma RevNext(backward: Backward, tableOf: string -> Option<string>, yang: YangDb,
      slots: seq<Slot>, i: nat)
    requires i < |slots| && RevAll(backward, tableOf, yang, slots[..i]).Some?
    ensures var c := RevOne(backward, tableOf, yang, slots[i]);
            && (c.None? ==> RevAll(backward, tableOf, yang, slots) == None)
            && (c.Some? ==> RevAll(backward, tableOf, yang, slots[..i + 1]) ==
                              Some(RevAll(backward, tableOf, yang, slots[..i]).value[c.value.0 := c.value.1]))
  {
    assert slots[..i + 1][..i] == slots[..i];
    if RevOne(backward, tableOf, yang, slots[i]).None? {
      RevAllStuck(backward, tableOf, yang, slots, i);
    }
  }

  /** The table that one container stands for. */
  method RevXlateSlot(py: Python, schema: Schema, yang: YangDb, s: Slot) returns (r: Option<(string, Config)>)
    ensures r == RevOne(BackwardOf(py, schema), TableOf, yang, s)
  {
    var t, y := TableOf(s.1), Look(yang, s);
    if t.None? || y.None? || t.value !in schema {
      return None;
    }
    var c := RevXlateTable(py, schema[t.value].container, y.value);
    return if c.None? then None else Some((t.value, c.value));
  }

  /** Translates every container back, in the order of the dictionaries. */
  method RevXlateYang(py: Python, schema: Schema, yang: YangDb, slots: seq<Slot>) returns (r: Option<Db>)
    ensures r == RevDb(py, schema, yang, slots)
  {
    ghost var backward := BackwardOf(py, schema);
    var db: Db := map[];
    for i := 0 to |slots|
      invariant RevAll(backward, TableOf, yang, slots[..i]) == Some(db)
    {
      RevNext(backward, TableOf, yang, slots, i);
      var c := RevXlateSlot(py, schema, yang, slots[i]);
      if c.None? {
        return None;
      }
      db := db[c.value.0 := c.value.1];
    }
    assert slots[..|slots|] == slots;
    return Some(db);
  }
}
