/**
 Translation of ConfigDB tables to YANG containers and back.
 */
module YangTranslate {
  import opened Wrappers
  import opened YangText
  import opened YangModel

  function Get(yang: Yang, name: string): Option<YValue> {
    if name in yang then Some(yang[name]) else None
  }

  /** How a list writes and reads its entries; only a list whose name contains _LIST is read back. */
  datatype Coder = Coder(
    name: string, marked: bool,
    encode: (string, CValue) -> Option<Entry>, decode: Entry -> Option<(string, Config)>)

  function CoderOf(py: Python, l: ListModel): Coder {
    Coder(l.name, Contains(l.name, "_LIST"), (k, v) => EntryOf(py, l, k, v), e => RevEntry(py, l, e))
  }

  function Coders(py: Python, lists: seq<ListModel>): (r: seq<Coder>)
    ensures |r| == |lists| && forall i :: 0 <= i < |r| ==> r[i] == CoderOf(py, lists[i])
  {
    seq(|lists|, i requires 0 <= i < |lists| => CoderOf(py, lists[i]))
  }

  // ---- Forward: lists ----

  predicate Accepts(l: Coder, key: string, v: CValue) {
    l.encode(key, v).Some?
  }

  /** The entries of the table keys that the list accepts, in the given order. */
  function Taken(l: Coder, config: Config, keys: seq<string>): seq<Entry>
    requires forall k :: k in keys ==> k in config
  {
    if keys == [] then []
    else
      var n := |keys| - 1;
      var e := l.encode(keys[n], config[keys[n]]);
      Taken(l, config, keys[..n]) + if e.Some? then [e.value] else []
  }

  /** The table keys that are left for the lists that follow. */
  function Rest(l: Coder, config: Config): Config {
    map k | k in config && !Accepts(l, k, config[k]) :: config[k]
  }

  function PutList(yang: Yang, name: string, entries: seq<Entry>): Yang {
    if entries == [] then yang - {name} else yang[name := Entries(entries)]
  }

  function TakenInOrder(order: Order, l: Coder, config: Config): seq<Entry> {
    if forall k :: k in order(config) ==> k in config then Taken(l, config, order(config)) else []
  }

  function XlateLists(order: Order, lists: seq<Coder>, yang: Yang, config: Config): (Yang, Config) {
    if lists == [] then (yang, config)
    else XlateLists(order, lists[1..], PutList(yang, lists[0].name, TakenInOrder(order, lists[0], config)),
                    Rest(lists[0], config))
  }

  /** A single list is used only if it is named after its container. */
  function ActiveLists(model: Container): seq<ListModel> {
    if |model.lists| == 1 && model.lists[0].name != model.name + "_LIST" then [] else model.lists
  }

  // ---- Forward: containers and leaves ----

  predicate IsTrueConfig(v: CValue) {
    match v
    case Scalar(s) => s != ""
    case Strings(l) => l != []
    case Dict(d) => d != map[]
  }

  function PutTree(yang: Yang, name: string, children: Yang): Yang {
    if children == map[] then yang - {name} else yang[name := Tree(children)]
  }

  predicate CanXlateLeaves(py: Python, leaves: map<string, Leaf>, config: Config) {
    forall k :: k in config && k in leaves ==> Convert(py, leaves[k], config[k]).Some?
  }

  function LeavesOf(py: Python, leaves: map<string, Leaf>, config: Config): Yang
    requires CanXlateLeaves(py, leaves, config)
  {
    map k | k in config && k in leaves :: LeafValue(Convert(py, leaves[k], config[k]).value)
  }

  function XlateContainers(py: Python, model: Container, i: nat, yang: Yang, config: Config): Option<(Yang, Config)>
    requires i <= |model.containers|
    decreases model, |model.containers| - i
  {
    if i == |model.containers| then Some((yang, config))
    else
      var c := model.containers[i];
      if c.name !in config || !IsTrueConfig(config[c.name]) then
        XlateContainers(py, model, i + 1, yang[c.name := Tree(map[])], config)
      else if !config[c.name].Dict? then None
      else
        var children := XlateContainer(py, c, config[c.name].fields);
        if children.None? then None
        else XlateContainers(py, model, i + 1, PutTree(yang, c.name, children.value), config - {c.name})
  }

  /** What the lists of a container make of a table, and what they leave. */
  function AfterLists(py: Python, model: Container, config: Config): (Yang, Config) {
    if config == map[] then (map[], config) else XlateLists(py.order, Coders(py, ActiveLists(model)), map[], config)
  }

  /** The YANG container for a table, or nothing if some key of the table cannot be placed. */
  function XlateContainer(py: Python, model: Container, config: Config): Option<Yang>
    decreases model, |model.containers| + 1
  {
    var (y1, c1) := AfterLists(py, model, config);
    var r := if c1 == map[] then Some((y1, c1)) else XlateContainers(py, model, 0, y1, c1);
    if r.None? then None else XlateLeaves(py, model.leaves, r.value.0, r.value.1)
  }

  function XlateLeaves(py: Python, leaves: map<string, Leaf>, yang: Yang, config: Config): Option<Yang> {
    if CanXlateLeaves(py, leaves, config) && forall k :: k in config ==> k in leaves
    then Some(yang + LeavesOf(py, leaves, config)) else None
  }

  // ---- Reverse ----

  predicate IsTrueYang(y: YValue) {
    match y
    case LeafValue(v) => IsTrue(v)
    case Entries(es) => es != []
    case Tree(ch) => ch != map[]
  }

  function RevEntries(l: Coder, entries: seq<Entry>, config: Config): Option<Config> {
    if entries == [] then Some(config)
    else
      var n := |entries| - 1;
      var r := RevEntries(l, entries[..n], config);
      var e := l.decode(entries[n]);
      if r.None? || e.None? then None else Some(r.value[e.value.0 := Dict(e.value.1)])
  }

  function RevList(l: Coder, yang: Yang, config: Config): Option<Config> {
    var y := Get(yang, l.name);
    if y.None? || !IsTrueYang(y.value) || !l.marked then Some(config)
    else if y.value.Entries? then RevEntries(l, y.value.entries, config)
    else None
  }

  function RevLists(lists: seq<Coder>, yang: Yang, config: Config): Option<Config> {
    if lists == [] then Some(config)
    else
      var r := RevList(lists[0], yang, config);
      if r.None? then None else RevLists(lists[1..], yang, r.value)
  }

  function RevContainers(py: Python, model: Container, i: nat, yang: Yang, config: Config): Option<Config>
    requires i <= |model.containers|
    decreases model, |model.containers| - i
  {
    if i == |model.containers| then Some(config)
    else
      var c := model.containers[i];
      var y := Get(yang, c.name);
      if y.None? || !IsTrueYang(y.value) then RevContainers(py, model, i + 1, yang, config)
      else if !y.value.Tree? then None
      else
        var r := RevContainer(py, c, y.value.children);
        if r.None? then None else RevContainers(py, model, i + 1, yang, config[c.name := Dict(r.value)])
  }

  function RevContainer(py: Python, model: Container, yang: Yang): Option<Config>
    decreases model, |model.containers| + 1
  {
    var r1 := RevLists(Coders(py, model.lists), yang, map[]);
    if r1.None? then None
    else
      var r2 := RevContainers(py, model, 0, yang, r1.value);
      if r2.None? then None else RevLeaves(py, model.leaves, yang, r2.value)
  }

  predicate CanRevLeaves(py: Python, leaves: map<string, Leaf>, yang: Yang) {
    forall k :: k in yang && k in leaves ==> yang[k].LeafValue? && RevConvert(py, leaves[k], yang[k].leaf).Some?
  }

  function RevLeaves(py: Python, leaves: map<string, Leaf>, yang: Yang, config: Config): Option<Config> {
    if CanRevLeaves(py, leaves, yang)
    then Some(config + map k | k in yang && k in leaves :: RevConvert(py, leaves[k], yang[k].leaf).value)
    else None
  }
}
