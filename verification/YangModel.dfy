/**
 ConfigDB values, YANG values, the schema that relates them, and the translation of one field and of
 one table entry in both directions.
 */
module YangModel {
  import opened Wrappers
  import opened YangText

  // ---- Values ----

  /** A ConfigDB value: a string, a list of strings or a dictionary. */
  datatype CValue = Scalar(text: string) | Strings(items: seq<string>) | Dict(fields: map<string, CValue>)

  type Config = map<string, CValue>

  datatype YScalar = Number(n: int) | Text(text: string)

  /** What a leaf or a leaf-list holds. */
  datatype YLeaf = Single(value: YScalar) | Many(values: seq<YScalar>)

  type Entry = map<string, YLeaf>

  datatype YValue = LeafValue(leaf: YLeaf) | Entries(entries: seq<Entry>) | Tree(children: map<string, YValue>)

  type Yang = map<string, YValue>

  type Order = Config -> seq<string>

  /** What is left open about Python: the order in which a dictionary is iterated, and how lists and
      dictionaries are printed. */
  datatype Python = Python(order: Order, repr: CValue -> string, show: seq<YScalar> -> string)

  predicate Enumerates(keys: seq<string>, all: set<string>) {
    Distinct(keys) && (forall k :: k in keys ==> k in all) && (forall k :: k in all ==> k in keys)
  }

  ghost predicate IsOrder(order: Order) {
    forall m: Config :: Enumerates(order(m), m.Keys)
  }

  ghost predicate IsPython(py: Python) { IsOrder(py.order) }

  // ---- Schema ----

  /** The leaf types that are translated differently. */
  datatype Kind = Uint | Boolean | Other

  datatype Leaf = Leaf(kind: Kind, isList: bool)

  datatype ListModel = ListModel(name: string, keys: seq<string>, leaves: map<string, Leaf>)

  datatype Container = Container(name: string, lists: seq<ListModel>, containers: seq<Container>, leaves: map<string, Leaf>)

  // ---- Fields ----

  /** The strings that iterating over a value yields. */
  function Items(py: Python, v: CValue): seq<string> {
    match v
    case Scalar(s) => seq(|s|, k requires 0 <= k < |s| => [s[k]])
    case Strings(l) => l
    case Dict(d) => py.order(d)
  }

  function Str(py: Python, v: CValue): string {
    if v.Scalar? then v.text else py.repr(v)
  }

  function ToYang(kind: Kind, s: string): Option<YScalar> {
    if kind.Uint? then
      if ParseInt(s).Some? then Some(Number(ParseInt(s).value)) else None
    else Some(Text(s))
  }

  function FromYang(y: YScalar): string {
    if y.Number? then PrintInt(y.n) else y.text
  }

  predicate AllConvert(kind: Kind, l: seq<string>) {
    forall k :: 0 <= k < |l| ==> ToYang(kind, l[k]).Some?
  }

  function ToYangAll(kind: Kind, l: seq<string>): (r: seq<YScalar>)
    requires AllConvert(kind, l)
    ensures |r| == |l|
  {
    seq(|l|, k requires 0 <= k < |l| => ToYang(kind, l[k]).value)
  }

  function FromYangAll(ys: seq<YScalar>): (r: seq<string>)
    ensures |r| == |ys|
  {
    seq(|ys|, k requires 0 <= k < |ys| => FromYang(ys[k]))
  }

  /** The typed value of a field, unless a number cannot be read. */
  function Convert(py: Python, leaf: Leaf, v: CValue): Option<YLeaf> {
    if leaf.isList then
      if AllConvert(leaf.kind, Items(py, v)) then Some(Many(ToYangAll(leaf.kind, Items(py, v)))) else None
    else
      var y := ToYang(leaf.kind, Str(py, v));
      if y.Some? then Some(Single(y.value)) else None
  }

  /** Python's truth value. */
  predicate IsTrue(y: YLeaf) {
    match y
    case Single(Number(n)) => n != 0
    case Single(Text(s)) => s != ""
    case Many(l) => l != []
  }

  function RevConvert(py: Python, leaf: Leaf, y: YLeaf): Option<CValue> {
    if leaf.isList then
      match y
      case Many(l) => Some(Strings(FromYangAll(l)))
      case Single(Text(s)) => Some(Strings(Items(py, Scalar(s))))
      case Single(Number(_)) => None
    else if leaf.kind.Boolean? then Some(Scalar(if IsTrue(y) then "true" else "false"))
    else Some(Scalar(LeafText(py, y)))
  }

  function LeafText(py: Python, y: YLeaf): string {
    if y.Single? then FromYang(y.value) else py.show(y.values)
  }

  predicate GoodText(kind: Kind, s: string) {
    kind.Uint? ==> Canonical(s)
  }

  /** The value has the shape its leaf asks for: a list for a leaf-list, else a string; numbers are in
      canonical form; a boolean is true. */
  predicate GoodField(leaf: Leaf, v: CValue) {
    if leaf.isList then v.Strings? && forall k :: 0 <= k < |v.items| ==> GoodText(leaf.kind, v.items[k])
    else v.Scalar? && GoodText(leaf.kind, v.text) && (leaf.kind.Boolean? ==> v.text == "true")
  }

  lemma TextSurvivesExactly(kind: Kind, s: string)
    requires ToYang(kind, s).Some?
    ensures FromYang(ToYang(kind, s).value) == s <==> GoodText(kind, s)
  {
    if kind.Uint? {
      NumberSurvivesExactly(s);
    }
  }

  lemma ListSurvivesExactly(kind: Kind, l: seq<string>)
    requires AllConvert(kind, l)
    ensures FromYangAll(ToYangAll(kind, l)) == l <==> forall k :: 0 <= k < |l| ==> GoodText(kind, l[k])
  {
    var back := FromYangAll(ToYangAll(kind, l));
    forall k | 0 <= k < |l|
      ensures back[k] == l[k] <==> GoodText(kind, l[k])
    {
      TextSurvivesExactly(kind, l[k]);
    }
  }

  /** A field that can be translated survives the way back exactly if it is good. */
  lemma FieldSurvivesExactly(py: Python, leaf: Leaf, v: CValue)
    requires Convert(py, leaf, v).Some?
    ensures RevConvert(py, leaf, Convert(py, leaf, v).value) == Some(v) <==> GoodField(leaf, v)
  {
    if leaf.isList {
      ListSurvivesExactly(leaf.kind, Items(py, v));
    } else {
      TextSurvivesExactly(leaf.kind, Str(py, v));
    }
  }

  /** A boolean leaf comes back as true unless it is empty. */
  lemma BooleanCanBeLost(py: Python)
    ensures var leaf := Leaf(Boolean, false);
            Convert(py, leaf, Scalar("false")) == Some(Single(Text("false")))
            && RevConvert(py, leaf, Single(Text("false"))) == Some(Scalar("true"))
  {
  }

  // ---- Entries ----

  predicate CanConvert(py: Python, leaves: map<string, Leaf>, d: Config) {
    forall k :: k in d ==> k in leaves && Convert(py, leaves[k], d[k]).Some?
  }

  function ConvertAll(py: Python, leaves: map<string, Leaf>, d: Config): Entry
    requires CanConvert(py, leaves, d)
  {
    map k | k in d :: Convert(py, leaves[k], d[k]).value
  }

  /** The key leaves of an entry, from the parts of the table key. */
  function KeyDict(keys: seq<string>, parts: seq<string>): (r: Entry)
    requires |keys| == |parts|
    ensures forall k :: k in r <==> k in keys
  {
    if keys == [] then map[]
    else
      var n := |keys| - 1;
      KeyDict(keys[..n], parts[..n])[keys[n] := Single(Text(Strip(parts[n])))]
  }

  /** The fields that an entry's value contributes: an empty string or list contributes none, any other
      string or list cannot be translated. */
  function EntryFields(py: Python, leaves: map<string, Leaf>, v: CValue): Option<Entry> {
    match v
    case Scalar(s) => if s == "" then Some(map[]) else None
    case Strings(l) => if l == [] then Some(map[]) else None
    case Dict(d) => if CanConvert(py, leaves, d) then Some(ConvertAll(py, leaves, d)) else None
  }

  /** The list entry for a table key and its value, if the list accepts them. */
  function EntryOf(py: Python, l: ListModel, key: string, v: CValue): Option<Entry> {
    var parts := Split(key);
    if |parts| != |l.keys| then None
    else
      var fields := EntryFields(py, l.leaves, v);
      if fields.None? then None else Some(KeyDict(l.keys, parts) + fields.value)
  }

  predicate HasKeys(l: ListModel, e: Entry) {
    forall k :: k in l.keys ==> k in e && IsTrue(e[k])
  }

  function KeyParts(py: Python, keys: seq<string>, e: Entry): (r: seq<string>)
    requires forall k :: k in keys ==> k in e
    ensures |r| == |keys| && forall i :: 0 <= i < |keys| ==> r[i] == LeafText(py, e[keys[i]])
  {
    seq(|keys|, i requires 0 <= i < |keys| => LeafText(py, e[keys[i]]))
  }

  predicate CanRevert(py: Python, l: ListModel, e: Entry) {
    forall k :: k in e && k !in l.keys ==> k in l.leaves && RevConvert(py, l.leaves[k], e[k]).Some?
  }

  /** The table key and the fields that a list entry stands for. */
  function RevEntry(py: Python, l: ListModel, e: Entry): Option<(string, Config)> {
    if !HasKeys(l, e) || !CanRevert(py, l, e) then None
    else
      var key := StripBars(Glue(KeyParts(py, l.keys, e)));
      Some((key, map k | k in e && k !in l.keys :: RevConvert(py, l.leaves[k], e[k]).value))
  }

  /** A table entry that reverse translation can restore: its key is trimmed, it is a dictionary, no
      field has the name of a key, and all fields are good. */
  predicate GoodEntry(l: ListModel, key: string, v: CValue) {
    && IsTrimmed(key) && v.Dict?
    && (forall k :: k in v.fields ==> k !in l.keys && k in l.leaves && GoodField(l.leaves[k], v.fields[k]))
  }

  lemma {:induction false} KeyDictAt(keys: seq<string>, parts: seq<string>, i: nat)
    requires |keys| == |parts| && Distinct(keys) && i < |keys|
    ensures KeyDict(keys, parts)[keys[i]] == Single(Text(Strip(parts[i])))
  {
    var n := |keys| - 1;
    var ks, ps := keys[..n], parts[..n];
    if i < n {
      assert Distinct(ks) && ks[i] == keys[i] != keys[n] && ps[i] == parts[i];
      KeyDictAt(ks, ps, i);
    }
  }

  /** The key leaves of a good entry spell its table key. */
  lemma KeyRestored(py: Python, keys: seq<string>, key: string, e: Entry)
    requires Distinct(keys) && |Split(key)| == |keys| && IsTrimmed(key)
    requires forall k :: k in keys ==> k in e && e[k] == KeyDict(keys, Split(key))[k]
    ensures StripBars(Glue(KeyParts(py, keys, e))) == key
    ensures forall k :: k in keys ==> IsTrue(e[k])
  {
    var parts := Split(key);
    forall i | 0 <= i < |keys|
      ensures e[keys[i]] == Single(Text(parts[i]))
    {
      KeyDictAt(keys, parts, i);
    }
    assert KeyParts(py, keys, e) == parts;
    GluedKey(parts);
    JoinSplit(key);
  }

  /** An entry holds the key leaves and the converted fields, and nothing else. */
  ghost predicate IsEntry(py: Python, l: ListModel, key: string, d: Config, e: Entry)
    requires |Split(key)| == |l.keys| && CanConvert(py, l.leaves, d)
  {
    && (forall k :: k in l.keys ==> k in e && e[k] == KeyDict(l.keys, Split(key))[k])
    && (forall k :: k in d ==> k in e && k !in l.keys && e[k] == Convert(py, l.leaves[k], d[k]).value)
    && (forall k :: k in e ==> k in l.keys || k in d)
  }

  lemma EntryShape(py: Python, l: ListModel, key: string, v: CValue)
    requires EntryOf(py, l, key, v).Some? && GoodEntry(l, key, v)
    ensures |Split(key)| == |l.keys| && CanConvert(py, l.leaves, v.fields)
    ensures IsEntry(py, l, key, v.fields, EntryOf(py, l, key, v).value)
  {
  }

  lemma FieldsRestored(py: Python, l: ListModel, key: string, d: Config, e: Entry)
    requires GoodEntry(l, key, Dict(d)) && |Split(key)| == |l.keys| && CanConvert(py, l.leaves, d)
    requires IsEntry(py, l, key, d, e)
    ensures CanRevert(py, l, e) && (map k | k in e && k !in l.keys :: RevConvert(py, l.leaves[k], e[k]).value) == d
  {
    forall k | k in d
      ensures RevConvert(py, l.leaves[k], e[k]) == Some(d[k])
    {
      FieldSurvivesExactly(py, l.leaves[k], d[k]);
    }
  }

  /** Round trip of one entry. */
  lemma EntryRoundTrip(py: Python, l: ListModel, key: string, v: CValue)
    requires Distinct(l.keys) && EntryOf(py, l, key, v).Some? && GoodEntry(l, key, v)
    ensures RevEntry(py, l, EntryOf(py, l, key, v).value) == Some((key, v.fields))
  {
    var e := EntryOf(py, l, key, v).value;
    EntryShape(py, l, key, v);
    KeyRestored(py, l.keys, key, e);
    FieldsRestored(py, l, key, v.fields, e);
  }

  /** The key leaves are not overwritten unless a field has the name of a key. */
  lemma KeysStay(py: Python, l: ListModel, key: string, e: Entry)
    requires Distinct(l.keys) && |Split(key)| == |l.keys| && HasKeys(l, e)
    requires forall k :: k in l.keys ==> e[k] == KeyDict(l.keys, Split(key))[k]
    ensures KeyBack(key) == Some(StripBars(Glue(KeyParts(py, l.keys, e))))
  {
    var parts := Split(key);
    forall i | 0 <= i < |parts|
      ensures e[l.keys[i]] == Single(Text(Strip(parts[i])))
    {
      KeyDictAt(l.keys, parts, i);
    }
    assert KeyParts(py, l.keys, e) == Stripped(parts);
    forall i | 0 <= i < |parts|
      ensures Stripped(parts)[i] != ""
    {
      assert IsTrue(e[l.keys[i]]);
    }
  }

  /** An entry survives the way back exactly if it is good. */
  lemma EntrySurvivesExactly(py: Python, l: ListModel, key: string, v: CValue)
    requires Distinct(l.keys) && EntryOf(py, l, key, v).Some? && v.Dict?
    ensures RevEntry(py, l, EntryOf(py, l, key, v).value) == Some((key, v.fields)) <==> GoodEntry(l, key, v)
  {
    var e, d := EntryOf(py, l, key, v).value, v.fields;
    if GoodEntry(l, key, v) {
      EntryRoundTrip(py, l, key, v);
    } else if RevEntry(py, l, e) == Some((key, d)) {
      forall k | k in d
        ensures k !in l.keys && GoodField(l.leaves[k], d[k])
      {
        FieldSurvivesExactly(py, l.leaves[k], d[k]);
      }
      KeysStay(py, l, key, e);
      KeySurvivesExactly(key);
    }
  }
}
