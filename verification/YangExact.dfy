/**
 The round trip is exact: a table that forward translation accepts comes back if and only if it is
 restorable.
 */
module YangExact {
  import opened Wrappers
  import opened YangText
  import opened YangModel
  import opened YangTranslate
  import opened YangRoundTrip
  import opened YangContainers

  // ---- Where the keys of the result come from ----

  /** Taking `k0` with value `v0` and reading it back gives the key `k` with value `v`. */
  predicate Makes(l: Coder, k0: string, v0: CValue, k: string, v: CValue) {
    && Accepts(l, k0, v0) && l.marked && l.decode(l.encode(k0, v0).value).Some?
    && l.decode(l.encode(k0, v0).value).value.0 == k && v == Dict(l.decode(l.encode(k0, v0).value).value.1)
  }

  ghost predicate MadeBy(l: Coder, config: Config, keys: seq<string>, k: string, v: CValue) {
    exists k0 :: k0 in keys && k0 in config && Makes(l, k0, config[k0], k, v)
  }

  lemma {:induction false} EntryOrigin(l: Coder, config: Config, keys: seq<string>, back: Config, k: string)
    requires l.marked && forall x :: x in keys ==> x in config
    requires RevEntries(l, Taken(l, config, keys), back).Some? && k in RevEntries(l, Taken(l, config, keys), back).value
    ensures var r := RevEntries(l, Taken(l, config, keys), back).value;
            (k in back && back[k] == r[k]) || MadeBy(l, config, keys, k, r[k])
  {
    if keys != [] {
      var n := |keys| - 1;
      var k0, before := keys[n], Taken(l, config, keys[..n]);
      if Accepts(l, k0, config[k0]) {
        var e := l.encode(k0, config[k0]).value;
        assert (before + [e])[..|before|] == before;
        var r := RevEntries(l, before + [e], back).value;
        if l.decode(e).value.0 == k {
          assert Makes(l, k0, config[k0], k, r[k]);
        } else {
          EntryOrigin(l, config, keys[..n], back, k);
          MadeMore(l, config, keys, n, k, r[k]);
        }
      } else {
        assert Taken(l, config, keys) == before;
        EntryOrigin(l, config, keys[..n], back, k);
        MadeMore(l, config, keys, n, k, RevEntries(l, before, back).value[k]);
      }
    }
  }

  lemma MadeMore(l: Coder, config: Config, keys: seq<string>, n: nat, k: string, v: CValue)
    requires n <= |keys|
    ensures MadeBy(l, config, keys[..n], k, v) ==> MadeBy(l, config, keys, k, v)
  {
  }

  /** Some key of the table, taken by the first list that accepts it, makes `k` with value `v`. */
  ghost predicate HasOrigin(lists: seq<Coder>, config: Config, k: string, v: CValue) {
    exists k0 :: k0 in config && IsOrigin(lists, k0, config[k0], k, v)
  }

  predicate IsOrigin(lists: seq<Coder>, k0: string, v0: CValue, k: string, v: CValue) {
    FirstAccepting(lists, k0, v0).Some? && Makes(FirstAccepting(lists, k0, v0).value, k0, v0, k, v)
  }

  lemma {:induction false} ListOrigin(order: Order, lists: seq<Coder>, yang: Yang, config: Config,
      final: Yang, back: Config, k: string)
    requires IsOrder(order) && Distinct(Names(lists)) && (forall n :: n in Names(lists) ==> n !in yang)
    requires AgreeOn(Names(lists), final, XlateLists(order, lists, yang, config).0)
    requires RevLists(lists, final, back).Some? && k in RevLists(lists, final, back).value
    ensures var r := RevLists(lists, final, back).value;
            (k in back && back[k] == r[k]) || HasOrigin(lists, config, k, r[k])
  {
    if lists != [] {
      var l := lists[0];
      var next, rest := PutList(yang, l.name, TakenInOrder(order, l, config)), Rest(l, config);
      var v := RevLists(lists, final, back).value[k];
      TailNames(lists);
      ListsKeep(order, lists[1..], next, rest, l.name);
      assert Names(lists)[0] == l.name;
      var mid := RevList(l, final, back).value;
      ListOrigin(order, lists[1..], next, rest, final, mid, k);
      if k in mid && mid[k] == v {
        HeadOrigin(order, lists, config, final, back, k);
      } else {
        var k0 :| k0 in rest && IsOrigin(lists[1..], k0, rest[k0], k, v);
        assert IsOrigin(lists, k0, config[k0], k, v);
      }
    }
  }

  lemma HeadOrigin(order: Order, lists: seq<Coder>, config: Config,
      final: Yang, back: Config, k: string)
    requires IsOrder(order) && lists != []
    requires var entries := TakenInOrder(order, lists[0], config);
             Get(final, lists[0].name) == if entries == [] then None else Some(Entries(entries))
    requires RevList(lists[0], final, back).Some? && k in RevList(lists[0], final, back).value
    ensures var r := RevList(lists[0], final, back).value;
            (k in back && back[k] == r[k]) || HasOrigin(lists, config, k, r[k])
  {
    var l, keys := lists[0], order(config);
    assert Enumerates(keys, config.Keys);
    if l.marked && TakenInOrder(order, l, config) != [] {
      EntryOrigin(l, config, keys, back, k);
      var v := RevList(l, final, back).value[k];
      if MadeBy(l, config, keys, k, v) {
        var k0 :| k0 in keys && k0 in config && Makes(l, k0, config[k0], k, v);
        assert IsOrigin(lists, k0, config[k0], k, v);
      }
    }
  }

  // ---- A key that makes another one ranks higher ----

  /** The number of fields first, then whether the key is untrimmed. */
  function Rank(k: string, v: CValue): nat {
    2 * (if v.Dict? then |v.fields.Keys| else 0) + if IsTrimmed(k) then 0 else 1
  }

  lemma {:induction false} StripTwice(s: string)
    ensures Strip(Strip(s)) == Strip(s)
  {
    if s != "" && IsSpace(s[0]) {
      StripTwice(s[1..]);
    } else if s != "" && IsSpace(s[|s| - 1]) {
      StripTwice(s[..|s| - 1]);
    }
  }

  lemma KeyBackTrimmed(key: string)
    requires KeyBack(key).Some?
    ensures IsTrimmed(KeyBack(key).value)
  {
    var parts := Stripped(Split(key));
    StrippedPlain(Split(key));
    assert parts[|parts| - 1] in parts;
    GluedKey(parts);
    SplitJoin(parts);
    forall k | 0 <= k < |parts|
      ensures parts[k] != "" && Strip(parts[k]) == parts[k]
    {
      assert parts[k] in parts;
      StripTwice(Split(key)[k]);
    }
  }

  lemma FewerFields(small: set<string>, big: set<string>)
    requires small <= big
    ensures |small| <= |big| && (small != big ==> |small| < |big|)
  {
    assert big == small + (big - small);
    if small != big {
      var k :| k in big - small;
      assert |big - small| > 0;
    }
  }

  function FieldsOf(v: CValue): Config {
    if v.Dict? then v.fields else map[]
  }

  /** Reading an entry back loses the fields that have the name of a key, and no others. */
  lemma FieldsMade(py: Python, l: ListModel, k0: string, v0: CValue)
    requires EntryOf(py, l, k0, v0).Some? && RevEntry(py, l, EntryOf(py, l, k0, v0).value).Some?
    ensures RevEntry(py, l, EntryOf(py, l, k0, v0).value).value.1.Keys == set x | x in FieldsOf(v0) && x !in l.keys
  {
  }

  lemma KeyMade(py: Python, l: ListModel, k0: string, v0: CValue)
    requires Distinct(l.keys) && EntryOf(py, l, k0, v0).Some? && RevEntry(py, l, EntryOf(py, l, k0, v0).value).Some?
    requires forall x :: x in FieldsOf(v0) ==> x !in l.keys
    ensures KeyBack(k0) == Some(RevEntry(py, l, EntryOf(py, l, k0, v0).value).value.0)
  {
    KeysStay(py, l, k0, EntryOf(py, l, k0, v0).value);
  }

  lemma RankRises(py: Python, l: ListModel, k0: string, v0: CValue, k: string, v: CValue)
    requires Distinct(l.keys) && Makes(CoderOf(py, l), k0, v0, k, v) && k0 != k
    ensures Rank(k0, v0) > Rank(k, v)
  {
    FieldsMade(py, l, k0, v0);
    FewerFields(v.fields.Keys, FieldsOf(v0).Keys);
    if v.fields.Keys == FieldsOf(v0).Keys {
      assert forall x :: x in FieldsOf(v0) ==> x in v.fields.Keys;
      KeyMade(py, l, k0, v0);
      KeySurvivesExactly(k0);
      KeyBackTrimmed(k0);
    }
  }

  lemma {:induction false} HighestRank(config: Config, ks: set<string>) returns (k: string)
    requires ks != {} && ks <= config.Keys
    ensures k in ks && forall x :: x in ks ==> Rank(x, config[x]) <= Rank(k, config[k])
    decreases ks
  {
    k :| k in ks;
    if ks != {k} {
      var other := HighestRank(config, ks - {k});
      if Rank(other, config[other]) > Rank(k, config[k]) {
        k := other;
      }
    }
  }

  ghost function Bad(lists: seq<Coder>, config: Config): set<string> {
    set k | k in config && !ClaimRestored(lists, k, config[k])
  }

  lemma OriginOfBad(py: Python, lists: seq<ListModel>, config: Config, k: string) returns (k0: string)
    requires forall i :: 0 <= i < |lists| ==> Distinct(lists[i].keys)
    requires k in Bad(Coders(py, lists), config) && HasOrigin(Coders(py, lists), config, k, config[k])
    ensures k0 in Bad(Coders(py, lists), config) && Rank(k0, config[k0]) > Rank(k, config[k])
  {
    var coders := Coders(py, lists);
    k0 :| k0 in config && IsOrigin(coders, k0, config[k0], k, config[k]);
    assert coders[0..] == coders;
    var j := FirstIsTaker(py, lists, k0, config[k0], 0);
    if k0 != k {
      RankRises(py, lists[j], k0, config[k0], k, config[k]);
    }
  }

  ghost predicate Originates(lists: seq<Coder>, config: Config, k: string)
    requires k in config
  {
    FirstAccepting(lists, k, config[k]).Some? ==> HasOrigin(lists, config, k, config[k])
  }

  /** If every key that the lists take has an origin, every one is its own. */
  lemma AllRestored(py: Python, lists: seq<ListModel>, config: Config)
    requires forall i :: 0 <= i < |lists| ==> Distinct(lists[i].keys)
    requires forall k :: k in config ==> Originates(Coders(py, lists), config, k)
    ensures ClaimsRestored(Coders(py, lists), config)
  {
    var coders := Coders(py, lists);
    if Bad(coders, config) != {} {
      var top := HighestRank(config, Bad(coders, config));
      assert Originates(coders, config, top);
      var k0 := OriginOfBad(py, lists, config, top);
    }
    forall k | k in config
      ensures ClaimRestored(coders, k, config[k])
    {
      assert k !in Bad(coders, config);
    }
  }
}
