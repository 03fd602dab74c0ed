/**
 Whatever forward translation accepts, reverse translation restores.
 */
module YangRoundTrip {
  import opened Wrappers
  import opened YangModel
  import opened YangTranslate

  // ---- Which list takes a table key ----

  /** The first list that accepts the key and its value. */
  function FirstAccepting(lists: seq<Coder>, key: string, v: CValue): Option<Coder> {
    if lists == [] then None
    else if Accepts(lists[0], key, v) then Some(lists[0])
    else FirstAccepting(lists[1..], key, v)
  }

  /** The part of a table that no list accepts. */
  function Unclaimed(lists: seq<Coder>, config: Config): Config {
    map k | k in config && FirstAccepting(lists, k, config[k]).None? :: config[k]
  }

  lemma UnclaimedStep(lists: seq<Coder>, config: Config)
    requires lists != []
    ensures Unclaimed(lists, config) == Unclaimed(lists[1..], Rest(lists[0], config))
  {
  }

  lemma {:induction false} ListsLeaveUnclaimed(order: Order, lists: seq<Coder>, yang: Yang, config: Config)
    ensures XlateLists(order, lists, yang, config).1 == Unclaimed(lists, config)
  {
    if lists != [] {
      UnclaimedStep(lists, config);
      ListsLeaveUnclaimed(order, lists[1..], PutList(yang, lists[0].name, TakenInOrder(order, lists[0], config)),
                          Rest(lists[0], config));
    }
  }

  function Names(lists: seq<Coder>): (r: seq<string>)
    ensures |r| == |lists| && forall i :: 0 <= i < |r| ==> r[i] == lists[i].name
  {
    seq(|lists|, i requires 0 <= i < |lists| => lists[i].name)
  }

  lemma TailNames(lists: seq<Coder>)
    requires lists != []
    ensures Names(lists) == [lists[0].name] + Names(lists[1..])
    ensures Distinct(Names(lists)) ==> Distinct(Names(lists[1..])) && lists[0].name !in Names(lists[1..])
  {
  }

  /** Translating lists changes only what is stored under their names. */
  lemma {:induction false} ListsKeep(order: Order, lists: seq<Coder>, yang: Yang, config: Config, name: string)
    requires name !in Names(lists)
    ensures Get(XlateLists(order, lists, yang, config).0, name) == Get(yang, name)
  {
    if lists != [] {
      TailNames(lists);
      var next := PutList(yang, lists[0].name, TakenInOrder(order, lists[0], config));
      assert Get(next, name) == Get(yang, name);
      ListsKeep(order, lists[1..], next, Rest(lists[0], config), name);
    }
  }

  /** What the list at position `j` stores: the entries of exactly those table keys that it accepts and
      no list before it does. */
  lemma {:induction false} LandsInFirst(order: Order, lists: seq<Coder>, yang: Yang, config: Config, j: nat)
    requires j < |lists| && Distinct(Names(lists)) && lists[j].name !in yang
    ensures StoresAt(XlateLists(order, lists, yang, config).0, lists[j].name,
                     TakenInOrder(order, lists[j], Unclaimed(lists[..j], config)))
    decreases j
  {
    var l := lists[0];
    var next, rest := PutList(yang, l.name, TakenInOrder(order, l, config)), Rest(l, config);
    TailNames(lists);
    if j == 0 {
      assert Unclaimed(lists[..0], config) == config;
      ListsKeep(order, lists[1..], next, rest, l.name);
    } else {
      OtherName(lists, j);
      LandsInFirst(order, lists[1..], next, rest, j - 1);
      UnclaimedPrefix(lists, config, j);
    }
  }

  /** The entries are stored under the name, and nothing is if there are none. */
  predicate StoresAt(yang: Yang, name: string, entries: seq<Entry>) {
    Get(yang, name) == if entries == [] then None else Some(Entries(entries))
  }

  lemma OtherName(lists: seq<Coder>, j: nat)
    requires 0 < j < |lists| && Distinct(Names(lists))
    ensures lists[1..][j - 1] == lists[j] && lists[j].name != lists[0].name
  {
    assert Names(lists)[j] != Names(lists)[0];
  }

  lemma UnclaimedPrefix(lists: seq<Coder>, config: Config, j: nat)
    requires 0 < j <= |lists|
    ensures Unclaimed(lists[..j], config) == Unclaimed(lists[1..][..j - 1], Rest(lists[0], config))
  {
    assert lists[..j][1..] == lists[1..][..j - 1];
    UnclaimedStep(lists[..j], config);
  }

  // ---- Lists ----

  /** The list is read back, and its decoder undoes its encoder here. */
  predicate Restores(l: Coder, key: string, v: CValue)
    requires Accepts(l, key, v)
  {
    l.marked && v.Dict? && l.decode(l.encode(key, v).value) == Some((key, v.fields))
  }

  ghost predicate RestoresAll(l: Coder, config: Config) {
    forall k :: k in config && Accepts(l, k, config[k]) ==> Restores(l, k, config[k])
  }

  /** The part of a table that a list accepts, for some of the keys. */
  function Picked(l: Coder, config: Config, keys: seq<string>): Config {
    map k | k in config && k in keys && Accepts(l, k, config[k]) :: config[k]
  }

  lemma PickedStep(l: Coder, config: Config, ks: seq<string>, k: string, back: Config)
    requires k in config
    ensures var before, after := Picked(l, config, ks), Picked(l, config, ks + [k]);
            back + after == if Accepts(l, k, config[k]) then (back + before)[k := config[k]] else back + before
  {
  }

  lemma RevEntriesSnoc(l: Coder, es: seq<Entry>, e: Entry, back: Config)
    requires RevEntries(l, es, back).Some? && l.decode(e).Some?
    ensures var (key, d) := l.decode(e).value;
            RevEntries(l, es + [e], back) == Some(RevEntries(l, es, back).value[key := Dict(d)])
  {
  }

  lemma {:induction false} EntriesRoundTrip(l: Coder, config: Config, keys: seq<string>, back: Config)
    requires RestoresAll(l, config) && forall k :: k in keys ==> k in config
    ensures RevEntries(l, Taken(l, config, keys), back) == Some(back + Picked(l, config, keys))
  {
    if keys == [] {
      assert back + Picked(l, config, keys) == back;
    } else {
      var n := |keys| - 1;
      var k := keys[n];
      EntriesRoundTrip(l, config, keys[..n], back);
      assert keys == keys[..n] + [k];
      PickedStep(l, config, keys[..n], k, back);
      if Accepts(l, k, config[k]) {
        assert Restores(l, k, config[k]);
        RevEntriesSnoc(l, Taken(l, config, keys[..n]), l.encode(k, config[k]).value, back);
      } else {
        assert Taken(l, config, keys) == Taken(l, config, keys[..n]);
      }
    }
  }

  lemma {:induction false} SomePicked(l: Coder, config: Config, keys: seq<string>)
    requires (forall k :: k in keys ==> k in config) && Taken(l, config, keys) != []
    ensures exists k :: k in Picked(l, config, keys)
  {
    var n := |keys| - 1;
    if Accepts(l, keys[n], config[keys[n]]) {
      assert keys[n] in Picked(l, config, keys);
    } else {
      SomePicked(l, config, keys[..n]);
      var k :| k in Picked(l, config, keys[..n]);
      assert k in Picked(l, config, keys);
    }
  }

  /** What a list took comes back. */
  lemma ListRoundTrip(order: Order, l: Coder, config: Config, yang: Yang, back: Config)
    requires IsOrder(order) && RestoresAll(l, config)
    requires var entries := TakenInOrder(order, l, config);
             Get(yang, l.name) == if entries == [] then None else Some(Entries(entries))
    ensures RevList(l, yang, back) == Some(back + (config - Rest(l, config).Keys))
  {
    var keys := order(config);
    assert Enumerates(keys, config.Keys);
    var picked := Picked(l, config, keys);
    assert picked == config - Rest(l, config).Keys;
    EntriesRoundTrip(l, config, keys, back);
    if Taken(l, config, keys) != [] {
      SomePicked(l, config, keys);
      var k :| k in picked;
      assert Restores(l, k, config[k]);
    }
  }

  ghost predicate ClaimsRestored(lists: seq<Coder>, config: Config) {
    forall k :: k in config ==> ClaimRestored(lists, k, config[k])
  }

  ghost predicate ClaimRestored(lists: seq<Coder>, key: string, v: CValue) {
    var l := FirstAccepting(lists, key, v);
    l.Some? ==> Accepts(l.value, key, v) && Restores(l.value, key, v)
  }

  ghost predicate AgreeOn(names: seq<string>, y: Yang, z: Yang) {
    forall n :: n in names ==> Get(y, n) == Get(z, n)
  }

  lemma RestMerges(lists: seq<Coder>, config: Config, back: Config)
    requires lists != []
    ensures var rest := Rest(lists[0], config);
            back + (config - rest.Keys) + (rest - Unclaimed(lists[1..], rest).Keys) ==
              back + (config - Unclaimed(lists, config).Keys)
  {
  }

  lemma HeadRestores(lists: seq<Coder>, config: Config)
    requires lists != [] && ClaimsRestored(lists, config)
    ensures RestoresAll(lists[0], config) && ClaimsRestored(lists[1..], Rest(lists[0], config))
  {
  }

  /** What the lists of a container took comes back. */
  lemma {:induction false} ListsRoundTrip(order: Order, lists: seq<Coder>, yang: Yang, config: Config, final: Yang, back: Config)
    requires IsOrder(order) && Distinct(Names(lists)) && ClaimsRestored(lists, config)
    requires forall n :: n in Names(lists) ==> n !in yang
    requires AgreeOn(Names(lists), final, XlateLists(order, lists, yang, config).0)
    ensures RevLists(lists, final, back) == Some(back + (config - Unclaimed(lists, config).Keys))
  {
    if lists == [] {
      assert back + (config - Unclaimed(lists, config).Keys) == back;
    } else {
      var l := lists[0];
      var next, rest := PutList(yang, l.name, TakenInOrder(order, l, config)), Rest(l, config);
      TailNames(lists);
      HeadRestores(lists, config);
      ListsKeep(order, lists[1..], next, rest, l.name);
      assert Names(lists)[0] == l.name;
      ListRoundTrip(order, l, config, final, back);
      ListsRoundTrip(order, lists[1..], next, rest, final, back + (config - rest.Keys));
      RestMerges(lists, config, back);
    }
  }
}
