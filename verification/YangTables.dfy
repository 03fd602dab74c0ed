/**
 Translation of a whole ConfigDB: every table goes to the container of its YANG module.
 */
module YangTables {
  import opened Wrappers
  import opened YangText
  import opened YangModel
  import opened YangTranslate
  import opened YangContainers
  import opened YangExactTables

  type Db = map<string, Config>

  /** Containers by module and top level container, then by top level container and table. */
  type YangDb = map<string, map<string, Yang>>

  type Slot = (string, string)

  function Look(yang: YangDb, s: Slot): Option<Yang> {
    if s.0 in yang && s.1 in yang[s.0] then Some(yang[s.0][s.1]) else None
  }

  function Put(yang: YangDb, s: Slot, y: Yang): YangDb {
    yang[s.0 := (if s.0 in yang then yang[s.0] else map[])[s.1 := y]]
  }

  lemma LookPut(yang: YangDb, s: Slot, y: Yang, x: Slot)
    ensures Look(Put(yang, s, y), x) == if x == s then Some(y) else Look(yang, x)
  {
  }

  // ---- Tables in general: how one table is translated and where it goes is left open ----

  type Forward = string -> Option<Yang>
  type Backward = (string, Yang) -> Option<Config>

  /** Translates the tables in the given order. */
  function XlateAll(forward: Forward, place: string -> Slot, tables: seq<string>): Option<YangDb> {
    if tables == [] then Some(map[])
    else
      var n := |tables| - 1;
      var r, y := XlateAll(forward, place, tables[..n]), forward(tables[n]);
      if r.None? || y.None? then None else Some(Put(r.value, place(tables[n]), y.value))
  }

  function RevOne(backward: Backward, tableOf: string -> Option<string>, yang: YangDb, s: Slot): Option<(string, Config)> {
    var t, y := tableOf(s.1), Look(yang, s);
    if t.None? || y.None? then None
    else
      var c := backward(t.value, y.value);
      if c.None? then None else Some((t.value, c.value))
  }

  /** Translates the containers back in the given order. */
  function RevAll(backward: Backward, tableOf: string -> Option<string>, yang: YangDb, slots: seq<Slot>): Option<Db> {
    if slots == [] then Some(map[])
    else
      var n := |slots| - 1;
      var r, c := RevAll(backward, tableOf, yang, slots[..n]), RevOne(backward, tableOf, yang, slots[n]);
      if r.None? || c.None? then None else Some(r.value[c.value.0 := c.value.1])
  }

  /** Every table has a place of its own, from which its name can be read. */
  ghost predicate Placed(place: string -> Slot, tableOf: string -> Option<string>, tables: set<string>) {
    forall t :: t in tables ==> tableOf(place(t).1) == Some(t)
  }

  lemma {:induction false} XlateAllHolds(forward: Forward, place: string -> Slot, tableOf: string -> Option<string>,
      tables: seq<string>, s: Slot)
    requires XlateAll(forward, place, tables).Some? && Placed(place, tableOf, set t | t in tables)
    ensures forall t :: t in tables ==> forward(t).Some?
    ensures var y, t := Look(XlateAll(forward, place, tables).value, s), tableOf(s.1);
            y == if t.Some? && t.value in tables && place(t.value) == s then forward(t.value) else None
  {
    if tables != [] {
      var n := |tables| - 1;
      var t := tables[n];
      assert tables == tables[..n] + [t];
      assert t in set x | x in tables;
      XlateAllHolds(forward, place, tableOf, tables[..n], s);
      LookPut(XlateAll(forward, place, tables[..n]).value, place(t), forward(t).value, s);
    }
  }

  /** Slot `s` belongs to one of the tables and gives back what `back` says for that table. */
  predicate Gives(place: string -> Slot, tableOf: string -> Option<string>, tables: set<string>, back: string -> Option<Config>,
      s: Slot, r: Option<(string, Config)>)
  {
    var t := tableOf(s.1);
    && t.Some? && t.value in tables && s == place(t.value)
    && r == if back(t.value).None? then None else Some((t.value, back(t.value).value))
  }

  /** The tables that come back from some of the slots. */
  function Returned(place: string -> Slot, tables: set<string>, back: string -> Option<Config>, slots: seq<Slot>): Db {
    map t | t in tables && place(t) in slots && back(t).Some? :: back(t).value
  }

  ghost predicate AllReturn(place: string -> Slot, tables: set<string>, back: string -> Option<Config>, slots: seq<Slot>) {
    forall t :: t in tables && place(t) in slots ==> back(t).Some?
  }

  lemma {:induction false} RevAllIs(backward: Backward, place: string -> Slot, tableOf: string -> Option<string>, yang: YangDb,
      tables: set<string>, back: string -> Option<Config>, slots: seq<Slot>)
    requires Placed(place, tableOf, tables)
    requires forall s :: s in slots ==> Gives(place, tableOf, tables, back, s, RevOne(backward, tableOf, yang, s))
    ensures RevAll(backward, tableOf, yang, slots) ==
      if AllReturn(place, tables, back, slots) then Some(Returned(place, tables, back, slots)) else None
  {
    if slots == [] {
      assert Returned(place, tables, back, slots) == map[];
    } else {
      var n := |slots| - 1;
      var s := slots[n];
      assert slots == slots[..n] + [s];
      RevAllIs(backward, place, tableOf, yang, tables, back, slots[..n]);
      OneMoreSlot(place, tableOf, tables, back, slots[..n], s, RevOne(backward, tableOf, yang, s));
    }
  }

  lemma OneMoreSlot(place: string -> Slot, tableOf: string -> Option<string>, tables: set<string>, back: string -> Option<Config>,
      slots: seq<Slot>, s: Slot, r: Option<(string, Config)>)
    requires Placed(place, tableOf, tables) && Gives(place, tableOf, tables, back, s, r)
    ensures AllReturn(place, tables, back, slots + [s]) <==> AllReturn(place, tables, back, slots) && r.Some?
    ensures r.Some? ==> Returned(place, tables, back, slots + [s]) == Returned(place, tables, back, slots)[r.value.0 := r.value.1]
  {
  }

  /** If every table is stored and every slot is read, the database comes back if and only if every
      table does. */
  lemma AllComeBack(forward: Forward, backward: Backward, place: string -> Slot, tableOf: string -> Option<string>,
      tables: seq<string>, slots: seq<Slot>, db: Db)
    requires XlateAll(forward, place, tables).Some? && Enumerates(tables, db.Keys) && Placed(place, tableOf, db.Keys)
    requires forall s :: s in slots <==> Look(XlateAll(forward, place, tables).value, s).Some?
    ensures forall t :: t in db ==> forward(t).Some?
    ensures RevAll(backward, tableOf, XlateAll(forward, place, tables).value, slots) == Some(db)
       <==> forall t :: t in db ==> backward(t, forward(t).value) == Some(db[t])
  {
    var yang := XlateAll(forward, place, tables).value;
    var back := (t: string) => if forward(t).Some? then backward(t, forward(t).value) else None;
    assert (set t | t in tables) == db.Keys;
    XlateAllHolds(forward, place, tableOf, tables, ("", ""));
    forall s | s in slots
      ensures Gives(place, tableOf, db.Keys, back, s, RevOne(backward, tableOf, yang, s))
    {
      XlateAllHolds(forward, place, tableOf, tables, s);
    }
    forall t | t in db
      ensures place(t) in slots
    {
      XlateAllHolds(forward, place, tableOf, tables, place(t));
      assert t in tables;
    }
    RevAllIs(backward, place, tableOf, yang, db.Keys, back, slots);
    ReturnedAll(place, db, back, slots);
  }

  lemma ReturnedAll(place: string -> Slot, db: Db, back: string -> Option<Config>, slots: seq<Slot>)
    requires forall t :: t in db ==> place(t) in slots
    ensures (AllReturn(place, db.Keys, back, slots) && Returned(place, db.Keys, back, slots) == db) <==>
      forall t :: t in db ==> back(t) == Some(db[t])
  {
  }

  // ---- ConfigDB ----

  datatype TableModel = TableModel(modul: string, top: string, container: Container)

  /** The YANG container of each table. */
  type Schema = map<string, TableModel>

  function PlaceOf(schema: Schema, t: string): Slot {
    if t in schema then (schema[t].modul + ":" + schema[t].top, schema[t].top + ":" + schema[t].container.name) else ("", "")
  }

  /** The table named by a container key: the part behind the colon, if there is one. */
  function TableOf(sub: string): Option<string> {
    var names := SplitAt(sub, ':');
    if |names| > 2 then None else Some(names[|names| - 1])
  }

  function ForwardOf(py: Python, schema: Schema, db: Db): Forward {
    t => if t in schema && t in db then XlateContainer(py, schema[t].container, db[t]) else None
  }

  function BackwardOf(py: Python, schema: Schema): Backward {
    (t, y) => if t in schema then RevContainer(py, schema[t].container, y) else None
  }

  function XlateDb(py: Python, schema: Schema, db: Db, tables: seq<string>): Option<YangDb> {
    XlateAll(ForwardOf(py, schema, db), t => PlaceOf(schema, t), tables)
  }

  function RevDb(py: Python, schema: Schema, yang: YangDb, slots: seq<Slot>): Option<Db> {
    RevAll(BackwardOf(py, schema), TableOf, yang, slots)
  }

  /** Tables are named after their containers, and names have no colons. */
  ghost predicate GoodSchema(schema: Schema) {
    forall t :: t in schema ==>
      schema[t].container.name == t && ':' !in t && ':' !in schema[t].top && WellFormed(schema[t].container)
  }

  lemma PlaceNamesTable(schema: Schema, t: string)
    requires GoodSchema(schema) && t in schema
    ensures TableOf(PlaceOf(schema, t).1) == Some(t)
  {
    SplitFirst(schema[t].top, t, ':');
    SplitPlain(t, ':');
    assert schema[t].top + ":" + t == schema[t].top + [':'] + t;
  }

  /** Whole ConfigDB: if forward translation succeeds, reverse translation gives back the ConfigDB if
      and only if every table is restorable, whatever the order of the tables. */
  lemma DbSurvivesExactly(py: Python, schema: Schema, db: Db, tables: seq<string>, slots: seq<Slot>)
    requires IsPython(py) && GoodSchema(schema) && db.Keys <= schema.Keys && Enumerates(tables, db.Keys)
    requires XlateDb(py, schema, db, tables).Some?
    requires forall s :: s in slots <==> Look(XlateDb(py, schema, db, tables).value, s).Some?
    ensures RevDb(py, schema, XlateDb(py, schema, db, tables).value, slots) == Some(db)
       <==> forall t :: t in db ==> Restorable(py, schema[t].container, db[t])
  {
    var forward, backward, place := ForwardOf(py, schema, db), BackwardOf(py, schema), (t: string) => PlaceOf(schema, t);
    forall t | t in db
      ensures TableOf(place(t).1) == Some(t)
    {
      PlaceNamesTable(schema, t);
    }
    AllComeBack(forward, backward, place, TableOf, tables, slots, db);
    forall t | t in db
      ensures backward(t, forward(t).value) == Some(db[t]) <==> Restorable(py, schema[t].container, db[t])
    {
      TableSurvivesExactly(py, schema[t].container, db[t]);
    }
  }
}
