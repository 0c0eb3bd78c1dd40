/**
 References from child tables to charging stations: the backfill, the trigger that resolves a missing reference by
 name and tenant, and what deleting a station does to its children.
 */
module StationRefs {
  import opened Options
  import opened Sets

  datatype Station = Station(name: string, tenant: int)

  /** The ON DELETE rule of the table a child row is in. */
  datatype OnDelete = Cascade | SetNull

  datatype Child = Child(rule: OnDelete, name: Option<string>, tenant: Option<int>, stationId: Option<int>)

  datatype Db = Db(stations: map<int, Station>, children: map<int, Child>)

  predicate UniqueNames(stations: map<int, Station>) {
    forall p, q :: p in stations && q in stations && stations[p] == stations[q] ==> p == q
  }

  /** `p` is the station the row's own name and tenant say; NULL says none. */
  predicate IsOwn(stations: map<int, Station>, c: Child, p: int) {
    p in stations && c.name == Some(stations[p].name) && c.tenant == Some(stations[p].tenant)
  }

  predicate HasOwn(stations: map<int, Station>, c: Child) {
    exists p :: p in stations && IsOwn(stations, c, p)
  }

  function Own(stations: map<int, Station>, c: Child): (p: Option<int>)
    requires UniqueNames(stations)
    ensures p.Some? ==> IsOwn(stations, c, p.value)
    ensures p.None? ==> !HasOwn(stations, c)
  {
    if HasOwn(stations, c) then
      var p :| p in stations && IsOwn(stations, c, p);
      Some(p)
    else None
  }

  /** The triggered row: populate_station_id runs when the reference is missing, and raises if it finds none. */
  function Populated(stations: map<int, Station>, c: Child): Option<Child>
    requires UniqueNames(stations)
  {
    if c.stationId.Some? then Some(c)
    else
      var p := Own(stations, c);
      if p.Some? then Some(c.(stationId := p)) else None
  }

  /** INSERT or UPDATE of a child row: the trigger, then the foreign key. */
  function WriteChild(db: Db, id: int, c: Child): Option<Db>
    requires UniqueNames(db.stations)
  {
    var row := Populated(db.stations, c);
    if row.Some? && row.value.stationId.Some? && row.value.stationId.value in db.stations then
      Some(db.(children := db.children[id := row.value]))
    else None
  }

  function Referencing(db: Db, p: int, rule: OnDelete): set<int> {
    set i | i in db.children && db.children[i].stationId == Some(p) && db.children[i].rule == rule
  }

  /** INSERT of a station: rejected if its name is taken within the tenant. */
  function InsertStation(db: Db, p: int, s: Station): Option<Db>
    requires p !in db.stations
  {
    if exists q :: q in db.stations && db.stations[q] == s then None else Some(db.(stations := db.stations[p := s]))
  }

  /**
   DELETE of a station: the CASCADE rows go; each SET NULL row is updated to a missing reference, which fires the
   trigger on it against the remaining stations. `db'` is the outcome if no trigger raises.
   */
  ghost predicate Deletes(db: Db, p: int, db': Db)
    requires UniqueNames(db.stations) && p in db.stations
  {
    var rest := db.stations - {p};
    && db'.stations == rest
    && db'.children.Keys == db.children.Keys - Referencing(db, p, Cascade)
    && forall i :: i in db'.children ==>
         if i in Referencing(db, p, SetNull) then Populated(rest, db.children[i].(stationId := None)) == Some(db'.children[i])
         else db'.children[i] == db.children[i]
  }

  ghost predicate Deletable(db: Db, p: int)
    requires UniqueNames(db.stations) && p in db.stations
  {
    exists db' :: Deletes(db, p, db')
  }

  // ---- the invariant ----

  /** A named child references the one station of its own name and tenant; every reference is to a stored station. */
  ghost predicate Consistent(db: Db) {
    && UniqueNames(db.stations)
    && (forall i :: i in db.children && db.children[i].name.Some? ==>
          db.children[i].stationId.Some? && IsOwn(db.stations, db.children[i], db.children[i].stationId.value))
    && (forall i :: i in db.children && db.children[i].stationId.Some? ==> db.children[i].stationId.value in db.stations)
  }

  // ---- the backfill ----

  /** What the UPDATE makes of a row: the reference to its own station, or the row as it was if there is none. */
  function Linked(stations: map<int, Station>, c: Child): Child
    requires UniqueNames(stations)
  {
    if HasOwn(stations, c) then c.(stationId := Own(stations, c)) else c
  }

  /** A row that the migration cannot go on with: named and without a reference, or with a dangling one. */
  predicate Orphan(stations: map<int, Station>, c: Child) {
    if c.stationId.None? then c.name.Some? else c.stationId.value !in stations
  }

  class Migration {
    const stations: map<int, Station>
    var children: map<int, Child>

    constructor (db: Db)
      ensures stations == db.stations && children == db.children
    {
      stations := db.stations;
      children := db.children;
    }

    /**
     UPDATE every matched row, refuse to go on if a named row is left without a reference, then add the foreign key.
     Rows may carry references from an earlier, partial run.
     */
    method Backfill() returns (ok: bool)
      requires UniqueNames(stations)
      modifies this
      ensures ok <==> forall i :: i in old(children) && !HasOwn(stations, old(children)[i]) ==>
                        if old(children)[i].stationId.None? then old(children)[i].name.None?
                        else old(children)[i].stationId.value in stations
      ensures ok ==> children.Keys == old(children).Keys
      ensures ok ==> forall i :: i in children ==> children[i] == Linked(stations, old(children)[i])
      ensures ok ==> (Consistent(Db(stations, children))
                 <==> forall i :: i in old(children) && old(children)[i].name.Some? ==> HasOwn(stations, old(children)[i]))
      ensures !ok ==> children == old(children)
    {
      var before := children;
      var todo := children.Keys;
      while todo != {}
        invariant todo <= before.Keys && children.Keys == before.Keys
        invariant forall i :: i in before ==>
                    children[i] == if i in todo then before[i] else Linked(stations, before[i])
      {
        Inhabited(todo);
        var i :| i in todo;
        todo := todo - {i};
        children := children[i := Linked(stations, children[i])];
      }
      LinkedRows(stations, before, children);
      ok := !exists i :: i in children && Orphan(stations, children[i]);
      if !ok {
        children := before;
      }
    }
  }

  lemma LinkedRow(stations: map<int, Station>, c: Child)
    requires UniqueNames(stations)
    ensures Orphan(stations, Linked(stations, c)) <==> Orphan(stations, c) && !HasOwn(stations, c)
    ensures HasOwn(stations, c) <==>
              Linked(stations, c).stationId.Some? && IsOwn(stations, Linked(stations, c), Linked(stations, c).stationId.value)
  {
    var row := Linked(stations, c);
    if HasOwn(stations, c) {
      assert IsOwn(stations, c, Own(stations, c).value);
    }
    if row.stationId.Some? && IsOwn(stations, row, row.stationId.value) {
      assert IsOwn(stations, c, row.stationId.value);
    }
  }

  lemma LinkedRows(stations: map<int, Station>, before: map<int, Child>, after: map<int, Child>)
    requires UniqueNames(stations) && before.Keys == after.Keys
    requires forall i :: i in before ==> after[i] == Linked(stations, before[i])
    ensures (forall i :: i in after ==> !Orphan(stations, after[i]))
       <==> (forall i :: i in before && !HasOwn(stations, before[i]) ==> !Orphan(stations, before[i]))
    ensures (forall i :: i in after ==> !Orphan(stations, after[i])) ==>
              (Consistent(Db(stations, after)) <==> forall i :: i in before && before[i].name.Some? ==> HasOwn(stations, before[i]))
  {
    forall i | i in before
      ensures Orphan(stations, after[i]) <==> Orphan(stations, before[i]) && !HasOwn(stations, before[i])
      ensures HasOwn(stations, before[i]) <==>
                after[i].stationId.Some? && IsOwn(stations, after[i], after[i].stationId.value)
    {
      LinkedRow(stations, before[i]);
    }
  }

  // ---- writing a child row ----

  /** The row leaves its reference to the trigger, has no name, or brings the reference to its own station. */
  predicate Honest(stations: map<int, Station>, c: Child) {
    c.stationId.None? || c.name.None? || IsOwn(stations, c, c.stationId.value)
  }

  /**
   An insert or update without a reference succeeds exactly if the row's own station exists. One that brings a
   reference is only checked against the foreign key. References stay right exactly if the write is honest.
   */
  lemma WriteChildExactly(db: Db, id: int, c: Child)
    requires Consistent(db)
    ensures c.stationId.None? ==> (WriteChild(db, id, c).Some? <==> HasOwn(db.stations, c))
    ensures c.stationId.Some? ==> (WriteChild(db, id, c).Some? <==> c.stationId.value in db.stations)
    ensures WriteChild(db, id, c).Some? ==> (Consistent(WriteChild(db, id, c).value) <==> Honest(db.stations, c))
    ensures WriteChild(db, id, c).Some? ==>
              var db' := WriteChild(db, id, c).value;
              var row := if id in db'.children then db'.children[id] else c;
              && db' == Db(db.stations, db.children[id := row]) && row == c.(stationId := row.stationId)
              && (if c.stationId.Some? then row == c else row.stationId.Some? && IsOwn(db.stations, c, row.stationId.value))
  {
    var r := WriteChild(db, id, c);
    if r.Some? {
      var db' := r.value;
      assert db'.children[id].name == c.name && db'.children[id].tenant == c.tenant;
      assert forall i :: i in db.children && i != id ==> db'.children[i] == db.children[i];
      if Honest(db.stations, c) {
        assert c.name.Some? ==> IsOwn(db.stations, db'.children[id], db'.children[id].stationId.value);
      }
    }
  }

  /** A station is stored, and nothing else changes, exactly if its tenant has none of its name. References stay right. */
  lemma InsertStationExactly(db: Db, p: int, s: Station)
    requires Consistent(db) && p !in db.stations
    ensures InsertStation(db, p, s).Some?
       <==> forall q :: q in db.stations ==> db.stations[q].name != s.name || db.stations[q].tenant != s.tenant
    ensures InsertStation(db, p, s).Some? ==>
              && InsertStation(db, p, s).value == Db(db.stations[p := s], db.children)
              && Consistent(InsertStation(db, p, s).value)
  {
    if InsertStation(db, p, s).Some? {
      var db' := InsertStation(db, p, s).value;
      assert forall q :: q in db.stations ==> db'.stations[q] == db.stations[q];
    }
  }

  // ---- deleting a station ----

  /** A SET NULL row of a deleted station cannot be resolved again: its own station is the one that went. */
  lemma SetNullRaises(db: Db, p: int, i: int)
    requires Consistent(db) && p in db.stations && i in Referencing(db, p, SetNull)
    ensures Populated(db.stations - {p}, db.children[i].(stationId := None)).None?
  {
    var rest, c := db.stations - {p}, db.children[i].(stationId := None);
    forall q | q in rest
      ensures !IsOwn(rest, c, q)
    {
      assert IsOwn(rest, c, q) ==> IsOwn(db.stations, db.children[i], q);
      assert c.name.Some? ==> IsOwn(db.stations, db.children[i], p);
    }
  }

  /** SET NULL acts as a restriction: a station can be deleted exactly if no SET NULL row references it. */
  lemma DeletableIffNoSetNullRows(db: Db, p: int)
    requires Consistent(db) && p in db.stations
    ensures Deletable(db, p) <==> Referencing(db, p, SetNull) == {}
  {
    if Referencing(db, p, SetNull) == {} {
      var gone := Referencing(db, p, Cascade);
      var db' := Db(db.stations - {p}, db.children - gone);
      assert Deletes(db, p, db');
    } else {
      Inhabited(Referencing(db, p, SetNull));
      var i :| i in Referencing(db, p, SetNull);
      SetNullRaises(db, p, i);
      assert i !in Referencing(db, p, Cascade);
    }
  }

  /** A delete that goes through removes the CASCADE rows, leaves all others alone, and keeps the invariant. */
  lemma DeleteKeeps(db: Db, p: int, db': Db)
    requires Consistent(db) && p in db.stations && Deletes(db, p, db')
    ensures Consistent(db')
    ensures db'.children == db.children - Referencing(db, p, Cascade)
  {
    assert Deletable(db, p);
    DeletableIffNoSetNullRows(db, p);
    forall i | i in db'.children
      ensures db'.children[i] == db.children[i] && db.children[i].stationId != Some(p)
    {
      var c := db.children[i];
      assert i in Referencing(db, p, Cascade) <==> c.stationId == Some(p) && c.rule == Cascade;
      assert i in Referencing(db, p, SetNull) <==> c.stationId == Some(p) && c.rule == SetNull;
    }
  }

  // ---- runs ----

  datatype Action =
    | Write(id: int, row: Child)
    | AddStation(p: int, s: Station)
    | DeleteStation(p: int)

  /** A statement that goes through: a child row is inserted or updated, a station is added or deleted. */
  ghost predicate Does(db: Db, a: Action, db': Db) {
    UniqueNames(db.stations) && Changes(db, a, db')
  }

  ghost predicate Changes(db: Db, a: Action, db': Db)
    requires UniqueNames(db.stations)
  {
    match a
    case Write(id, row) => WriteChild(db, id, row) == Some(db')
    case AddStation(p, s) => p !in db.stations && InsertStation(db, p, s) == Some(db')
    case DeleteStation(p) => p in db.stations && Deletes(db, p, db')
  }

  predicate HonestAction(db: Db, a: Action) {
    a.Write? ==> Honest(db.stations, a.row)
  }

  lemma StepExactly(db: Db, a: Action, db': Db)
    requires Consistent(db) && Does(db, a, db')
    ensures Consistent(db') <==> HonestAction(db, a)
  {
    match a
    case Write(id, row) => WriteChildExactly(db, id, row);
    case AddStation(p, s) => InsertStationExactly(db, p, s);
    case DeleteStation(p) => DeleteKeeps(db, p, db');
  }

  ghost predicate Run(run: seq<Db>, actions: seq<Action>) {
    |run| == |actions| + 1 && forall n :: 0 <= n < |actions| ==> StepAt(run, actions, n)
  }

  ghost predicate StepAt(run: seq<Db>, actions: seq<Action>, n: nat)
    requires n < |actions| && n + 1 < |run|
  {
    Does(run[n], actions[n], run[n + 1])
  }

  lemma {:induction false} HonestRun(run: seq<Db>, actions: seq<Action>, n: nat)
    requires Run(run, actions) && n < |run| && Consistent(run[0])
    requires forall k :: 0 <= k < n ==> HonestAction(run[k], actions[k])
    ensures Consistent(run[n])
  {
    if n > 0 {
      HonestRun(run, actions, n - 1);
      assert StepAt(run, actions, n - 1);
      StepExactly(run[n - 1], actions[n - 1], run[n]);
    }
  }

  /**
   From a migrated database on, every state has each named row at the one station of its name and tenant exactly if
   no write ever brings a named row a reference to another station.
   */
  lemma RunKeeps(run: seq<Db>, actions: seq<Action>)
    requires Run(run, actions) && Consistent(run[0])
    ensures (forall n :: 0 <= n < |run| ==> Consistent(run[n]))
       <==> (forall n :: 0 <= n < |actions| ==> HonestAction(run[n], actions[n]))
  {
    if forall n :: 0 <= n < |actions| ==> HonestAction(run[n], actions[n]) {
      forall n | 0 <= n < |run| ensures Consistent(run[n]) { HonestRun(run, actions, n); }
    }
    if forall n :: 0 <= n < |run| ==> Consistent(run[n]) {
      forall n | 0 <= n < |actions|
        ensures HonestAction(run[n], actions[n])
      {
        assert StepAt(run, actions, n) && Consistent(run[n + 1]);
        StepExactly(run[n], actions[n], run[n + 1]);
      }
    }
  }
}
