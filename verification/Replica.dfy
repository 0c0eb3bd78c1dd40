/**
 The eMSP receiver as a replica of the notifying table: it stores what an INSERT sent and shallow-merges what the
 UPDATEs send. Rows are followed by the key of the receiver's URL, whatever order their changes come in.
 */
module Replica {
  import opened Json
  import opened Options
  import opened Notify

  /** The sessions (or locations) map of the receiver: PUT replaces, PATCH merges onto what is held. */
  class Receiver {
    var objects: map<string, Row>

    constructor ()
      ensures objects == map[]
    {
      objects := map[];
    }

    method Put(key: string, body: Row)
      modifies this
      ensures objects == old(objects)[key := body]
    {
      objects := objects[key := body];
    }

    method Patch(key: string, body: Row)
      modifies this
      ensures objects == Patched(old(objects), key, body)
    {
      var merged := body;
      if key in objects {
        merged := objects[key] + body;
      }
      objects := objects[key := merged];
    }

    /** A receiver in step with a table answers for exactly its rows, and what it answers follows them. */
    method Read(key: string, ghost trig: Trigger, ghost table: map<string, Row>) returns (found: Option<Row>)
      ensures found == if key in objects then Some(objects[key]) else None
      ensures InStep(trig, World(table, objects)) ==>
                if key in table then found.Some? && Follows(trig, table[key], found.value) else found.None?
    {
      found := if key in objects then Some(objects[key]) else None;
    }

    /** The delivery of one notification: an insert's goes to PUT, an update's to PATCH, and silence to nobody. */
    method Deliver(ghost trig: Trigger, ghost table: map<string, Row>, c: Change, notice: Notice)
      requires Allowed(World(table, objects), c) && notice == NoticeOf(trig, World(table, objects), c)
      modifies this
      ensures World(table[c.key := c.row], objects) == Step(trig, World(table, old(objects)), c)
      ensures "id" in trig.required && InStep(trig, World(table, old(objects))) ==>
                InStep(trig, World(table[c.key := c.row], objects))
    {
      ghost var before := World(table, objects);
      if notice.Sent? && notice.data.Some? {
        if c.Insert? {
          Put(c.key, notice.data.value);
        } else {
          Patch(c.key, notice.data.value);
        }
      }
      if "id" in trig.required && InStep(trig, before) {
        StepStaysInStep(trig, before, c);
      }
    }
  }

  function Patched(objects: map<string, Row>, key: string, body: Row): map<string, Row> {
    objects[key := if key in objects then objects[key] + body else body]
  }

  // ---- a history of changes ----

  datatype Change =
    | Insert(key: string, row: Row, tenant: Option<Json>)
    | Update(key: string, row: Row, tenant: Option<Json>)

  datatype World = World(table: map<string, Row>, objects: map<string, Row>)

  predicate Allowed(w: World, c: Change) {
    match c
    case Insert(k, row, _) => k !in w.table && "id" in row && "tenant" !in row
    case Update(k, row, _) => k in w.table && SameTable(w.table[k], row)
  }

  function NoticeOf(trig: Trigger, w: World, c: Change): Notice
    requires Allowed(w, c)
  {
    match c
    case Insert(_, row, tenant) => OnInsert(trig, row, tenant)
    case Update(k, row, tenant) => OnUpdate(trig, w.table[k], row, tenant)
  }

  /** One change of the table and the delivery of its notification, if it sends one. */
  function Step(trig: Trigger, w: World, c: Change): World
    requires Allowed(w, c)
  {
    var notice := NoticeOf(trig, w, c);
    var table := w.table[c.key := c.row];
    if notice == Silent || notice.data.None? then w.(table := table)
    else if c.Insert? then World(table, w.objects[c.key := notice.data.value])
    else World(table, Patched(w.objects, c.key, notice.data.value))
  }

  predicate AllowedRun(trig: Trigger, w: World, cs: seq<Change>)
    decreases |cs|
  {
    cs == [] || (Allowed(w, cs[0]) && AllowedRun(trig, Step(trig, w, cs[0]), cs[1..]))
  }

  function Run(trig: Trigger, w: World, cs: seq<Change>): World
    requires AllowedRun(trig, w, cs)
    decreases |cs|
  {
    if cs == [] then w else Run(trig, Step(trig, w, cs[0]), cs[1..])
  }

  /** The object's own columns are the row's, and the two agree on every column that is not a required one. */
  predicate Follows(trig: Trigger, row: Row, held: Row) {
    && "id" in row && "tenant" !in row
    && held.Keys - {"tenant"} == row.Keys
    && forall k :: k in row && k !in trig.required ==> held[k] == row[k]
  }

  predicate InStep(trig: Trigger, w: World) {
    w.objects.Keys == w.table.Keys && forall k :: k in w.table ==> Follows(trig, w.table[k], w.objects[k])
  }

  lemma UpdateFollows(trig: Trigger, before: Row, after: Row, held: Row, tenant: Option<Json>)
    requires "id" in trig.required && SameTable(before, after) && Follows(trig, before, held)
    ensures var notice := OnUpdate(trig, before, after, tenant);
            && (notice == Silent ==> Follows(trig, after, held))
            && (notice != Silent ==> notice.data.Some? && Follows(trig, after, held + notice.data.value)
                                     && held + notice.data.value - {"tenant"} == after)
  {
    SilentIffRequiredOnly(trig, before, after, tenant);
    if OnUpdate(trig, before, after, tenant) != Silent {
      assert "id" in Pick(after, trig.required);
    }
  }

  /** After every change the replica agrees on all non-required columns; right after a notice, on all columns. */
  lemma StepStaysInStep(trig: Trigger, w: World, c: Change)
    requires "id" in trig.required && InStep(trig, w) && Allowed(w, c)
    ensures InStep(trig, Step(trig, w, c))
    ensures NoticeOf(trig, w, c) != Silent ==> Step(trig, w, c).objects[c.key] - {"tenant"} == c.row
    ensures NoticeOf(trig, w, c) == Silent ==> Step(trig, w, c).objects == w.objects
  {
    match c
    case Insert(k, row, tenant) =>
      assert WithTenant(trig, row, tenant) - {"tenant"} == row;
    case Update(k, row, tenant) =>
      UpdateFollows(trig, w.table[k], row, w.objects[k], tenant);
  }

  lemma {:induction false} ReplicaFollows(trig: Trigger, w: World, cs: seq<Change>)
    requires "id" in trig.required && InStep(trig, w) && AllowedRun(trig, w, cs)
    ensures InStep(trig, Run(trig, w, cs))
    decreases |cs|
  {
    if cs != [] {
      StepStaysInStep(trig, w, cs[0]);
      ReplicaFollows(trig, Step(trig, w, cs[0]), cs[1..]);
    }
  }

  /** From an empty table, for any interleaved row histories delivered in order. */
  lemma EveryHistoryIsFollowed(trig: Trigger, cs: seq<Change>, last: Change)
    requires "id" in trig.required
    requires AllowedRun(trig, World(map[], map[]), cs) && Allowed(Run(trig, World(map[], map[]), cs), last)
    ensures var w := Run(trig, World(map[], map[]), cs);
            && InStep(trig, w)
            && (NoticeOf(trig, w, last) != Silent ==> Step(trig, w, last).objects[last.key] - {"tenant"} == last.row)
  {
    ReplicaFollows(trig, World(map[], map[]), cs);
    StepStaysInStep(trig, Run(trig, World(map[], map[]), cs), last);
  }

  /** For the notify triggers of transactions, locations, connectors and EVSEs. */
  lemma AllTriggersAreFollowed(trig: Trigger, cs: seq<Change>, last: Change)
    requires trig in TRIGGERS
    requires AllowedRun(trig, World(map[], map[]), cs) && Allowed(Run(trig, World(map[], map[]), cs), last)
    ensures var w := Run(trig, World(map[], map[]), cs);
            && InStep(trig, w)
            && (NoticeOf(trig, w, last) != Silent ==> Step(trig, w, last).objects[last.key] - {"tenant"} == last.row)
  {
    EveryHistoryIsFollowed(trig, cs, last);
  }

  // ---- exactly what is held ----

  /** A row as it was at its last notification, and the tenant that was sent last, if ever. */
  datatype Version = Version(row: Row, tenant: Option<Json>)

  function Held(v: Version): Row {
    if v.tenant.Some? then v.row["tenant" := v.tenant.value] else v.row
  }

  /** The versions after one change: only a change that notifies makes a new one. */
  function Noted(trig: Trigger, w: World, c: Change, versions: map<string, Version>): map<string, Version>
    requires Allowed(w, c)
  {
    var notice := NoticeOf(trig, w, c);
    if notice == Silent || notice.data.None? then versions
    else
      var tenant :=
        if c.tenant.Some? then c.tenant
        else if trig.sendsNullTenant then Some(Null)
        else if c.Update? && c.key in versions then versions[c.key].tenant
        else None;
      versions[c.key := Version(c.row, tenant)]
  }

  function LastNoted(trig: Trigger, w: World, cs: seq<Change>, versions: map<string, Version>): map<string, Version>
    requires AllowedRun(trig, w, cs)
    decreases |cs|
  {
    if cs == [] then versions
    else LastNoted(trig, Step(trig, w, cs[0]), cs[1..], Noted(trig, w, cs[0], versions))
  }

  ghost predicate Holds(w: World, versions: map<string, Version>) {
    && versions.Keys == w.objects.Keys
    && forall k :: k in versions ==> "tenant" !in versions[k].row && w.objects[k] == Held(versions[k])
  }

  lemma StepHolds(trig: Trigger, w: World, c: Change, versions: map<string, Version>)
    requires "id" in trig.required && InStep(trig, w) && Allowed(w, c) && Holds(w, versions)
    ensures Holds(Step(trig, w, c), Noted(trig, w, c, versions))
  {
    var w', versions' := Step(trig, w, c), Noted(trig, w, c, versions);
    if NoticeOf(trig, w, c) != Silent {
      StepStaysInStep(trig, w, c);
      TenantHeld(trig, w, c, versions);
      SameButTenant(w'.objects[c.key], versions'[c.key]);
      OneNewVersion(w, versions, w', versions', c.key);
    }
  }

  lemma OneNewVersion(w: World, versions: map<string, Version>, w': World, versions': map<string, Version>, k: string)
    requires Holds(w, versions) && k in w'.objects && k in versions'
    requires w'.objects == w.objects[k := w'.objects[k]] && versions' == versions[k := versions'[k]]
    requires "tenant" !in versions'[k].row && w'.objects[k] == Held(versions'[k])
    ensures Holds(w', versions')
  {
  }

  lemma SameButTenant(held: Row, v: Version)
    requires "tenant" !in v.row && held - {"tenant"} == v.row
    requires v.tenant == if "tenant" in held then Some(held["tenant"]) else None
    ensures held == Held(v)
  {
    assert forall k :: k in v.row ==> k in held - {"tenant"} && held[k] == v.row[k];
    assert forall k :: k in held && k != "tenant" ==> k in held - {"tenant"};
  }

  lemma HeldRow(held: Row, v: Version)
    requires "tenant" !in v.row && held == Held(v)
    ensures held - {"tenant"} == v.row
  {
  }

  lemma TenantHeld(trig: Trigger, w: World, c: Change, versions: map<string, Version>)
    requires "id" in trig.required && InStep(trig, w) && Allowed(w, c) && Holds(w, versions)
    requires NoticeOf(trig, w, c).Sent? && NoticeOf(trig, w, c).data.Some?
    ensures var held := Step(trig, w, c).objects[c.key];
            Noted(trig, w, c, versions)[c.key].tenant == if "tenant" in held then Some(held["tenant"]) else None
  {
    match c
    case Insert(k, row, tenant) =>
      assert CarriesTenant(trig, WithTenant(trig, row, tenant), tenant);
    case Update(k, row, tenant) =>
      TenantGoesWith(trig, w.table[k], row, tenant);
  }

  lemma {:induction false} RunHolds(trig: Trigger, w: World, cs: seq<Change>, versions: map<string, Version>)
    requires "id" in trig.required && InStep(trig, w) && AllowedRun(trig, w, cs) && Holds(w, versions)
    ensures Holds(Run(trig, w, cs), LastNoted(trig, w, cs, versions))
    decreases |cs|
  {
    if cs != [] {
      StepHolds(trig, w, cs[0], versions);
      StepStaysInStep(trig, w, cs[0]);
      RunHolds(trig, Step(trig, w, cs[0]), cs[1..], Noted(trig, w, cs[0], versions));
    }
  }

  /**
   After any run each object is, column for column, its row as it was at that row's last notification, with the
   tenant that was sent last. So it is exact exactly if the row has not changed since.
   */
  lemma ReplicaHoldsLastNotified(trig: Trigger, cs: seq<Change>)
    requires "id" in trig.required && AllowedRun(trig, World(map[], map[]), cs)
    ensures var w := Run(trig, World(map[], map[]), cs);
            var versions := LastNoted(trig, World(map[], map[]), cs, map[]);
            && w.objects.Keys == w.table.Keys == versions.Keys
            && (forall k :: k in w.objects ==> w.objects[k] == Held(versions[k]))
            && (forall k :: k in w.objects ==> (w.objects[k] - {"tenant"} == w.table[k] <==> versions[k].row == w.table[k]))
  {
    RunHolds(trig, World(map[], map[]), cs, map[]);
    ReplicaFollows(trig, World(map[], map[]), cs);
    HeldRows(Run(trig, World(map[], map[]), cs), LastNoted(trig, World(map[], map[]), cs, map[]));
  }

  lemma HeldRows(w: World, versions: map<string, Version>)
    requires Holds(w, versions)
    ensures forall k :: k in w.objects ==> w.objects[k] - {"tenant"} == versions[k].row
  {
    forall k | k in w.objects
      ensures w.objects[k] - {"tenant"} == versions[k].row
    {
      HeldRow(w.objects[k], versions[k]);
    }
  }
}
