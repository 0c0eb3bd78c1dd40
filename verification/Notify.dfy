/**
 The row-level notify triggers: INSERT sends the whole row, UPDATE sends the required columns plus the changed
 ones, and an UPDATE that changes required columns only sends nothing.
 */
module Notify {
  import opened Json
  import opened Options

  /** A row as `to_jsonb` gives it: one entry per column. */
  type Row = map<string, Json>

  /** What tells the triggers apart: the required columns, and whether a missing tenant is sent as null. */
  datatype Trigger = Trigger(required: set<string>, sendsNullTenant: bool)

  const TRANSACTION := Trigger({"id", "transactionId", "tenantId", "updatedAt"}, true)
  const LOCATION := Trigger({"id", "tenantId", "updatedAt"}, false)
  const OLD_CONNECTOR := Trigger({"id", "tenantId", "updatedAt", "stationId", "evseId"}, false)
  const CONNECTOR := Trigger({"id", "tenantId", "updatedAt", "stationId", "evseId", "ocppConnectionName"}, false)
  const OLD_EVSE := Trigger({"id", "tenantId", "updatedAt", "stationId"}, false)
  const EVSE := Trigger({"id", "tenantId", "updatedAt", "stationId", "ocppConnectionName"}, false)

  const TRIGGERS := [TRANSACTION, LOCATION, OLD_CONNECTOR, CONNECTOR, OLD_EVSE, EVSE]

  /** The columns of `row` among `ks`. */
  function Pick(row: Row, ks: set<string>): Row {
    row - (row.Keys - ks)
  }

  function ChangedColumns(trig: Trigger, before: Row, after: Row): set<string> {
    set k | k in after && k in before && after[k] != before[k] && k !in trig.required
  }

  function WithTenant(trig: Trigger, data: Row, tenant: Option<Json>): Row {
    if tenant.Some? then data["tenant" := tenant.value]
    else if trig.sendsNullTenant then data["tenant" := Null]
    else data
  }

  /** A notification's data is SQL NULL when the row has none of the required columns: NULL || x is NULL. */
  datatype Notice = Silent | Sent(data: Option<Row>)

  function OnInsert(trig: Trigger, row: Row, tenant: Option<Json>): Notice {
    Sent(Some(WithTenant(trig, row, tenant)))
  }

  function OnUpdate(trig: Trigger, before: Row, after: Row, tenant: Option<Json>): Notice {
    var changed := Pick(after, ChangedColumns(trig, before, after));
    var required := Pick(after, trig.required);
    if changed == map[] then Silent
    else if required == map[] then Sent(None)
    else Sent(Some(WithTenant(trig, required + changed, tenant)))
  }

  /** The channel the triggers notify on. */
  class Channel {
    var sent: seq<Option<Row>>

    constructor ()
      ensures sent == []
    {
      sent := [];
    }

    method RowInserted(trig: Trigger, row: Row, tenant: Option<Json>)
      modifies this
      ensures OnInsert(trig, row, tenant).Sent? && sent == old(sent) + [OnInsert(trig, row, tenant).data]
    {
      var notificationData := row;
      if tenant.Some? {
        notificationData := notificationData["tenant" := tenant.value];
      } else if trig.sendsNullTenant {
        notificationData := notificationData["tenant" := Null];
      }
      sent := sent + [Some(notificationData)];
    }

    method RowUpdated(trig: Trigger, before: Row, after: Row, tenant: Option<Json>)
      modifies this
      ensures match OnUpdate(trig, before, after, tenant)
              case Silent => sent == old(sent)
              case Sent(data) => sent == old(sent) + [data]
    {
      var requiredData := Pick(after, trig.required);
      var changedKeys := set k | k in after && k in before && after[k] != before[k] && k !in trig.required;
      var changedData := Pick(after, changedKeys);
      if changedData == map[] {
        return;
      }
      if requiredData == map[] {
        sent := sent + [None];
        return;
      }
      var notificationData := requiredData + changedData;
      if tenant.Some? {
        notificationData := notificationData["tenant" := tenant.value];
      } else if trig.sendsNullTenant {
        notificationData := notificationData["tenant" := Null];
      }
      sent := sent + [Some(notificationData)];
    }
  }

  // ---- what an update notification says ----

  /** An update between rows of one table: same columns, `id` among them, none called `tenant`. */
  predicate SameTable(before: Row, after: Row) {
    before.Keys == after.Keys && "id" in after && "tenant" !in after
  }

  /** Silence means that nothing but required columns changed, and only then. */
  lemma SilentIffRequiredOnly(trig: Trigger, before: Row, after: Row, tenant: Option<Json>)
    requires SameTable(before, after)
    ensures OnUpdate(trig, before, after, tenant) == Silent
       <==> forall k :: k in after && after[k] != before[k] ==> k in trig.required
  {
    var changed := ChangedColumns(trig, before, after);
    assert Pick(after, changed).Keys == changed;
    assert forall k :: k in after && after[k] != before[k] && k !in trig.required ==> k in changed;
    if changed == {} { assert Pick(after, changed) == map[]; }
  }

  /** Patching the old row with what was sent gives the new row: the delta is complete. */
  lemma DeltaIsComplete(trig: Trigger, before: Row, after: Row, tenant: Option<Json>)
    requires SameTable(before, after) && "id" in trig.required
    requires OnUpdate(trig, before, after, tenant) != Silent
    ensures var notice := OnUpdate(trig, before, after, tenant);
            notice.data.Some? && before + notice.data.value - {"tenant"} == after
  {
    assert "id" in Pick(after, trig.required);
  }

  /** Exactly the required and the changed columns are sent: the delta is minimal. */
  lemma DeltaIsMinimal(trig: Trigger, before: Row, after: Row, tenant: Option<Json>)
    requires SameTable(before, after) && "id" in trig.required
    requires OnUpdate(trig, before, after, tenant) != Silent
    ensures OnUpdate(trig, before, after, tenant).data.Some?
    ensures var data := OnUpdate(trig, before, after, tenant).data.value;
            && (forall k :: k != "tenant" ==>
                  (k in data <==> k in after && (k in trig.required || after[k] != before[k])))
            && (forall k :: k in data && k != "tenant" ==> data[k] == after[k])
  {
    assert "id" in Pick(after, trig.required);
  }

  /** The tenant goes with every notification; a missing one is sent as null or left out, as the trigger says. */
  lemma TenantGoesWith(trig: Trigger, before: Row, after: Row, tenant: Option<Json>)
    requires SameTable(before, after) && "id" in trig.required
    ensures CarriesTenant(trig, OnInsert(trig, after, tenant).data.value, tenant)
    ensures OnUpdate(trig, before, after, tenant) != Silent ==>
              OnUpdate(trig, before, after, tenant).data.Some?
              && CarriesTenant(trig, OnUpdate(trig, before, after, tenant).data.value, tenant)
  {
    assert "id" in Pick(after, trig.required);
  }

  /** Which updates each trigger passes over: those of its required columns alone. */
  lemma QuietColumns(before: Row, after: Row, tenant: Option<Json>)
    requires SameTable(before, after)
    ensures OnUpdate(TRANSACTION, before, after, tenant) == Silent
       <==> OnlyChanges(before, after, {"id", "transactionId", "tenantId", "updatedAt"})
    ensures OnUpdate(LOCATION, before, after, tenant) == Silent
       <==> OnlyChanges(before, after, {"id", "tenantId", "updatedAt"})
    ensures OnUpdate(CONNECTOR, before, after, tenant) == Silent
       <==> OnlyChanges(before, after, {"id", "tenantId", "updatedAt", "stationId", "evseId", "ocppConnectionName"})
    ensures OnUpdate(EVSE, before, after, tenant) == Silent
       <==> OnlyChanges(before, after, {"id", "tenantId", "updatedAt", "stationId", "ocppConnectionName"})
  {
    SilentIffRequiredOnly(TRANSACTION, before, after, tenant);
    SilentIffRequiredOnly(LOCATION, before, after, tenant);
    SilentIffRequiredOnly(CONNECTOR, before, after, tenant);
    SilentIffRequiredOnly(EVSE, before, after, tenant);
  }

  predicate OnlyChanges(before: Row, after: Row, ks: set<string>)
    requires before.Keys == after.Keys
  {
    forall k :: k in after && after[k] != before[k] ==> k in ks
  }

  /** A missing tenant is sent as null with transactions, and is left out with the others. */
  lemma MissingTenant(row: Row)
    ensures OnInsert(TRANSACTION, row, None) == Sent(Some(row["tenant" := Null]))
    ensures forall trig :: trig in TRIGGERS && trig != TRANSACTION ==> OnInsert(trig, row, None) == Sent(Some(row))
  {
  }

  /** The data is NULL exactly if something changed in a row without any required column. */
  lemma NullData(trig: Trigger, before: Row, after: Row, tenant: Option<Json>)
    requires before.Keys == after.Keys
    ensures OnUpdate(trig, before, after, tenant) == Sent(None)
       <==> (forall k :: k in after ==> k !in trig.required) && exists k :: k in after && after[k] != before[k]
  {
    var changed := ChangedColumns(trig, before, after);
    assert Pick(after, changed).Keys == changed;
    assert Pick(after, trig.required).Keys == after.Keys * trig.required;
    if k :| k in after && after[k] != before[k] && k !in trig.required { assert k in changed; }
    if changed == {} { assert Pick(after, changed) == map[]; }
    if k :| k in after && k in trig.required { assert k in Pick(after, trig.required); }
    if forall k :: k in after ==> k !in trig.required { assert Pick(after, trig.required).Keys == {}; }
  }

  predicate CarriesTenant(trig: Trigger, data: Row, tenant: Option<Json>) {
    match tenant
    case Some(v) => "tenant" in data && data["tenant"] == v
    case None => if trig.sendsNullTenant then "tenant" in data && data["tenant"] == Null else "tenant" !in data
  }

  // ---- widening the required columns ----

  function Widened(trig: Trigger, f: string): Trigger {
    trig.(required := trig.required + {f})
  }

  /**
   Requiring one more column silences exactly the updates in which that column was the only change worth sending;
   whenever both triggers notify, the wide payload is the old one with that column.
   */
  lemma WideningExactly(trig: Trigger, f: string, before: Row, after: Row, tenant: Option<Json>)
    requires SameTable(before, after) && "id" in trig.required && f in after && f !in trig.required
    ensures var narrow, wide := OnUpdate(trig, before, after, tenant), OnUpdate(Widened(trig, f), before, after, tenant);
            && (wide == Silent <==> narrow == Silent || ChangedColumns(trig, before, after) == {f})
            && (wide != Silent ==> narrow != Silent && wide.data.Some? && narrow.data.Some?
                                   && wide.data.value == narrow.data.value[f := after[f]])
  {
    var c, w := ChangedColumns(trig, before, after), ChangedColumns(Widened(trig, f), before, after);
    assert w == c - {f};
    Notifies(trig, before, after, tenant);
    Notifies(Widened(trig, f), before, after, tenant);
    if w != {} {
      WideData(after, trig.required, c, f);
    }
  }

  lemma Notifies(trig: Trigger, before: Row, after: Row, tenant: Option<Json>)
    requires SameTable(before, after) && "id" in trig.required
    ensures var changed := ChangedColumns(trig, before, after);
            OnUpdate(trig, before, after, tenant)
            == if changed == {} then Silent
               else Sent(Some(WithTenant(trig, Pick(after, trig.required) + Pick(after, changed), tenant)))
  {
    var changed := ChangedColumns(trig, before, after);
    assert Pick(after, changed).Keys == changed;
    assert "id" in Pick(after, trig.required);
    if changed == {} { assert Pick(after, changed) == map[]; }
  }

  lemma WideData(after: Row, required: set<string>, changed: set<string>, f: string)
    requires f in after && changed <= after.Keys
    ensures (Pick(after, required) + Pick(after, changed))[f := after[f]]
         == Pick(after, required + {f}) + Pick(after, changed - {f})
  {
  }

  /** The connector and EVSE triggers on rows whose connection name does not change. */
  lemma ConnectionNameWidening(before: Row, after: Row, tenant: Option<Json>)
    requires SameTable(before, after) && "ocppConnectionName" in after
    requires after["ocppConnectionName"] == before["ocppConnectionName"]
    ensures WidenedNotice(OnUpdate(OLD_CONNECTOR, before, after, tenant), OnUpdate(CONNECTOR, before, after, tenant), after)
    ensures WidenedNotice(OnUpdate(OLD_EVSE, before, after, tenant), OnUpdate(EVSE, before, after, tenant), after)
  {
    assert CONNECTOR == Widened(OLD_CONNECTOR, "ocppConnectionName");
    assert EVSE == Widened(OLD_EVSE, "ocppConnectionName");
    WideningExactly(OLD_CONNECTOR, "ocppConnectionName", before, after, tenant);
    WideningExactly(OLD_EVSE, "ocppConnectionName", before, after, tenant);
  }

  /** The same silence, or the same data and the connection name. */
  predicate WidenedNotice(narrow: Notice, wide: Notice, after: Row)
    requires "ocppConnectionName" in after
  {
    match narrow
    case Silent => wide == Silent
    case Sent(data) => data.Some? && wide == Sent(Some(data.value["ocppConnectionName" := after["ocppConnectionName"]]))
  }
}
