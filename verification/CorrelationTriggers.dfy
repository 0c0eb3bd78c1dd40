/**
 The trigger functions themselves, statement by statement, on one table that they update in place.
 */
module CorrelationTriggers {
  import opened Messages
  import opened Correlation
  import opened Options

  class MessageTable {
    var rows: Table

    ghost predicate Valid()
      reads this
    {
      WellKeyed(rows)
    }

    constructor ()
      ensures Valid() && rows == map[]
    {
      rows := map[];
    }

    /** SELECT of the response trigger: newest unclaimed CALL, LIMIT 1. */
    method SelectCall(m: Message) returns (found: Option<nat>)
      requires Valid()
      ensures NewestCall(rows, m, found)
    {
      ghost var spec := FindCall(rows, m);
      found := None;
      if exists c :: c in rows && CallCandidate(rows, m, c) {
        assert CallCandidate(rows, m, spec.value);
        var c :| c in rows && CallCandidate(rows, m, c)
              && forall x :: x in rows && CallCandidate(rows, m, x) && x != c ==> Before(rows[x], rows[c]);
        found := Some(c);
      }
    }

    /** SELECT of the CALL trigger: oldest unlinked response, LIMIT 1. */
    method SelectResponse(m: Message) returns (found: Option<nat>)
      requires Valid()
      ensures OldestResponse(rows, m, found)
    {
      ghost var spec := FindResponse(rows, m);
      found := None;
      if exists r :: r in rows && ResponseCandidate(rows, m, r) {
        assert ResponseCandidate(rows, m, spec.value);
        var r :| r in rows && ResponseCandidate(rows, m, r)
              && forall x :: x in rows && ResponseCandidate(rows, m, x) && x != r ==> Before(rows[r], rows[x]);
        found := Some(r);
      }
    }

    /** ocpp_correlate_response, BEFORE INSERT: assigns to NEW and leaves the table alone. */
    method CorrelateResponse(m: Message) returns (row: Message)
      requires Valid() && CorrelatesAsResponse(m)
      ensures Delta(rows, m) == map[m.id := row]
      ensures match FindCall(rows, m)
              case None => row == m
              case Some(c) => LinkedTo(row, m, rows[c])
    {
      row := m;
      var found := SelectCall(m);
      if found.Some? {
        row := row.(requestId := found);
        row := row.(action := if row.action.Some? then row.action else rows[found.value].action);
      }
    }

    /** ocpp_correlate_call, AFTER INSERT: links the waiting response to the row just stored. */
    method CorrelateCall(m: Message)
      requires Valid() && CorrelatesAsCall(m) && m.id in rows && rows[m.id] == m
      modifies this
      ensures Valid()
      ensures rows == Inserted(old(rows) - {m.id}, m)
      ensures match FindResponse(old(rows), m)
              case None => rows == old(rows)
              case Some(r) => r in rows && rows == old(rows)[r := rows[r]] && LinkedTo(rows[r], old(rows)[r], m)
    {
      ghost var before := rows - {m.id};
      var found := SelectResponse(m);
      assert found == FindResponse(rows, m);
      SearchIgnoresTheCall(before, rows, m, found);
      if found.Some? {
        var r := rows[found.value];
        rows := rows[found.value := r.(requestId := Some(m.id), action := if r.action.Some? then r.action else m.action)];
      }
    }

    lemma SearchIgnoresTheCall(before: Table, after: Table, m: Message, found: Option<nat>)
      requires WellKeyed(before) && m.id !in before && IsCall(m) && after == before[m.id := m]
      requires OldestResponse(after, m, found)
      ensures FindResponse(before, m) == found
    {
      forall r | r in before
        ensures ResponseCandidate(after, m, r) <==> ResponseCandidate(before, m, r)
      {
      }
    }

    /** INSERT under the split triggers. */
    method Insert(m: Message) returns (stored: bool)
      requires Valid() && m.id !in rows
      modifies this
      ensures Valid()
      ensures SplitInsert(old(rows), m) == if stored then Some(rows) else None
      ensures !stored ==> rows == old(rows)
    {
      var before := rows;
      var row := m;
      if CorrelatesAsResponse(m) {
        row := CorrelateResponse(m);
      }
      rows := rows[m.id := row];
      if CorrelatesAsCall(row) {
        CorrelateCall(row);
        assert rows - {m.id} + map[m.id := m] == rows;
        assert before[m.id := m] - {m.id} == before;
      }
      assert rows == Inserted(before, m);
      stored := ForeignKeyHolds(rows);
      if !stored {
        rows := before;
      }
    }

    /** INSERT under the original trigger, all of it BEFORE INSERT. */
    method InsertOriginal(m: Message, deferred: bool) returns (stored: bool)
      requires Valid() && m.id !in rows
      modifies this
      ensures Valid()
      ensures OriginalInsert(old(rows), m, deferred) == if stored then Some(rows) else None
      ensures !stored ==> rows == old(rows)
    {
      var before := rows;
      var row := m;
      if m.correlationId.Some? && m.requestId.None? && (IsCall(m) || IsResponse(m)) {
        if m.kind == Some(2) {
          var found := SelectResponse(m);
          assert found == FindResponse(before, m);
          if found.Some? {
            rows := rows[found.value := Answering(rows[found.value], m)];
          }
        } else {
          var found := SelectCall(m);
          if found.Some? {
            row := Answering(m, rows[found.value]);
          }
        }
      }
      ghost var writes := OriginalDelta(before, m);
      assert rows == before + (writes - {m.id});
      stored := deferred || ForeignKeyHolds(rows);
      rows := rows[m.id := row];
      assert rows == before + writes;
      stored := stored && ForeignKeyHolds(rows);
      if !stored {
        rows := before;
      }
    }
  }
}
