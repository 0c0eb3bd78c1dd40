/**
 Rows of the "OCPPMessages" table, the two lookups the correlation triggers run over them, and what
 one insert makes of the table under the split triggers and under the single trigger they replaced.
 */
module Messages {
  import opened Options

  /** A row. `kind` is the RPC role: 2 = CALL, 3 = CALLRESULT, 4 = CALLERROR; None stands for SQL NULL. */
  datatype Message = Message(
    id: nat,
    tenantId: Option<int>,
    connection: Option<string>,
    correlationId: Option<string>,
    kind: Option<int>,
    createdAt: int,
    action: Option<string>,
    requestId: Option<nat>)

  /** The table by primary key. */
  type Table = map<nat, Message>

  predicate WellKeyed(t: Table) {
    forall i :: i in t ==> t[i].id == i
  }

  /** SQL `=`: never true when a side is NULL. */
  predicate SqlEq<T(==)>(a: Option<T>, b: Option<T>) {
    a.Some? && a == b
  }

  predicate SameKey(a: Message, b: Message) {
    && SqlEq(a.tenantId, b.tenantId)
    && SqlEq(a.connection, b.connection)
    && SqlEq(a.correlationId, b.correlationId)
  }

  predicate IsCall(m: Message) {
    m.kind == Some(2)
  }

  predicate IsResponse(m: Message) {
    m.kind == Some(3) || m.kind == Some(4)
  }

  /** The WHEN clause of trg_ocpp_correlate_response. */
  predicate CorrelatesAsResponse(m: Message) {
    m.correlationId.Some? && m.requestId.None? && IsResponse(m)
  }

  /** The WHEN clause of trg_ocpp_correlate_call. */
  predicate CorrelatesAsCall(m: Message) {
    m.correlationId.Some? && IsCall(m)
  }

  /** Some row already names call `c` as the one it answers. */
  predicate Claimed(t: Table, c: nat) {
    exists r :: r in t && t[r].requestId == Some(c)
  }

  predicate CallCandidate(t: Table, m: Message, c: nat) {
    c in t && SameKey(t[c], m) && IsCall(t[c]) && !Claimed(t, c)
  }

  predicate ResponseCandidate(t: Table, m: Message, r: nat) {
    r in t && SameKey(t[r], m) && IsResponse(t[r]) && t[r].requestId.None? && r != m.id
  }

  /** The order of `ORDER BY "createdAt" ASC, id ASC`. */
  predicate Before(a: Message, b: Message) {
    a.createdAt < b.createdAt || (a.createdAt == b.createdAt && a.id < b.id)
  }

  /** What a response's SELECT may return: the newest unclaimed CALL of its key, or nothing. */
  predicate NewestCall(t: Table, m: Message, found: Option<nat>) {
    match found
    case None => forall c :: c in t ==> !CallCandidate(t, m, c)
    case Some(c) =>
      && CallCandidate(t, m, c)
      && forall x :: x in t && CallCandidate(t, m, x) && x != c ==> Before(t[x], t[c])
  }

  /** What a CALL's SELECT may return: the oldest unlinked response of its key, or nothing. */
  predicate OldestResponse(t: Table, m: Message, found: Option<nat>) {
    match found
    case None => forall r :: r in t ==> !ResponseCandidate(t, m, r)
    case Some(r) =>
      && ResponseCandidate(t, m, r)
      && forall x :: x in t && ResponseCandidate(t, m, x) && x != r ==> Before(t[r], t[x])
  }

  lemma {:induction false} Extremes(t: Table, s: set<nat>) returns (least: nat, greatest: nat)
    requires WellKeyed(t) && s <= t.Keys && s != {}
    ensures least in s && forall x :: x in s && x != least ==> Before(t[least], t[x])
    ensures greatest in s && forall x :: x in s && x != greatest ==> Before(t[x], t[greatest])
  {
    var y :| y in s;
    var rest := s - {y};
    if rest == {} {
      least, greatest := y, y;
      assert s == {y};
    } else {
      least, greatest := Extremes(t, rest);
      if Before(t[y], t[least]) { least := y; }
      if Before(t[greatest], t[y]) { greatest := y; }
    }
  }

  lemma NewestCallExists(t: Table, m: Message)
    requires WellKeyed(t)
    ensures exists found :: NewestCall(t, m, found)
  {
    var s := set c | c in t && CallCandidate(t, m, c);
    if s == {} {
      assert forall c :: c in t && CallCandidate(t, m, c) ==> c in s;
      assert NewestCall(t, m, None);
    } else {
      var least, greatest := Extremes(t, s);
      assert NewestCall(t, m, Some(greatest));
    }
  }

  lemma OldestResponseExists(t: Table, m: Message)
    requires WellKeyed(t)
    ensures exists found :: OldestResponse(t, m, found)
  {
    var s := set r | r in t && ResponseCandidate(t, m, r);
    if s == {} {
      assert forall r :: r in t && ResponseCandidate(t, m, r) ==> r in s;
      assert OldestResponse(t, m, None);
    } else {
      var least, greatest := Extremes(t, s);
      assert OldestResponse(t, m, Some(least));
    }
  }

  ghost function FindCall(t: Table, m: Message): (found: Option<nat>)
    requires WellKeyed(t)
    ensures NewestCall(t, m, found)
  {
    NewestCallExists(t, m);
    var found :| NewestCall(t, m, found);
    found
  }

  ghost function FindResponse(t: Table, m: Message): (found: Option<nat>)
    requires WellKeyed(t)
    ensures OldestResponse(t, m, found)
  {
    OldestResponseExists(t, m);
    var found :| OldestResponse(t, m, found);
    found
  }

  /** `r` linked to `c`, with COALESCE(r.action, c.action). */
  function Answering(r: Message, c: Message): Message {
    r.(requestId := Some(c.id), action := if r.action.Some? then r.action else c.action)
  }

  /** The rows one insert of `m` writes under the split triggers. */
  ghost function Delta(t: Table, m: Message): Table
    requires WellKeyed(t)
  {
    if CorrelatesAsResponse(m) then
      var found := FindCall(t, m);
      map[m.id := if found.Some? then Answering(m, t[found.value]) else m]
    else if CorrelatesAsCall(m) then
      var found := FindResponse(t, m);
      if found.Some? then map[m.id := m, found.value := Answering(t[found.value], m)] else map[m.id := m]
    else map[m.id := m]
  }

  ghost function Inserted(t: Table, m: Message): (t': Table)
    requires WellKeyed(t)
    ensures WellKeyed(t') && t'.Keys == t.Keys + {m.id}
  {
    t + Delta(t, m)
  }

  /** The rows one insert writes under the original single BEFORE INSERT trigger. */
  ghost function OriginalDelta(t: Table, m: Message): Table
    requires WellKeyed(t)
  {
    if m.correlationId.None? || m.requestId.Some? || !(IsCall(m) || IsResponse(m)) then map[m.id := m]
    else if IsCall(m) then
      var found := FindResponse(t, m);
      if found.Some? then map[m.id := m, found.value := Answering(t[found.value], m)] else map[m.id := m]
    else
      var found := FindCall(t, m);
      map[m.id := if found.Some? then Answering(m, t[found.value]) else m]
  }

  /** Every stored link names a stored row: what OCPPMessages_requestMessageId_fkey demands. */
  predicate ForeignKeyHolds(t: Table) {
    forall r :: r in t && t[r].requestId.Some? ==> t[r].requestId.value in t
  }

  /** One insert under the split triggers; None when the foreign key rejects it. */
  ghost function SplitInsert(t: Table, m: Message): Option<Table>
    requires WellKeyed(t)
  {
    if ForeignKeyHolds(Inserted(t, m)) then Some(Inserted(t, m)) else None
  }

  /**
   One insert under the original trigger. Its UPDATE of a waiting response ends before the new row is stored,
   so an immediate foreign key looks at that intermediate table; a deferred one looks only at the last.
   */
  ghost function OriginalInsert(t: Table, m: Message, deferred: bool): Option<Table>
    requires WellKeyed(t)
  {
    var writes := OriginalDelta(t, m);
    if !deferred && !ForeignKeyHolds(t + (writes - {m.id})) then None
    else if !ForeignKeyHolds(t + writes) then None
    else Some(t + writes)
  }
}
