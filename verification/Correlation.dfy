/**
 Laws of one insert, and of any serial sequence of inserts, into "OCPPMessages".
 */
module Correlation {
  import opened Messages
  import opened Options

  datatype Key = Key(tenantId: int, connection: string, correlationId: string)

  predicate HasKey(m: Message, k: Key) {
    m.tenantId == Some(k.tenantId) && m.connection == Some(k.connection) && m.correlationId == Some(k.correlationId)
  }

  // ---- what a link is, column by column ----

  /** A CALLRESULT or CALLERROR and the CALL of its key; no key column is NULL. */
  predicate IsAnswerTo(m: Message, c: Message) {
    && c.kind == Some(2) && (m.kind == Some(3) || m.kind == Some(4))
    && NoNullKey(m) && SameColumns(m, c)
  }

  /** `row` is `m` linked to `c`: it names the CALL, takes over the CALL's action if it had none, and is else as sent. */
  predicate LinkedTo(row: Message, m: Message, c: Message) {
    && row.requestId == Some(c.id)
    && (if m.action.Some? then row.action == m.action else row.action == c.action)
    && row.id == m.id && row.kind == m.kind && row.createdAt == m.createdAt
    && row.tenantId == m.tenantId && row.connection == m.connection && row.correlationId == m.correlationId
  }

  predicate SameColumns(a: Message, b: Message) {
    a.tenantId == b.tenantId && a.connection == b.connection && a.correlationId == b.correlationId
  }

  predicate NoNullKey(m: Message) {
    m.tenantId.Some? && m.connection.Some? && m.correlationId.Some?
  }

  /** A CALL of the columns of `m` that no row at all names as the one it answers. */
  ghost predicate OpenCall(t: Table, m: Message, c: nat) {
    && c in t && t[c].kind == Some(2) && NoNullKey(m) && SameColumns(t[c], m)
    && forall r :: r in t ==> t[r].requestId != Some(c)
  }

  /** A response of the columns of `m`, other than `m`, that answers nothing yet. */
  predicate OpenResponse(t: Table, m: Message, r: nat) {
    && r in t && r != m.id && (t[r].kind == Some(3) || t[r].kind == Some(4)) && t[r].requestId.None?
    && NoNullKey(m) && SameColumns(t[r], m)
  }

  /** What both lookups find, in columns: the newest open CALL, and the oldest open response; ties go by id. */
  lemma LookupsInColumns(t: Table, m: Message)
    requires WellKeyed(t)
    ensures match FindCall(t, m)
            case None => forall c: nat :: !OpenCall(t, m, c)
            case Some(c) => OpenCall(t, m, c) && forall x: nat :: OpenCall(t, m, x) && x != c ==>
              t[x].createdAt < t[c].createdAt || (t[x].createdAt == t[c].createdAt && x < c)
    ensures match FindResponse(t, m)
            case None => forall r: nat :: !OpenResponse(t, m, r)
            case Some(r) => OpenResponse(t, m, r) && forall x: nat :: OpenResponse(t, m, x) && x != r ==>
              t[r].createdAt < t[x].createdAt || (t[x].createdAt == t[r].createdAt && r < x)
  {
    forall x: nat
      ensures OpenCall(t, m, x) <==> CallCandidate(t, m, x)
      ensures OpenResponse(t, m, x) <==> ResponseCandidate(t, m, x)
    {
    }
  }

  // ---- the invariant of the stored table ----

  /** A link goes from a response to a stored CALL of its own key. */
  ghost predicate LinksTyped(t: Table) {
    forall r :: r in t && t[r].requestId.Some? ==>
      var c := t[r].requestId.value;
      IsResponse(t[r]) && c in t && IsCall(t[c]) && SameKey(t[r], t[c])
  }

  /** No CALL is claimed twice. */
  ghost predicate LinksInjective(t: Table) {
    forall r, s :: r in t && s in t && t[r].requestId.Some? && t[r].requestId == t[s].requestId ==> r == s
  }

  ghost predicate MissedPair(t: Table, c: nat, r: nat) {
    && c in t && r in t && SameKey(t[c], t[r])
    && IsCall(t[c]) && !Claimed(t, c)
    && IsResponse(t[r]) && t[r].requestId.None?
  }

  /** No key has both an unclaimed CALL and an unlinked response. */
  ghost predicate NothingMissed(t: Table) {
    forall c, r :: c in t && r in t ==> !MissedPair(t, c, r)
  }

  ghost predicate Paired(t: Table) {
    WellKeyed(t) && LinksTyped(t) && LinksInjective(t) && NothingMissed(t)
  }

  /** What a CALL or response may look like when a dispatcher inserts it: a fresh id and no link of its own. */
  predicate Fresh(t: Table, m: Message) {
    m.id !in t && m.requestId.None?
  }

  lemma InsertKeepsLinks(t: Table, m: Message)
    requires Paired(t) && Fresh(t, m)
    ensures LinksTyped(Inserted(t, m)) && LinksInjective(Inserted(t, m))
  {
    InsertKeepsInjective(t, m);
  }

  lemma InsertKeepsInjective(t: Table, m: Message)
    requires WellKeyed(t) && LinksTyped(t) && LinksInjective(t) && Fresh(t, m)
    ensures LinksInjective(Inserted(t, m))
  {
    var t' := Inserted(t, m);
    forall r, s | r in t' && s in t' && t'[r].requestId.Some? && t'[r].requestId == t'[s].requestId
      ensures r == s
    {
      if r != s {
        ClaimsAreApart(t, m, r, s);
      }
    }
  }

  /** The row an insert links, if any, and the CALL it links to: the newcomer or the one found is the only new claim. */
  lemma ClaimsAreApart(t: Table, m: Message, r: nat, s: nat)
    requires WellKeyed(t) && LinksTyped(t) && LinksInjective(t) && Fresh(t, m) && r != s
    requires r in Inserted(t, m) && s in Inserted(t, m) && Inserted(t, m)[r].requestId.Some?
    ensures Inserted(t, m)[r].requestId != Inserted(t, m)[s].requestId
  {
    if CorrelatesAsCall(m) {
      var found := FindResponse(t, m);
      assert r != m.id && found != Some(r) ==> Inserted(t, m)[r] == t[r];
      assert s != m.id && found != Some(s) ==> Inserted(t, m)[s] == t[s];
    } else if CorrelatesAsResponse(m) && FindCall(t, m).Some? {
      var c := FindCall(t, m).value;
      assert !Claimed(t, c);
    }
  }

  /** The new row is itself paired whenever the table holds a partner for it. */
  lemma NewRowFindsPartner(t: Table, m: Message)
    requires Paired(t) && Fresh(t, m)
    ensures forall c :: c in t && CallCandidate(t, m, c) && IsResponse(m) ==> Inserted(t, m)[m.id].requestId.Some?
    ensures forall r :: r in t && ResponseCandidate(t, m, r) && IsCall(m) ==> Claimed(Inserted(t, m), m.id)
  {
    if CorrelatesAsCall(m) && FindResponse(t, m).Some? {
      assert Inserted(t, m)[FindResponse(t, m).value].requestId == Some(m.id);
    }
  }

  /** Claims only grow, so an unclaimed CALL of the new table was unclaimed before. */
  lemma InsertKeepsNothingMissed(t: Table, m: Message)
    requires Paired(t) && Fresh(t, m)
    ensures NothingMissed(Inserted(t, m))
  {
    var t' := Inserted(t, m);
    NewRowFindsPartner(t, m);
    forall c, r | c in t' && r in t'
      ensures !MissedPair(t', c, r)
    {
      ClaimsGrow(t, m, c);
      if r != m.id && c != m.id {
        assert !MissedPair(t, c, r);
      } else if r == m.id && c != m.id {
        assert MissedPair(t', c, r) ==> CallCandidate(t, m, c);
      } else if c == m.id && r != m.id {
        assert MissedPair(t', c, r) ==> ResponseCandidate(t, m, r);
      }
    }
  }

  lemma ClaimsGrow(t: Table, m: Message, c: nat)
    requires Paired(t) && Fresh(t, m)
    ensures Claimed(t, c) ==> Claimed(Inserted(t, m), c)
  {
    if Claimed(t, c) {
      var r :| r in t && t[r].requestId == Some(c);
      assert Inserted(t, m)[r] == t[r];
    }
  }

  /** A message without a link of its own, or a response that brings a link to an unclaimed CALL of its key. */
  predicate Harmless(t: Table, m: Message) {
    m.requestId.Some? ==> IsResponse(m) && CallCandidate(t, m, m.requestId.value)
  }

  /** One insert keeps the table paired exactly if it is harmless, whatever link the message brings. */
  lemma InsertKeepsPaired(t: Table, m: Message)
    requires Paired(t) && m.id !in t
    ensures Paired(Inserted(t, m)) <==> Harmless(t, m)
  {
    if m.requestId.None? {
      InsertKeepsLinks(t, m);
      InsertKeepsNothingMissed(t, m);
    } else if Harmless(t, m) {
      PresetLinkKeepsPaired(t, m);
    } else {
      PresetLinkBreaksLinks(t, m);
    }
  }

  lemma PresetLinkKeepsPaired(t: Table, m: Message)
    requires Paired(t) && m.id !in t && m.requestId.Some? && Harmless(t, m)
    ensures Paired(Inserted(t, m))
  {
    var t' := Inserted(t, m);
    assert t' == t[m.id := m];
    forall c, r | c in t' && r in t'
      ensures !MissedPair(t', c, r)
    {
      if c in t && r in t && Claimed(t, c) {
        var s :| s in t && t[s].requestId == Some(c);
        assert t'[s] == t[s];
      }
      if r == m.id || c == m.id {
        assert t'[m.id] == m;
      } else {
        assert !MissedPair(t, c, r);
      }
    }
  }

  lemma PresetLinkBreaksLinks(t: Table, m: Message)
    requires Paired(t) && m.id !in t && m.requestId.Some? && !Harmless(t, m)
    ensures !LinksTyped(Inserted(t, m)) || !LinksInjective(Inserted(t, m))
  {
    var t', c := Inserted(t, m), m.requestId.value;
    assert t'[m.id] == m;
    if IsResponse(m) && c in t && IsCall(t[c]) && SameKey(m, t[c]) {
      var r :| r in t && t[r].requestId == Some(c);
      assert t'[r] == t[r];
    }
  }

  /** Such a message: a second response that names a CALL already answered. The foreign key lets it in. */
  lemma SharedCall(call: Message, answer: Message, m: Message)
    requires IsCall(call) && call.requestId.None? && IsResponse(answer) && IsResponse(m)
    requires SameKey(answer, call) && SameKey(m, call)
    requires call.id != answer.id && m.id != call.id && m.id != answer.id
    requires answer.requestId == m.requestId == Some(call.id)
    ensures var t := map[call.id := call, answer.id := answer];
            Paired(t) && SplitInsert(t, m) == Some(t[m.id := m]) && !LinksInjective(t[m.id := m])
  {
    var t := map[call.id := call, answer.id := answer];
    assert t[answer.id].requestId == Some(call.id);
    assert Paired(t);
    var t' := t[m.id := m];
    assert Inserted(t, m) == t';
    assert t'[answer.id].requestId == t'[m.id].requestId;
  }

  /**
   Why the lock matters: a link that comes with its message is stored without it. If that happens between a
   response's lookup and its insert, the table stays paired exactly if the two name different CALLs.
   */
  lemma UnlockedLinkRaces(t: Table, m: Message, r: Message)
    requires Paired(t) && Fresh(t, r) && CorrelatesAsResponse(r)
    requires m.id !in t && m.id != r.id && m.requestId.Some? && Harmless(t, m)
    ensures Paired(Inserted(t, m) + Delta(t, r)) <==> FindCall(t, r) != m.requestId
  {
    var t1 := Inserted(t, m);
    PresetLinkKeepsPaired(t, m);
    assert t1 == t[m.id := m];
    var found := FindCall(t, r);
    var t' := t1 + Delta(t, r);
    if found == m.requestId {
      assert t'[r.id].requestId == t'[m.id].requestId == m.requestId;
    } else {
      LookupSurvives(t, m, r);
      assert FindCall(t1, r) == found by { NewestIsUnique(t1, r, FindCall(t1, r), found); }
      assert t' == Inserted(t1, r);
      InsertKeepsPaired(t1, r);
    }
  }

  lemma LookupSurvives(t: Table, m: Message, r: Message)
    requires Paired(t) && m.id !in t && m.requestId.Some? && Harmless(t, m) && FindCall(t, r) != m.requestId
    ensures NewestCall(t[m.id := m], r, FindCall(t, r))
  {
    var t1 := t[m.id := m];
    forall c | c in t1
      ensures CallCandidate(t1, r, c) <==> CallCandidate(t, r, c) && Some(c) != m.requestId
    {
      if Claimed(t, c) {
        var s :| s in t && t[s].requestId == Some(c);
        assert t1[s] == t[s];
      }
      assert t1[m.id] == m;
    }
  }

  lemma NewestIsUnique(t: Table, m: Message, a: Option<nat>, b: Option<nat>)
    requires NewestCall(t, m, a) && NewestCall(t, m, b)
    ensures a == b
  {
  }

  /**
   From `t` to `t'` a stored row changes only by being linked: an unlinked response to the newly stored CALL `n`
   of its key. Links themselves never change.
   */
  ghost predicate OnlyAddsLinks(t: Table, t': Table, n: Message) {
    forall i :: i in t ==>
      && i in t'
      && (t'[i] == t[i]
          || (IsAnswerTo(t[i], n) && t[i].requestId.None? && n.id in t' && t'[n.id] == n && LinkedTo(t'[i], t[i], n)))
  }

  lemma InsertOnlyAddsLinks(t: Table, m: Message)
    requires WellKeyed(t) && m.id !in t
    ensures OnlyAddsLinks(t, Inserted(t, m), m)
  {
  }

  // ---- serial runs ----

  /** The inserts of `log`, one after the other, into an empty table. */
  ghost function Serial(log: seq<Message>): (t: Table)
    ensures WellKeyed(t)
    ensures forall i :: 0 <= i < |log| ==> log[i].id in t
    ensures forall k :: k in t ==> exists i :: 0 <= i < |log| && log[i].id == k
  {
    if log == [] then map[]
    else
      var front, m := log[..|log| - 1], log[|log| - 1];
      assert log == front + [m];
      Inserted(Serial(front), m)
  }

  predicate DistinctIds(log: seq<Message>) {
    forall i, j :: 0 <= i < j < |log| ==> log[i].id != log[j].id
  }

  /** No two messages share an id and none brings its own link. */
  predicate CleanLog(log: seq<Message>) {
    DistinctIds(log) && forall i :: 0 <= i < |log| ==> log[i].requestId.None?
  }

  lemma LastIsFresh(log: seq<Message>)
    requires DistinctIds(log) && log != []
    ensures DistinctIds(log[..|log| - 1]) && log[|log| - 1].id !in Serial(log[..|log| - 1])
    ensures CleanLog(log) ==> CleanLog(log[..|log| - 1]) && Fresh(Serial(log[..|log| - 1]), log[|log| - 1])
  {
  }

  /** Every insert of the log is harmless. */
  ghost predicate HarmlessLog(log: seq<Message>) {
    log == [] || (HarmlessLog(log[..|log| - 1]) && Harmless(Serial(log[..|log| - 1]), log[|log| - 1]))
  }

  /** The table is paired after every insert of the log. */
  ghost predicate AlwaysPaired(log: seq<Message>) {
    Paired(Serial(log)) && (log == [] || AlwaysPaired(log[..|log| - 1]))
  }

  /** A serial run keeps the table paired throughout exactly if every insert is harmless. */
  lemma {:induction false} AlwaysPairedIffHarmless(log: seq<Message>)
    requires DistinctIds(log)
    ensures AlwaysPaired(log) <==> HarmlessLog(log)
  {
    if log != [] {
      var front, m := log[..|log| - 1], log[|log| - 1];
      LastIsFresh(log);
      AlwaysPairedIffHarmless(front);
      if AlwaysPaired(front) {
        InsertKeepsPaired(Serial(front), m);
      }
    }
  }

  lemma {:induction false} CleanIsHarmless(log: seq<Message>)
    requires CleanLog(log)
    ensures HarmlessLog(log)
  {
    if log != [] {
      LastIsFresh(log);
      CleanIsHarmless(log[..|log| - 1]);
    }
  }

  lemma SerialIsPaired(log: seq<Message>)
    requires CleanLog(log)
    ensures Paired(Serial(log))
  {
    CleanIsHarmless(log);
    AlwaysPairedIffHarmless(log);
  }

  /** The row of `m` is `m` itself, or an unlinked `m` linked to a CALL that is stored exactly as it was sent. */
  ghost predicate RowOf(t: Table, log: seq<Message>, m: Message) {
    && m.id in t
    && (t[m.id] == m
        || (m.requestId.None? && exists c :: c in log && IsAnswerTo(m, c) && c.id in t && t[c.id] == c && LinkedTo(t[m.id], m, c)))
  }

  /** Nothing is lost or invented: the table holds each sent message, changed only by the link rule. */
  lemma {:induction false} SerialRow(log: seq<Message>, m: Message)
    requires DistinctIds(log) && m in log
    ensures RowOf(Serial(log), log, m)
    decreases |log|
  {
    var front, n := log[..|log| - 1], log[|log| - 1];
    assert log == front + [n];
    LastIsFresh(log);
    InsertOnlyAddsLinks(Serial(front), n);
    if m in front {
      SerialRow(front, m);
      OldRow(Serial(front), Serial(log), front, n, m);
    } else {
      var partner := NewRow(Serial(front), n);
      if partner.Some? {
        var j :| 0 <= j < |front| && front[j].id == partner.value;
        SerialRow(front, front[j]);
        LinkedNewRow(Serial(front), Serial(log), front, n, front[j]);
      }
    }
  }

  lemma LinkedNewRow(t: Table, t': Table, log: seq<Message>, n: Message, c: Message)
    requires OnlyAddsLinks(t, t', n) && RowOf(t, log, c) && c in log && IsAnswerTo(n, t[c.id])
    requires n.requestId.None? && n.id in t' && LinkedTo(t'[n.id], n, t[c.id])
    ensures RowOf(t', log + [n], n)
  {
    assert t[c.id] == c && t'[c.id] == c;
    assert c in log + [n];
  }

  lemma OldRow(t: Table, t': Table, log: seq<Message>, n: Message, m: Message)
    requires OnlyAddsLinks(t, t', n) && RowOf(t, log, m)
    ensures RowOf(t', log + [n], m)
  {
    assert forall x :: x in log ==> x in log + [n];
    assert n in log + [n];
  }

  lemma NewRow(t: Table, n: Message) returns (partner: Option<nat>)
    requires WellKeyed(t) && n.id !in t
    ensures match partner
            case None => Inserted(t, n)[n.id] == n
            case Some(c) => && n.requestId.None? && c in t && t[c].id == c && IsAnswerTo(n, t[c])
                            && LinkedTo(Inserted(t, n)[n.id], n, t[c])
  {
    partner := if CorrelatesAsResponse(n) then FindCall(t, n) else None;
  }

  /** A key with one CALL and one response among the sent messages ends as one linked pair. */
  lemma LonePair(log: seq<Message>, c: Message, r: Message)
    requires CleanLog(log) && c in log && r in log && IsAnswerTo(r, c)
    requires NoOthers(log, c, r)
    ensures c.id in Serial(log) && Serial(log)[c.id] == c
    ensures r.id in Serial(log) && LinkedTo(Serial(log)[r.id], r, c)
  {
    SerialRow(log, c);
    SerialRow(log, r);
    var t := Serial(log);
    if t[r.id] == r {
      SerialIsPaired(log);
      AnswerSharesKey(r, c);
      assert !MissedPair(t, c.id, r.id);
      var s :| s in t && t[s].requestId == Some(c.id);
      ClaimantIsLone(log, c, r, s);
    } else {
      var d :| d in log && IsAnswerTo(r, d) && LinkedTo(t[r.id], r, d);
      assert SameColumns(d, c);
    }
  }

  /** The messages of the columns of `c` are `c` and `r` only. */
  predicate NoOthers(log: seq<Message>, c: Message, r: Message) {
    forall m :: m in log && SameColumns(m, c) ==> m == c || m == r
  }

  lemma AnswerSharesKey(m: Message, c: Message)
    requires IsAnswerTo(m, c)
    ensures IsCall(c) && IsResponse(m) && SameKey(c, m) && SameKey(m, c)
  {
  }

  lemma ClaimantIsLone(log: seq<Message>, c: Message, r: Message, s: nat)
    requires CleanLog(log) && c in log && RowOf(Serial(log), log, c) && c.kind == Some(2)
    requires NoOthers(log, c, r)
    requires s in Serial(log) && Serial(log)[s].requestId == Some(c.id)
    ensures s == r.id
  {
    var t := Serial(log);
    var k :| 0 <= k < |log| && log[k].id == s;
    SerialRow(log, log[k]);
    var d :| d in log && IsAnswerTo(log[k], d) && d.id in t && t[d.id] == d && LinkedTo(t[s], log[k], d);
    assert SameColumns(d, c) && SameColumns(log[k], c);
  }

  // ---- counting ----

  ghost function Calls(t: Table, k: Key): set<nat> { set c | c in t && HasKey(t[c], k) && IsCall(t[c]) }

  ghost function Responses(t: Table, k: Key): set<nat> { set r | r in t && HasKey(t[r], k) && IsResponse(t[r]) }

  ghost function Linked(t: Table, k: Key): set<nat> { set r | r in t && HasKey(t[r], k) && t[r].requestId.Some? }

  function Min(a: nat, b: nat): nat { if a < b then a else b }

  /** The CALLs a set of linked responses answers. */
  ghost function Answered(t: Table, rs: set<nat>): set<nat>
    requires forall r :: r in rs ==> r in t && t[r].requestId.Some?
  {
    set r | r in rs :: t[r].requestId.value
  }

  lemma {:induction false} AnsweredSize(t: Table, rs: set<nat>)
    requires LinksInjective(t)
    requires forall r :: r in rs ==> r in t && t[r].requestId.Some?
    ensures |Answered(t, rs)| == |rs|
  {
    if rs != {} {
      var r :| r in rs;
      AnsweredSize(t, rs - {r});
      assert Answered(t, rs) == Answered(t, rs - {r}) + {t[r].requestId.value};
      assert t[r].requestId.value !in Answered(t, rs - {r});
    }
  }

  lemma SubsetSize(a: set<nat>, b: set<nat>)
    requires a <= b
    ensures |a| <= |b|
    decreases b
  {
    if a != {} {
      var x :| x in a;
      SubsetSize(a - {x}, b - {x});
    }
  }

  /** As many links as the scarcer side allows: no pairing is missed and none is doubled. */
  lemma LinkCount(t: Table, k: Key)
    requires Paired(t)
    ensures |Linked(t, k)| == Min(|Calls(t, k)|, |Responses(t, k)|)
  {
    var linked, calls, responses := Linked(t, k), Calls(t, k), Responses(t, k);
    AnsweredSize(t, linked);
    assert linked <= responses;
    assert Answered(t, linked) <= calls;
    SubsetSize(linked, responses);
    SubsetSize(Answered(t, linked), calls);
    if linked != responses {
      var r :| r in responses && r !in linked;
      forall c | c in calls
        ensures c in Answered(t, linked)
      {
        assert !MissedPair(t, c, r);
        var s :| s in t && t[s].requestId == Some(c);
        assert s in linked;
      }
      assert Answered(t, linked) == calls;
    }
  }

  // ---- either order of one CALL and its response ----

  predicate Alone(t: Table, m: Message) {
    forall i :: i in t ==> !SameKey(t[i], m)
  }

  /** With one CALL and one response of a key, both arrival orders end in the same table. */
  lemma EitherOrder(t: Table, c: Message, r: Message)
    requires Paired(t) && Fresh(t, c) && Fresh(t, r) && c.id != r.id
    requires IsAnswerTo(r, c) && Alone(t, c)
    ensures var t' := Inserted(Inserted(t, c), r);
            t' == Inserted(Inserted(t, r), c) == t[c.id := c][r.id := t'[r.id]] && LinkedTo(t'[r.id], r, c)
  {
    AnswerSharesKey(r, c);
    CallThenResponse(t, c, r);
    ResponseThenCall(t, c, r);
    var row := Answering(r, c);
    assert LinkedTo(row, r, c);
    assert t + map[c.id := c, r.id := row] == t[c.id := c][r.id := row];
  }

  /** A lone message is stored as it was sent. */
  lemma LoneInsert(t: Table, m: Message)
    requires WellKeyed(t) && Fresh(t, m) && Alone(t, m)
    ensures Inserted(t, m) == t[m.id := m]
  {
  }

  lemma LoneCallIsFound(t: Table, c: Message, r: Message)
    requires Paired(t) && Fresh(t, c) && IsCall(c) && SameKey(c, r) && Alone(t, c)
    ensures FindCall(t[c.id := c], r) == Some(c.id)
  {
    var tc := t[c.id := c];
    assert CallCandidate(tc, r, c.id);
    assert forall x :: x in tc && CallCandidate(tc, r, x) ==> x == c.id;
  }

  lemma CallThenResponse(t: Table, c: Message, r: Message)
    requires Paired(t) && Fresh(t, c) && Fresh(t, r) && c.id != r.id
    requires IsCall(c) && IsResponse(r) && SameKey(c, r) && Alone(t, c)
    ensures Inserted(Inserted(t, c), r) == t + map[c.id := c, r.id := Answering(r, c)]
  {
    LoneInsert(t, c);
    LoneCallIsFound(t, c, r);
    assert Inserted(t[c.id := c], r) == t[c.id := c][r.id := Answering(r, c)];
  }

  lemma LoneResponseIsFound(t: Table, c: Message, r: Message)
    requires Paired(t) && Fresh(t, r) && c.id != r.id && IsResponse(r) && SameKey(c, r) && Alone(t, c)
    ensures FindResponse(t[r.id := r], c) == Some(r.id)
  {
    var tr := t[r.id := r];
    assert ResponseCandidate(tr, c, r.id);
    assert forall x :: x in tr && ResponseCandidate(tr, c, x) ==> x == r.id;
  }

  lemma ResponseThenCall(t: Table, c: Message, r: Message)
    requires Paired(t) && Fresh(t, c) && Fresh(t, r) && c.id != r.id
    requires IsCall(c) && IsResponse(r) && SameKey(c, r) && Alone(t, c)
    ensures Inserted(Inserted(t, r), c) == t + map[c.id := c, r.id := Answering(r, c)]
  {
    LoneInsert(t, r);
    LoneResponseIsFound(t, c, r);
    assert Inserted(t[r.id := r], c) == t[r.id := r] + map[c.id := c, r.id := Answering(r, c)];
  }

  // ---- which partner ----

  /** A response answers the CALL created last: an older CALL of a reused correlation id cannot swallow it. */
  lemma StaleCallDoesNotSwallow(t: Table, m: Message, stale: nat, recent: nat)
    requires WellKeyed(t) && Fresh(t, m) && CorrelatesAsResponse(m)
    requires CallCandidate(t, m, stale) && CallCandidate(t, m, recent)
    requires t[stale].createdAt < t[recent].createdAt || (t[stale].createdAt == t[recent].createdAt && stale < recent)
    ensures Inserted(t, m)[m.id].requestId.Some? && Inserted(t, m)[m.id].requestId != Some(stale)
    ensures var c := Inserted(t, m)[m.id].requestId.value;
            c == recent || t[recent].createdAt < t[c].createdAt || (t[recent].createdAt == t[c].createdAt && recent < c)
  {
    assert FindCall(t, m).Some?;
  }

  /** A CALL adopts the response that has waited longest and leaves the others waiting. */
  lemma LongestWaitingIsAdopted(t: Table, m: Message, first: nat, later: nat)
    requires WellKeyed(t) && Fresh(t, m) && CorrelatesAsCall(m)
    requires ResponseCandidate(t, m, first) && ResponseCandidate(t, m, later)
    requires t[first].createdAt < t[later].createdAt || (t[first].createdAt == t[later].createdAt && first < later)
    ensures Inserted(t, m)[later] == t[later]
    ensures exists r :: && r in t && ResponseCandidate(t, m, r) && LinkedTo(Inserted(t, m)[r], t[r], m)
                        && (r == first || t[r].createdAt < t[first].createdAt
                            || (t[r].createdAt == t[first].createdAt && r < first))
  {
    var r := FindResponse(t, m).value;
    assert ResponseCandidate(t, m, r) && LinkedTo(Inserted(t, m)[r], t[r], m);
  }

  // ---- the original trigger ----

  predicate WaitingResponse(t: Table, m: Message) {
    exists r :: r in t && ResponseCandidate(t, m, r)
  }

  /**
   With its foreign key deferred the original trigger stores the same table as the split ones, except for one
   kind of insert: a CALL that brings its own link while a response of its key waits. The original skips it,
   the split WHEN clause for CALLs does not look at the preset link.
   */
  lemma DeferredOriginalMatchesSplit(t: Table, m: Message)
    requires WellKeyed(t) && ForeignKeyHolds(t) && m.id !in t
    ensures OriginalInsert(t, m, true) == SplitInsert(t, m)
       <==> !(CorrelatesAsCall(m) && m.requestId.Some? && (m.requestId.value in t || m.requestId.value == m.id)
              && WaitingResponse(t, m))
  {
    InsertForeignKey(t, m);
    if OriginalDelta(t, m) != Delta(t, m) {
      var r := FindResponse(t, m).value;
      assert (t + OriginalDelta(t, m))[r] == t[r];
      assert Inserted(t, m)[r].requestId == Some(m.id);
      assert OriginalDelta(t, m) == map[m.id := m];
    }
  }

  lemma InsertForeignKey(t: Table, m: Message)
    requires WellKeyed(t) && ForeignKeyHolds(t) && m.id !in t
    ensures ForeignKeyHolds(Inserted(t, m))
       <==> (m.requestId.Some? ==> m.requestId.value in t || m.requestId.value == m.id)
    ensures ForeignKeyHolds(t + OriginalDelta(t, m))
       <==> (m.requestId.Some? ==> m.requestId.value in t || m.requestId.value == m.id)
  {
    var t', o := Inserted(t, m), t + OriginalDelta(t, m);
    assert t'.Keys == t.Keys + {m.id} && o.Keys == t.Keys + {m.id};
    if m.requestId.Some? {
      assert t'[m.id] == m && o[m.id] == m;
    }
  }

  /**
   With the foreign key checked per statement, the original trigger rejects a message without a link of its own
   exactly when it is a CALL whose response is already stored; the split triggers never reject one.
   */
  lemma ImmediateOriginalFailsExactly(t: Table, m: Message)
    requires WellKeyed(t) && ForeignKeyHolds(t) && Fresh(t, m)
    ensures OriginalInsert(t, m, false).None? <==> CorrelatesAsCall(m) && WaitingResponse(t, m)
    ensures SplitInsert(t, m).Some?
    ensures OriginalInsert(t, m, false).Some? ==> OriginalInsert(t, m, false) == SplitInsert(t, m)
  {
    InsertForeignKey(t, m);
    var early := t + (OriginalDelta(t, m) - {m.id});
    assert OriginalDelta(t, m) == Delta(t, m);
    if CorrelatesAsCall(m) && WaitingResponse(t, m) {
      var r := FindResponse(t, m).value;
      assert early[r].requestId == Some(m.id) && m.id !in early;
    } else {
      assert early == t;
    }
  }

  /** The original trigger, foreign key deferred, over a whole log; None once an insert is rejected. */
  ghost function OriginalSerial(log: seq<Message>): (t: Option<Table>)
    ensures t.Some? ==> WellKeyed(t.value)
  {
    if log == [] then Some(map[])
    else
      var before := OriginalSerial(log[..|log| - 1]);
      if before.None? then None
      else
        var after := OriginalInsert(before.value, log[|log| - 1], true);
        assert after.Some? ==> WellKeyed(after.value);
        after
  }

  /** The split triggers over a whole log; None once the foreign key rejects an insert. */
  ghost function SplitSerial(log: seq<Message>): (t: Option<Table>)
    ensures t.Some? ==> t.value == Serial(log)
  {
    if log == [] then Some(map[])
    else
      var before := SplitSerial(log[..|log| - 1]);
      if before.None? then None else SplitInsert(before.value, log[|log| - 1])
  }

  /** The insert on which the two versions differ: a CALL that brings its own link while a response waits for it. */
  predicate SkippedCall(t: Table, m: Message) {
    CorrelatesAsCall(m) && m.requestId.Some? && WaitingResponse(t, m)
  }

  ghost predicate SkipsSome(log: seq<Message>) {
    log != []
    && (SkipsSome(log[..|log| - 1]) || SkippedCall(Serial(log[..|log| - 1]), log[|log| - 1]))
  }

  /** A response that the split triggers linked and the original did not link to the same CALL. */
  ghost predicate Diverged(original: Table, split: Table) {
    exists r :: && r in original && r in split && split[r].requestId.Some? && split[r].requestId.value in split
                && original[r].requestId != split[r].requestId
  }

  lemma OriginalOnlyAddsLinks(t: Table, m: Message)
    requires WellKeyed(t) && m.id !in t
    ensures OnlyAddsLinks(t, t + OriginalDelta(t, m), m)
  {
  }

  /** Links are never rewritten, so what diverged stays so. */
  lemma DivergedForGood(original: Table, split: Table, m: Message)
    requires WellKeyed(original) && WellKeyed(split) && original.Keys == split.Keys && m.id !in split
    requires Diverged(original, split)
    ensures Diverged(original + OriginalDelta(original, m), Inserted(split, m))
  {
    var original', split' := original + OriginalDelta(original, m), Inserted(split, m);
    OriginalOnlyAddsLinks(original, m);
    InsertOnlyAddsLinks(split, m);
    var r :| && r in original && r in split && split[r].requestId.Some? && split[r].requestId.value in split
             && original[r].requestId != split[r].requestId;
    assert split'[r] == split[r];
    assert original'[r] == original[r] || original'[r].requestId == Some(m.id);
    assert original'[r].requestId != split'[r].requestId;
  }

  lemma SkipDiverges(t: Table, m: Message)
    requires WellKeyed(t) && m.id !in t && SkippedCall(t, m)
    ensures Diverged(t + OriginalDelta(t, m), Inserted(t, m))
  {
    var r := FindResponse(t, m).value;
    assert (t + OriginalDelta(t, m))[r] == t[r];
    assert Inserted(t, m)[r].requestId == Some(m.id);
  }

  /** What holds of the two tables after every log. */
  ghost predicate Compared(log: seq<Message>) {
    var o, s := OriginalSerial(log), SplitSerial(log);
    && (o.None? <==> s.None?)
    && (o.Some? ==>
          && o.value.Keys == s.value.Keys && ForeignKeyHolds(o.value) && ForeignKeyHolds(s.value)
          && (SkipsSome(log) ==> Diverged(o.value, s.value))
          && (!SkipsSome(log) ==> o == s))
  }

  lemma CompareInsert(original: Table, split: Table, m: Message)
    requires WellKeyed(original) && WellKeyed(split) && original.Keys == split.Keys && m.id !in split
    requires ForeignKeyHolds(original) && ForeignKeyHolds(split)
    ensures ForeignKeyHolds(original + OriginalDelta(original, m)) <==> ForeignKeyHolds(Inserted(split, m))
    ensures (original + OriginalDelta(original, m)).Keys == Inserted(split, m).Keys
  {
    InsertForeignKey(original, m);
    InsertForeignKey(split, m);
    OriginalKeys(original, m);
  }

  lemma OriginalKeys(t: Table, m: Message)
    requires WellKeyed(t)
    ensures (t + OriginalDelta(t, m)).Keys == t.Keys + {m.id}
  {
  }

  lemma {:induction false} CompareLogs(log: seq<Message>)
    requires DistinctIds(log)
    ensures Compared(log)
  {
    if log != [] {
      var front, m := log[..|log| - 1], log[|log| - 1];
      LastIsFresh(log);
      CompareLogs(front);
      if SplitSerial(front).Some? {
        var o, s := OriginalSerial(front).value, SplitSerial(front).value;
        CompareInsert(o, s, m);
        if SkipsSome(front) {
          DivergedForGood(o, s, m);
        } else if SkippedCall(s, m) {
          SkipDiverges(s, m);
        } else {
          DeferredOriginalMatchesSplit(s, m);
        }
      }
    }
  }

  /**
   Over every serial run the two versions reject the same logs, and they store the same table exactly if no CALL
   brought its own link while a response of its key waited.
   */
  lemma SplitComputesTheOriginal(log: seq<Message>)
    requires DistinctIds(log)
    ensures OriginalSerial(log).None? <==> SplitSerial(log).None?
    ensures SplitSerial(log).Some? ==> (OriginalSerial(log) == SplitSerial(log) <==> !SkipsSome(log))
  {
    CompareLogs(log);
  }

  /** In particular they agree, and reject nothing, when no message brings its own link. */
  lemma {:induction false} CleanLogsAgree(log: seq<Message>)
    requires CleanLog(log)
    ensures OriginalSerial(log) == Some(Serial(log))
  {
    if log != [] {
      var front, m := log[..|log| - 1], log[|log| - 1];
      LastIsFresh(log);
      CleanLogsAgree(front);
      CompareLogs(front);
      DeferredOriginalMatchesSplit(Serial(front), m);
      InsertForeignKey(Serial(front), m);
    }
  }
}
