/**
 Concurrent insert transactions on "OCPPMessages" as a step system. Every SQL statement of the triggers is one
 step, reading the committed rows overlaid with the transaction's own; steps of different transactions interleave
 freely and any transaction may abort. The advisory lock is taken on an arbitrary hash of the key.
 */
module CorrelationRuns {
  import opened Messages
  import opened Options
  import opened Correlation

  /** ocpp_lock_correlation_key's hash of the three key columns; it may collide. */
  type LockHash = (Option<int>, Option<string>, Option<string>) -> int

  function LockOf(h: LockHash, m: Message): int {
    h(m.tenantId, m.connection, m.correlationId)
  }

  /** Waiting for the lock, holding it, after the SELECT, and ready to commit. */
  datatype Phase = Waiting | Holding | Searched | Ready

  /** A transaction inserting `m`: its uncommitted rows and the row its SELECT returned. */
  datatype Txn = Txn(m: Message, own: Table, phase: Phase, found: Option<Message>)

  /** `txns` is keyed by the id of the inserted message; `log` records the committed messages in commit order. */
  datatype State = State(
    committed: Table,
    txns: map<nat, Txn>,
    holder: map<int, nat>,
    issued: set<nat>,
    ghost log: seq<Message>)

  predicate Correlates(m: Message) {
    CorrelatesAsResponse(m) || CorrelatesAsCall(m)
  }

  /** A response's trigger runs before its row exists, a CALL's after. */
  function FirstRows(m: Message): Table {
    if CorrelatesAsResponse(m) then map[] else map[m.id := m]
  }

  function Released(holder: map<int, nat>, i: nat): map<int, nat> {
    holder - (set k | k in holder && holder[k] == i)
  }

  function View(s: State, i: nat): Table
    requires i in s.txns
  {
    s.committed + s.txns[i].own
  }

  function IdOf(found: Option<Message>): Option<nat> {
    if found.Some? then Some(found.value.id) else None
  }

  ghost predicate Init(s: State) {
    s.committed == map[] && s.txns == map[] && s.holder == map[] && s.issued == {} && s.log == []
  }

  /** A fresh id is drawn from the sequence; ids are never drawn twice, not even after an abort. */
  ghost predicate Begin(s: State, s': State, m: Message) {
    && m.id !in s.issued && m.requestId.None?
    && s' == s.(
         issued := s.issued + {m.id},
         txns := s.txns[m.id := Txn(m, FirstRows(m), if Correlates(m) then Waiting else Ready, None)])
  }

  ghost predicate Lock(h: LockHash, s: State, s': State, i: nat) {
    && i in s.txns && s.txns[i].phase == Waiting
    && LockOf(h, s.txns[i].m) !in s.holder
    && s' == s.(
         holder := s.holder[LockOf(h, s.txns[i].m) := i],
         txns := s.txns[i := s.txns[i].(phase := Holding)])
  }

  ghost predicate Search(s: State, s': State, i: nat, found: Option<Message>) {
    && i in s.txns && s.txns[i].phase == Holding
    && (found.Some? ==> found.value.id in View(s, i) && View(s, i)[found.value.id] == found.value)
    && (if CorrelatesAsResponse(s.txns[i].m) then NewestCall(View(s, i), s.txns[i].m, IdOf(found))
        else OldestResponse(View(s, i), s.txns[i].m, IdOf(found)))
    && s' == s.(txns := s.txns[i := s.txns[i].(phase := Searched, found := found)])
  }

  /** A response stores NEW with what its SELECT returned; a CALL updates the row its SELECT returned. */
  function Written(s: State, i: nat): Table
    requires i in s.txns
  {
    var t := s.txns[i];
    if CorrelatesAsResponse(t.m) then
      t.own[t.m.id := if t.found.Some? then Answering(t.m, t.found.value) else t.m]
    else if t.found.Some? && t.found.value.id in View(s, i) then
      t.own[t.found.value.id := Answering(View(s, i)[t.found.value.id], t.m)]
    else t.own
  }

  ghost predicate Write(s: State, s': State, i: nat) {
    && i in s.txns && s.txns[i].phase == Searched
    && s' == s.(txns := s.txns[i := s.txns[i].(phase := Ready, own := Written(s, i))])
  }

  ghost predicate Commit(s: State, s': State, i: nat) {
    && i in s.txns && s.txns[i].phase == Ready
    && s' == s.(
         committed := s.committed + s.txns[i].own,
         txns := s.txns - {i},
         holder := Released(s.holder, i),
         log := s.log + [s.txns[i].m])
  }

  ghost predicate Abort(s: State, s': State, i: nat) {
    && i in s.txns
    && s' == s.(txns := s.txns - {i}, holder := Released(s.holder, i))
  }

  ghost predicate Next(h: LockHash, s: State, s': State) {
    || (exists m :: Begin(s, s', m))
    || (exists i :: Lock(h, s, s', i))
    || (exists i, found :: Search(s, s', i, found))
    || (exists i :: Write(s, s', i))
    || (exists i :: Commit(s, s', i))
    || (exists i :: Abort(s, s', i))
  }

  // ---- the inductive invariant ----

  ghost predicate Holds(h: LockHash, s: State, i: nat)
    requires i in s.txns
  {
    var k := LockOf(h, s.txns[i].m);
    k in s.holder && s.holder[k] == i
  }

  ghost predicate FoundInCommitted(t: Table, x: Txn)
    requires WellKeyed(t)
  {
    var found := if CorrelatesAsResponse(x.m) then FindCall(t, x.m) else FindResponse(t, x.m);
    IdOf(x.found) == found && (found.Some? ==> x.found.value == t[found.value])
  }

  /** What a transaction has done so far is what it would do if it ran alone on the committed rows, now. */
  ghost predicate TxnInv(h: LockHash, s: State, i: nat)
    requires i in s.txns && WellKeyed(s.committed)
  {
    var x := s.txns[i];
    && x.m.id == i && i !in s.committed && x.m.requestId.None?
    && (x.phase != Ready ==> Correlates(x.m) && x.own == FirstRows(x.m))
    && (x.phase != Waiting && Correlates(x.m) ==> Holds(h, s, i))
    && (x.phase == Searched ==> FoundInCommitted(s.committed, x))
    && (x.phase == Ready ==> x.own == Delta(s.committed, x.m))
  }

  ghost predicate TableInv(s: State) {
    && Paired(s.committed)
    && CleanLog(s.log) && s.committed == Serial(s.log)
    && s.committed.Keys <= s.issued && s.txns.Keys <= s.issued
  }

  ghost predicate Inv(h: LockHash, s: State) {
    && TableInv(s)
    && (forall i :: i in s.txns ==> TxnInv(h, s, i))
    && (forall k :: k in s.holder ==> s.holder[k] in s.txns && s.txns[s.holder[k]].phase != Waiting)
  }

  /** A transaction's part of the invariant rests on its own record, the committed rows and its lock alone. */
  lemma TxnInvFrame(h: LockHash, s: State, s': State, j: nat)
    requires j in s.txns && j in s'.txns && s'.txns[j] == s.txns[j] && WellKeyed(s.committed)
    requires s'.committed == s.committed && (Holds(h, s, j) ==> Holds(h, s', j)) && TxnInv(h, s, j)
    ensures TxnInv(h, s', j)
  {
  }

  /** A step of transaction `i` that touches neither the committed rows nor another transaction. */
  ghost predicate Moves(s: State, s': State, i: nat) {
    && i in s.txns && i in s'.txns && s'.txns.Keys == s.txns.Keys && s'.txns[i].phase != Waiting
    && (forall j :: j in s.txns && j != i ==> s'.txns[j] == s.txns[j])
    && s'.committed == s.committed && s'.issued == s.issued && s'.log == s.log
    && (forall k :: k in s.holder ==> k in s'.holder && s'.holder[k] == s.holder[k])
    && (forall k :: k in s'.holder && k !in s.holder ==> s'.holder[k] == i)
  }

  lemma MoveKeepsInv(h: LockHash, s: State, s': State, i: nat)
    requires Inv(h, s) && Moves(s, s', i) && TxnInv(h, s', i)
    ensures Inv(h, s')
  {
    forall j | j in s'.txns
      ensures TxnInv(h, s', j)
    {
      if j != i { TxnInvFrame(h, s, s', j); }
    }
  }

  lemma BeginKeepsInv(h: LockHash, s: State, s': State, m: Message)
    requires Inv(h, s) && Begin(s, s', m)
    ensures Inv(h, s')
  {
    forall i | i in s'.txns
      ensures TxnInv(h, s', i)
    {
      if i != m.id { TxnInvFrame(h, s, s', i); }
    }
  }

  lemma LockKeepsInv(h: LockHash, s: State, s': State, i: nat)
    requires Inv(h, s) && Lock(h, s, s', i)
    ensures Inv(h, s')
  {
    assert TxnInv(h, s, i);
    MoveKeepsInv(h, s, s', i);
  }

  /** The row a CALL just inserted is no response, so its SELECT sees the committed candidates only. */
  lemma ViewIsCommitted(t: Table, m: Message, found: Option<nat>)
    requires WellKeyed(t) && m.id !in t && IsCall(m)
    requires OldestResponse(t + map[m.id := m], m, found)
    ensures OldestResponse(t, m, found)
  {
    var v := t + map[m.id := m];
    forall r | r in t
      ensures ResponseCandidate(v, m, r) <==> ResponseCandidate(t, m, r)
    {
    }
  }

  lemma UniqueCall(t: Table, m: Message, a: Option<nat>, b: Option<nat>)
    requires NewestCall(t, m, a) && NewestCall(t, m, b)
    ensures a == b
  {
  }

  lemma UniqueResponse(t: Table, m: Message, a: Option<nat>, b: Option<nat>)
    requires OldestResponse(t, m, a) && OldestResponse(t, m, b)
    ensures a == b
  {
  }

  lemma SearchFinds(t: Table, x: Txn, found: Option<Message>)
    requires WellKeyed(t) && x.m.id !in t && Correlates(x.m) && x.own == FirstRows(x.m) && x.found == found
    requires found.Some? ==> found.value.id in t + x.own && (t + x.own)[found.value.id] == found.value
    requires if CorrelatesAsResponse(x.m) then NewestCall(t + x.own, x.m, IdOf(found))
             else OldestResponse(t + x.own, x.m, IdOf(found))
    ensures FoundInCommitted(t, x)
  {
    if CorrelatesAsResponse(x.m) {
      assert t + x.own == t;
      UniqueCall(t, x.m, IdOf(found), FindCall(t, x.m));
    } else {
      ViewIsCommitted(t, x.m, IdOf(found));
      UniqueResponse(t, x.m, IdOf(found), FindResponse(t, x.m));
    }
  }

  lemma SearchKeepsOwn(h: LockHash, s: State, s': State, i: nat, found: Option<Message>)
    requires i in s.txns && WellKeyed(s.committed) && TxnInv(h, s, i) && Search(s, s', i, found)
    ensures TxnInv(h, s', i)
  {
    SearchFinds(s.committed, s'.txns[i], found);
  }

  lemma SearchKeepsInv(h: LockHash, s: State, s': State, i: nat, found: Option<Message>)
    requires Inv(h, s) && Search(s, s', i, found)
    ensures Inv(h, s')
  {
    SearchKeepsOwn(h, s, s', i, found);
    MoveKeepsInv(h, s, s', i);
  }

  lemma WriteIsDelta(t: Table, x: Txn, s: State)
    requires WellKeyed(t) && x.m.id !in t && Correlates(x.m) && x.own == FirstRows(x.m)
    requires FoundInCommitted(t, x) && s.committed == t && x.m.id in s.txns && s.txns[x.m.id] == x
    ensures Written(s, x.m.id) == Delta(t, x.m)
  {
  }

  lemma WriteKeepsInv(h: LockHash, s: State, s': State, i: nat)
    requires Inv(h, s) && Write(s, s', i)
    ensures Inv(h, s')
  {
    assert TxnInv(h, s, i);
    WriteIsDelta(s.committed, s.txns[i], s);
    MoveKeepsInv(h, s, s', i);
  }

  lemma AbortKeepsInv(h: LockHash, s: State, s': State, i: nat)
    requires Inv(h, s) && Abort(s, s', i)
    ensures Inv(h, s')
  {
    forall j | j in s'.txns
      ensures TxnInv(h, s', j)
    {
      TxnInvFrame(h, s, s', j);
    }
  }

  /** An insert under another key changes neither the candidates of `m` nor the rows they are in. */
  lemma OtherKeysDoNotMatter(t: Table, m: Message, n: Message)
    requires Paired(t) && Fresh(t, m) && Fresh(t, n) && m.id != n.id
    requires Correlates(m) && !(Correlates(n) && SameKey(m, n))
    ensures var t' := Inserted(t, n);
            forall x :: x in t' ==>
              && (CallCandidate(t', m, x) <==> x in t && CallCandidate(t, m, x) && t'[x] == t[x])
              && (ResponseCandidate(t', m, x) <==> x in t && ResponseCandidate(t, m, x) && t'[x] == t[x])
    ensures forall x :: x in t && (CallCandidate(t, m, x) || ResponseCandidate(t, m, x)) ==> Inserted(t, n)[x] == t[x]
  {
    var t' := Inserted(t, n);
    forall x | x in t && SameKey(t[x], m)
      ensures t'[x] == t[x] && (IsCall(t[x]) ==> (Claimed(t', x) <==> Claimed(t, x)))
    {
      InsertOnlyAddsLinks(t, n);
      if Claimed(t, x) { ClaimsGrow(t, n, x); }
    }
  }

  lemma OtherKeysSameSearch(t: Table, m: Message, n: Message)
    requires Paired(t) && Fresh(t, m) && Fresh(t, n) && m.id != n.id
    requires Correlates(m) && !(Correlates(n) && SameKey(m, n))
    ensures FindCall(Inserted(t, n), m) == FindCall(t, m)
    ensures FindResponse(Inserted(t, n), m) == FindResponse(t, m)
    ensures FindCall(t, m).Some? ==> Inserted(t, n)[FindCall(t, m).value] == t[FindCall(t, m).value]
    ensures FindResponse(t, m).Some? ==> Inserted(t, n)[FindResponse(t, m).value] == t[FindResponse(t, m).value]
  {
    OtherKeysDoNotMatter(t, m, n);
    var t' := Inserted(t, n);
    assert NewestCall(t', m, FindCall(t, m));
    UniqueCall(t', m, FindCall(t', m), FindCall(t, m));
    assert OldestResponse(t', m, FindResponse(t, m));
    UniqueResponse(t', m, FindResponse(t', m), FindResponse(t, m));
  }

  /** The same key means the same lock, and a lock has one holder. */
  lemma NoTwoHoldersOfAKey(h: LockHash, s: State, i: nat, j: nat)
    requires i in s.txns && j in s.txns && i != j && Holds(h, s, i) && Holds(h, s, j)
    ensures !SameKey(s.txns[i].m, s.txns[j].m)
  {
  }

  lemma LogStaysClean(log: seq<Message>, m: Message)
    requires CleanLog(log) && m.requestId.None? && forall k :: 0 <= k < |log| ==> log[k].id != m.id
    ensures CleanLog(log + [m])
  {
  }

  lemma SerialSnoc(log: seq<Message>, m: Message)
    ensures Serial(log + [m]) == Inserted(Serial(log), m)
  {
    assert (log + [m])[..|log|] == log;
  }

  /** A commit does to the committed table exactly what the trigger does when it runs alone. */
  lemma CommitIsSerial(h: LockHash, s: State, s': State, i: nat)
    requires Inv(h, s) && Commit(s, s', i)
    ensures s'.committed == Inserted(s.committed, s.txns[i].m) == Serial(s'.log)
    ensures TableInv(s')
  {
    assert TxnInv(h, s, i);
    InsertKeepsPaired(s.committed, s.txns[i].m);
    assert forall k :: 0 <= k < |s.log| ==> s.log[k].id in s.committed;
    LogStaysClean(s.log, s.txns[i].m);
    SerialSnoc(s.log, s.txns[i].m);
  }

  lemma OtherCommit(t: Table, x: Txn, n: Message)
    requires Paired(t) && Fresh(t, x.m) && Fresh(t, n) && x.m.id != n.id
    requires Correlates(x.m) && !(Correlates(n) && SameKey(x.m, n))
    ensures FoundInCommitted(t, x) ==> FoundInCommitted(Inserted(t, n), x)
    ensures Delta(Inserted(t, n), x.m) == Delta(t, x.m)
  {
    OtherKeysSameSearch(t, x.m, n);
  }

  lemma CommitKeepsOthers(h: LockHash, s: State, s': State, i: nat, j: nat)
    requires i in s.txns && j in s.txns && i != j && Paired(s.committed) && TxnInv(h, s, i) && TxnInv(h, s, j)
    requires s.txns[i].phase == Ready && s'.committed == Inserted(s.committed, s.txns[i].m)
    requires j in s'.txns && s'.txns[j] == s.txns[j] && s'.holder == Released(s.holder, i)
    ensures TxnInv(h, s', j)
  {
    if s.txns[j].phase != Waiting && Correlates(s.txns[j].m) {
      if Correlates(s.txns[i].m) { NoTwoHoldersOfAKey(h, s, i, j); }
      OtherCommit(s.committed, s.txns[j], s.txns[i].m);
    }
  }

  lemma CommitKeepsInv(h: LockHash, s: State, s': State, i: nat)
    requires Inv(h, s) && Commit(s, s', i)
    ensures Inv(h, s')
  {
    CommitIsSerial(h, s, s', i);
    assert TxnInv(h, s, i);
    forall j | j in s'.txns
      ensures TxnInv(h, s', j)
    {
      CommitKeepsOthers(h, s, s', i, j);
    }
  }

  lemma NextKeepsInv(h: LockHash, s: State, s': State)
    requires Inv(h, s) && Next(h, s, s')
    ensures Inv(h, s')
  {
    if m :| Begin(s, s', m) {
      BeginKeepsInv(h, s, s', m);
    } else if i :| Lock(h, s, s', i) {
      LockKeepsInv(h, s, s', i);
    } else if i, found :| Search(s, s', i, found) {
      SearchKeepsInv(h, s, s', i, found);
    } else if i :| Write(s, s', i) {
      WriteKeepsInv(h, s, s', i);
    } else if i :| Commit(s, s', i) {
      CommitKeepsInv(h, s, s', i);
    } else {
      var i :| Abort(s, s', i);
      AbortKeepsInv(h, s, s', i);
    }
  }

  // ---- what holds in every reachable state ----

  ghost predicate Run(h: LockHash, run: seq<State>) {
    && run != [] && Init(run[0])
    && forall n :: 0 <= n < |run| - 1 ==> StepAt(h, run, n)
  }

  ghost predicate StepAt(h: LockHash, run: seq<State>, n: nat)
    requires n + 1 < |run|
  {
    Next(h, run[n], run[n + 1])
  }

  lemma {:induction false} ReachableInv(h: LockHash, run: seq<State>, n: nat)
    requires Run(h, run) && n < |run|
    ensures Inv(h, run[n])
  {
    if n > 0 {
      ReachableInv(h, run, n - 1);
      assert StepAt(h, run, n - 1);
      NextKeepsInv(h, run[n - 1], run[n]);
    }
  }

  /**
   Whatever the interleaving, the lock collisions and the aborts: the committed table is the one the committed
   messages would leave if they were inserted one after the other in commit order.
   */
  lemma Serializable(h: LockHash, run: seq<State>, n: nat)
    requires Run(h, run) && n < |run|
    ensures run[n].committed == Serial(run[n].log) && CleanLog(run[n].log)
  {
    ReachableInv(h, run, n);
  }

  /** No interleaving commits, for one key, both an unclaimed CALL and an unlinked response. */
  lemma NoInterleavingMissesAPair(h: LockHash, run: seq<State>, n: nat, c: nat, r: nat)
    requires Run(h, run) && n < |run| && c in run[n].committed && r in run[n].committed
    requires IsAnswerTo(run[n].committed[r], run[n].committed[c]) && run[n].committed[r].requestId.None?
    ensures exists s :: s in run[n].committed && run[n].committed[s].requestId == Some(c)
  {
    ReachableInv(h, run, n);
    AnswerSharesKey(run[n].committed[r], run[n].committed[c]);
    assert !MissedPair(run[n].committed, c, r);
  }

  /** Every interleaving links, per key, as many responses as there are CALLs to link or responses to be linked. */
  lemma EveryInterleavingLinksAll(h: LockHash, run: seq<State>, n: nat, k: Key)
    requires Run(h, run) && n < |run|
    ensures var t := run[n].committed;
            LinksTyped(t) && LinksInjective(t) && |Linked(t, k)| == Min(|Calls(t, k)|, |Responses(t, k)|)
  {
    ReachableInv(h, run, n);
    LinkCount(run[n].committed, k);
  }

  /** Committed rows stay, and a committed link is never rewritten. */
  ghost predicate KeepsLinks(t: Table, t': Table) {
    forall i :: i in t ==>
      && i in t'
      && t'[i] == t[i].(requestId := t'[i].requestId, action := t'[i].action)
      && (t[i].requestId.Some? ==> t'[i] == t[i])
      && (t[i].action.Some? ==> t'[i].action == t[i].action)
  }

  lemma CommitKeepsLinks(h: LockHash, s: State, s': State, i: nat)
    requires Inv(h, s) && Commit(s, s', i)
    ensures KeepsLinks(s.committed, s'.committed)
  {
    assert TxnInv(h, s, i);
    CommitIsSerial(h, s, s', i);
    InsertOnlyAddsLinks(s.committed, s.txns[i].m);
    AddedLinksAreKept(s.committed, s'.committed, s.txns[i].m);
  }

  lemma AddedLinksAreKept(t: Table, t': Table, n: Message)
    requires OnlyAddsLinks(t, t', n)
    ensures KeepsLinks(t, t')
  {
  }

  lemma NextKeepsLinks(h: LockHash, s: State, s': State)
    requires Inv(h, s) && Next(h, s, s')
    ensures KeepsLinks(s.committed, s'.committed)
  {
    if i :| Commit(s, s', i) {
      CommitKeepsLinks(h, s, s', i);
    } else {
      assert s'.committed == s.committed;
    }
  }

  lemma {:induction false} LinksAreForever(h: LockHash, run: seq<State>, a: nat, b: nat)
    requires Run(h, run) && a <= b < |run|
    ensures KeepsLinks(run[a].committed, run[b].committed)
    decreases b
  {
    if a < b {
      LinksAreForever(h, run, a, b - 1);
      RunKeepsLinks(h, run, b - 1);
      KeepsLinksTransitive(run[a].committed, run[b - 1].committed, run[b].committed);
    }
  }

  lemma RunKeepsLinks(h: LockHash, run: seq<State>, n: nat)
    requires Run(h, run) && n + 1 < |run|
    ensures KeepsLinks(run[n].committed, run[n + 1].committed)
  {
    ReachableInv(h, run, n);
    assert StepAt(h, run, n);
    NextKeepsLinks(h, run[n], run[n + 1]);
  }

  lemma KeepsLinksTransitive(t: Table, u: Table, v: Table)
    requires KeepsLinks(t, u) && KeepsLinks(u, v)
    ensures KeepsLinks(t, v)
  {
    forall i | i in t
      ensures && i in v
              && v[i] == t[i].(requestId := v[i].requestId, action := v[i].action)
              && (t[i].requestId.Some? ==> v[i] == t[i])
              && (t[i].action.Some? ==> v[i].action == t[i].action)
    {
      assert i in u;
    }
  }

  /** Committed rows are the sent messages; a link adds the CALL's id, and its action where the response had none. */
  lemma CommittedRow(h: LockHash, run: seq<State>, n: nat, m: Message)
    requires Run(h, run) && n < |run| && m in run[n].log
    ensures RowOf(run[n].committed, run[n].log, m)
  {
    ReachableInv(h, run, n);
    SerialRow(run[n].log, m);
  }

  /** One CALL and one response of a key end as one linked pair, whichever was inserted or committed first. */
  lemma LoneExchange(h: LockHash, run: seq<State>, n: nat, c: Message, r: Message)
    requires Run(h, run) && n < |run| && c in run[n].log && r in run[n].log
    requires IsAnswerTo(r, c)
    requires NoOthers(run[n].log, c, r)
    ensures c.id in run[n].committed && run[n].committed[c.id] == c
    ensures r.id in run[n].committed && LinkedTo(run[n].committed[r.id], r, c)
  {
    ReachableInv(h, run, n);
    LonePair(run[n].log, c, r);
  }

  // ---- progress ----

  ghost predicate CanAdvance(h: LockHash, s: State, i: nat) {
    || (exists s' :: Lock(h, s, s', i))
    || (exists s', found :: Search(s, s', i, found))
    || (exists s' :: Write(s, s', i))
    || (exists s' :: Commit(s, s', i))
  }

  /** The lock never deadlocks: while a transaction is in flight, one of them can take its next step. */
  lemma SomeoneCanAdvance(h: LockHash, run: seq<State>, n: nat)
    requires Run(h, run) && n < |run| && run[n].txns != map[]
    ensures exists i :: i in run[n].txns && CanAdvance(h, run[n], i)
  {
    var s := run[n];
    ReachableInv(h, run, n);
    var i :| i in s.txns;
    var k := LockOf(h, s.txns[i].m);
    if s.txns[i].phase != Waiting {
      PastTheLock(h, s, i);
    } else if k in s.holder {
      PastTheLock(h, s, s.holder[k]);
    } else {
      var s' := s.(holder := s.holder[k := i], txns := s.txns[i := s.txns[i].(phase := Holding)]);
      assert Lock(h, s, s', i);
      assert CanAdvance(h, s, i);
    }
  }

  lemma PastTheLock(h: LockHash, s: State, i: nat)
    requires Inv(h, s) && i in s.txns && s.txns[i].phase != Waiting
    ensures CanAdvance(h, s, i)
  {
    assert TxnInv(h, s, i);
    var x := s.txns[i];
    match x.phase
    case Holding =>
      CanSearch(s, i);
    case Searched =>
      var s' := s.(txns := s.txns[i := x.(phase := Ready, own := Written(s, i))]);
      assert Write(s, s', i);
    case Ready =>
      var s' := s.(committed := s.committed + x.own, txns := s.txns - {i},
                   holder := Released(s.holder, i), log := s.log + [x.m]);
      assert Commit(s, s', i);
  }

  lemma CanSearch(s: State, i: nat)
    requires WellKeyed(s.committed) && i in s.txns && s.txns[i].phase == Holding
    requires s.txns[i].own == FirstRows(s.txns[i].m)
    ensures exists s', found :: Search(s, s', i, found)
  {
    var x, v := s.txns[i], View(s, i);
    var id := if CorrelatesAsResponse(x.m) then FindCall(v, x.m) else FindResponse(v, x.m);
    var found := if id.Some? then Some(v[id.value]) else None;
    var s' := s.(txns := s.txns[i := x.(phase := Searched, found := found)]);
    assert Search(s, s', i, found);
  }

  // ---- every serial run is a run ----

  /** At any moment any new message may be inserted and any transaction may fail. */
  lemma NothingIsForced(s: State, m: Message, i: nat)
    ensures m.id !in s.issued && m.requestId.None? ==> exists s' :: Begin(s, s', m)
    ensures i in s.txns ==> exists s' :: Abort(s, s', i) && s'.txns == s.txns - {i} && s'.committed == s.committed
  {
    var begun := s.(
      issued := s.issued + {m.id},
      txns := s.txns[m.id := Txn(m, FirstRows(m), if Correlates(m) then Waiting else Ready, None)]);
    assert m.id !in s.issued && m.requestId.None? ==> Begin(s, begun, m);
    var aborted := s.(txns := s.txns - {i}, holder := Released(s.holder, i));
    assert i in s.txns ==> Abort(s, aborted, i);
  }

  lemma Extend(h: LockHash, run: seq<State>, s': State)
    requires Run(h, run) && Next(h, run[|run| - 1], s')
    ensures Run(h, run + [s'])
  {
    var longer := run + [s'];
    forall n | 0 <= n < |longer| - 1
      ensures StepAt(h, longer, n)
    {
      if n < |run| - 1 { assert StepAt(h, run, n); }
    }
  }

  /** No transaction is in flight. */
  predicate Quiet(s: State) {
    s.txns == map[] && s.holder == map[]
  }

  /** The search of a lone transaction comes to what the trigger finds. */
  lemma LoneSearch(s: State, i: nat) returns (s': State, found: Option<Message>)
    requires i in s.txns && s.txns[i].phase == Holding && WellKeyed(View(s, i))
    ensures Search(s, s', i, found) && s'.txns == s.txns[i := s'.txns[i]] && s'.txns[i].phase == Searched
    ensures s'.txns[i].m == s.txns[i].m && s' == s.(txns := s'.txns)
  {
    var m, view := s.txns[i].m, View(s, i);
    var id := if CorrelatesAsResponse(m) then FindCall(view, m) else FindResponse(view, m);
    found := if id.Some? then Some(view[id.value]) else None;
    assert IdOf(found) == id;
    s' := s.(txns := s.txns[i := s.txns[i].(phase := Searched, found := found)]);
  }

  /** Lock, search and write of a transaction that is alone. */
  lemma LoneCorrelation(h: LockHash, run: seq<State>, i: nat) returns (longer: seq<State>)
    requires Run(h, run)
    requires var s := run[|run| - 1];
             i in s.txns && s.txns[i].phase == Waiting && s.txns.Keys == {i} && s.holder == map[] && WellKeyed(View(s, i))
    ensures Run(h, longer)
    ensures var s, s' := run[|run| - 1], longer[|longer| - 1];
            && s'.txns.Keys == {i} && s'.txns[i].phase == Ready && s'.txns[i].m == s.txns[i].m
            && s'.log == s.log && s'.issued == s.issued
            && forall k :: k in s'.holder ==> s'.holder[k] == i
  {
    var s1 := run[|run| - 1];
    var k := LockOf(h, s1.txns[i].m);
    var s2 := s1.(holder := s1.holder[k := i], txns := s1.txns[i := s1.txns[i].(phase := Holding)]);
    assert Lock(h, s1, s2, i);
    Extend(h, run, s2);
    assert View(s2, i) == View(s1, i);
    var s3, found := LoneSearch(s2, i);
    Extend(h, run + [s2], s3);
    var s4 := s3.(txns := s3.txns[i := s3.txns[i].(phase := Ready, own := Written(s3, i))]);
    assert Write(s3, s4, i);
    Extend(h, run + [s2] + [s3], s4);
    longer := run + [s2] + [s3] + [s4];
  }

  /** One transaction, from its first step to its commit, with nothing else going on. */
  lemma LoneTransaction(h: LockHash, run: seq<State>, m: Message) returns (longer: seq<State>)
    requires Run(h, run) && Quiet(run[|run| - 1])
    requires m.id !in run[|run| - 1].issued && m.requestId.None?
    ensures Run(h, longer) && Quiet(longer[|longer| - 1])
    ensures longer[|longer| - 1].log == run[|run| - 1].log + [m]
    ensures longer[|longer| - 1].issued == run[|run| - 1].issued + {m.id}
  {
    var s, i := run[|run| - 1], m.id;
    ReachableInv(h, run, |run| - 1);
    var s1 := s.(issued := s.issued + {i},
                 txns := s.txns[i := Txn(m, FirstRows(m), if Correlates(m) then Waiting else Ready, None)]);
    assert Begin(s, s1, m);
    Extend(h, run, s1);
    longer := run + [s1];
    if Correlates(m) {
      longer := LoneCorrelation(h, longer, i);
    }
    longer := LoneCommit(h, longer, i);
  }

  lemma LoneCommit(h: LockHash, run: seq<State>, i: nat) returns (longer: seq<State>)
    requires Run(h, run)
    requires var s := run[|run| - 1];
             s.txns.Keys == {i} && s.txns[i].phase == Ready && forall k :: k in s.holder ==> s.holder[k] == i
    ensures Run(h, longer) && Quiet(longer[|longer| - 1])
    ensures longer[|longer| - 1].log == run[|run| - 1].log + [run[|run| - 1].txns[i].m]
    ensures longer[|longer| - 1].issued == run[|run| - 1].issued
  {
    var s := run[|run| - 1];
    var end := s.(
      committed := s.committed + s.txns[i].own,
      txns := s.txns - {i},
      holder := Released(s.holder, i),
      log := s.log + [s.txns[i].m]);
    assert Commit(s, end, i);
    Extend(h, run, end);
    longer := run + [end];
    var mine := set k | k in s.holder && s.holder[k] == i;
    assert forall k :: k in s.holder ==> s.holder[k] == i && k in mine;
    assert mine == s.holder.Keys && end.holder == s.holder - mine;
    assert end.txns.Keys == {} && end.holder.Keys == {};
  }

  ghost predicate IssuedFrom(s: State, log: seq<Message>) {
    forall i :: i in s.issued ==> HasId(log, i)
  }

  predicate HasId(log: seq<Message>, i: nat) {
    exists k :: 0 <= k < |log| && log[k].id == i
  }

  /** The steps leave no order out: any messages, inserted one after the other, are the log of some run. */
  lemma {:induction false} EverySerialRunIsARun(h: LockHash, log: seq<Message>) returns (run: seq<State>)
    requires CleanLog(log)
    ensures Run(h, run) && Quiet(run[|run| - 1]) && run[|run| - 1].log == log
    ensures IssuedFrom(run[|run| - 1], log)
  {
    if log == [] {
      run := [State(map[], map[], map[], {}, [])];
    } else {
      var front, m := log[..|log| - 1], log[|log| - 1];
      assert log == front + [m];
      var before := EverySerialRunIsARun(h, front);
      FreshForLog(before[|before| - 1], front, m);
      run := LoneTransaction(h, before, m);
    }
  }

  lemma FreshForLog(s: State, front: seq<Message>, m: Message)
    requires CleanLog(front + [m]) && IssuedFrom(s, front)
    ensures m.id !in s.issued && m.requestId.None?
    ensures forall s': State :: s'.issued == s.issued + {m.id} ==> IssuedFrom(s', front + [m])
  {
    var log := front + [m];
    assert log[|front|] == m;
    assert forall k :: 0 <= k < |front| ==> log[k] == front[k];
    forall i | HasId(front, i)
      ensures HasId(log, i) && i != m.id
    {
      var k :| 0 <= k < |front| && front[k].id == i;
      assert log[k].id == i;
    }
    assert HasId(log, m.id);
  }
}
