/**
 What every run of the recorder keeps, and what each wait and query may return.
 */
module RecorderLaws {
  import opened Json
  import opened Options
  import opened Recorder

  // ---- the invariant ----

  /** The buffer is the last RING_CAP exchanges accepted since the reset, or all of them while they fit. */
  ghost predicate Windowed(s: Store) {
    IsWindow(s.buffer, s.accepted)
  }

  ghost predicate IsWindow<T>(b: seq<T>, accepted: seq<T>) {
    && |b| == (if |accepted| <= 10_000 then |accepted| else 10_000)
    && b == accepted[|accepted| - |b|..]
  }

  /** The index holds exactly the buffered exchanges, each under its own id. */
  ghost predicate Indexed(s: Store) {
    IndexOf(s.buffer, s.index)
  }

  ghost predicate IndexOf(b: seq<Exchange>, ix: map<string, Exchange>) {
    && (forall i, j :: 0 <= i < j < |b| ==> b[i].id != b[j].id)
    && (forall e :: e in b ==> e.id in ix && ix[e.id] == e)
    && (forall id :: id in ix ==> ix[id] in b && ix[id].id == id)
  }

  /** No lost wakeup: nothing buffered matches a waiter that is still registered. */
  ghost predicate NoLostWakeup(m: Matcher, s: Store) {
    forall w, e :: w in s.waiters && e in s.buffer ==> !m(e, w.filter)
  }

  ghost predicate DistinctTickets(ws: seq<Waiter>) {
    forall i, j :: 0 <= i < j < |ws| ==> ws[i].ticket != ws[j].ticket
  }

  /** Every ticket handed out is either pending or settled, never both. */
  ghost predicate Ticketed(s: Store) {
    && DistinctTickets(s.waiters)
    && (forall w :: w in s.waiters ==> w.ticket < s.tickets && w.ticket !in s.outcomes)
    && (forall t :: t in s.outcomes ==> t < s.tickets)
    && (forall t: nat :: t < s.tickets ==> t in s.outcomes || Pending(s, t))
  }

  ghost predicate Inv(m: Matcher, s: Store) {
    Windowed(s) && Indexed(s) && NoLostWakeup(m, s) && Ticketed(s)
  }

  // ---- the filter, criterion by criterion ----

  /** The filter without a criterion. */
  const ANYTHING: Filter :=
    Filter(None, None, None, None, None, None, None, None, None, None, None, Undefined, None, None)

  /** Each criterion decides by itself, and an exchange must pass all of them. */
  lemma CriteriaCombine(lib: Library, x: Exchange, f: Filter)
    ensures MatchesFilter(lib, x, f)
       <==> && MatchesFilter(lib, x, ANYTHING.(direction := f.direction))
            && MatchesFilter(lib, x, ANYTHING.(origin := f.origin))
            && MatchesFilter(lib, x, ANYTHING.(operation := f.operation))
            && MatchesFilter(lib, x, ANYTHING.(verb := f.verb))
            && MatchesFilter(lib, x, ANYTHING.(minSeq := f.minSeq))
            && MatchesFilter(lib, x, ANYTHING.(httpStatus := f.httpStatus))
            && MatchesFilter(lib, x, ANYTHING.(ocpiStatusCode := f.ocpiStatusCode))
            && MatchesFilter(lib, x, ANYTHING.(validationOk := f.validationOk))
            && MatchesFilter(lib, x, ANYTHING.(pathMatches := f.pathMatches))
            && MatchesFilter(lib, x, ANYTHING.(from := f.from))
            && MatchesFilter(lib, x, ANYTHING.(to := f.to))
            && MatchesFilter(lib, x, ANYTHING.(bodyMatch := f.bodyMatch))
  {
  }

  /** The criteria on the exchange's own columns; an empty string asks for nothing. */
  lemma ColumnCriteria(lib: Library, x: Exchange, text: string, n: int, ok: bool)
    ensures MatchesFilter(lib, x, ANYTHING)
    ensures MatchesFilter(lib, x, ANYTHING.(direction := Some(text))) <==> text == "" || x.direction == text
    ensures MatchesFilter(lib, x, ANYTHING.(origin := Some(text))) <==> text == "" || x.origin == text
    ensures MatchesFilter(lib, x, ANYTHING.(operation := Some(text))) <==> text == "" || x.operation == text
    ensures MatchesFilter(lib, x, ANYTHING.(verb := Some(text))) <==> text == "" || lib.upper(x.verb) == lib.upper(text)
    ensures MatchesFilter(lib, x, ANYTHING.(minSeq := Some(n))) <==> n <= x.seqNo
    ensures MatchesFilter(lib, x, ANYTHING.(httpStatus := Some(n))) <==> x.httpStatus == n
    ensures MatchesFilter(lib, x, ANYTHING.(ocpiStatusCode := Some(n))) <==> x.ocpiStatusCode == Some(n)
    ensures MatchesFilter(lib, x, ANYTHING.(validationOk := Some(ok))) <==> x.validationOk == ok
  {
  }

  /** A party must agree in each part that is asked for; without a party nothing that is asked for agrees. */
  predicate PartyAsked(party: Option<Party>, cc: Option<string>, id: Option<string>) {
    && (cc.None? || cc == Some("") || (party.Some? && Some(party.value.cc) == cc))
    && (id.None? || id == Some("") || (party.Some? && Some(party.value.party) == id))
  }

  /** The criteria that look deeper: a pattern on path or url, the two parties, and the body of either message. */
  lemma DeeperCriteria(lib: Library, x: Exchange, pattern: string, cc: Option<string>, id: Option<string>, needle: Json)
    ensures MatchesFilter(lib, x, ANYTHING.(pathMatches := Some(pattern)))
       <==> pattern == "" || (lib.regex(pattern).Some? && (lib.regex(pattern).value(x.path) || lib.regex(pattern).value(x.url)))
    ensures MatchesFilter(lib, x, ANYTHING.(from := Some(PartyFilter(cc, id)))) <==> PartyAsked(x.from, cc, id)
    ensures MatchesFilter(lib, x, ANYTHING.(to := Some(PartyFilter(cc, id)))) <==> PartyAsked(x.to, cc, id)
    ensures MatchesFilter(lib, x, ANYTHING.(bodyMatch := needle))
       <==> needle.Undefined? || needle.Null? || DeepContains(x.requestBody, needle) || DeepContains(x.responseBody, needle)
  {
  }

  // ---- the list functions ----

  lemma {:induction false} StillWaitingMembers(m: Matcher, ws: seq<Waiter>, x: Exchange)
    ensures forall w :: w in StillWaiting(m, ws, x) <==> w in ws && !m(x, w.filter)
    ensures DistinctTickets(ws) ==> DistinctTickets(StillWaiting(m, ws, x))
  {
    if ws != [] {
      StillWaitingMembers(m, ws[1..], x);
      assert ws == [ws[0]] + ws[1..];
    }
  }

  lemma {:induction false} AwakeMembers(m: Matcher, ws: seq<Waiter>, x: Exchange)
    ensures forall w :: w in Awake(m, ws, x) <==> w in ws && m(x, w.filter)
  {
    if ws != [] {
      AwakeMembers(m, ws[1..], x);
      assert ws == [ws[0]] + ws[1..];
    }
  }

  lemma {:induction false} SettledMembers(ws: seq<Waiter>, o: Outcome)
    ensures forall w :: w in ws ==> w.ticket in Settled(ws, o)
    ensures forall t :: t in Settled(ws, o) ==> Settled(ws, o)[t] == o && exists w :: w in ws && w.ticket == t
  {
    if ws != [] {
      SettledMembers(ws[1..], o);
      assert ws == [ws[0]] + ws[1..];
    }
  }

  lemma {:induction false} WithoutMembers(ws: seq<Waiter>, ticket: nat)
    ensures forall w :: w in Without(ws, ticket) <==> w in ws && w.ticket != ticket
    ensures DistinctTickets(ws) ==> DistinctTickets(Without(ws, ticket))
  {
    if ws != [] {
      WithoutMembers(ws[1..], ticket);
      assert ws == [ws[0]] + ws[1..];
    }
  }

  lemma {:induction false} MatchingMembers(m: Matcher, xs: seq<Exchange>, f: Filter)
    ensures forall x :: x in Matching(m, xs, f) <==> x in xs && m(x, f)
  {
    if xs != [] {
      MatchingMembers(m, xs[1..], f);
      assert xs == [xs[0]] + xs[1..];
    }
  }

  lemma {:induction false} MatchingCounts(m: Matcher, xs: seq<Exchange>, f: Filter)
    ensures forall x :: multiset(Matching(m, xs, f))[x] == if m(x, f) then multiset(xs)[x] else 0
  {
    if xs != [] {
      MatchingCounts(m, xs[1..], f);
      assert xs == [xs[0]] + xs[1..];
    }
  }

  ghost predicate SeqSorted(xs: seq<Exchange>) {
    forall i, j :: 0 <= i < j < |xs| ==> xs[i].seqNo <= xs[j].seqNo
  }

  lemma {:induction false} InsertSortedMembers(x: Exchange, xs: seq<Exchange>)
    ensures multiset(InsertSorted(x, xs)) == multiset(xs) + multiset{x}
    ensures forall y :: y in InsertSorted(x, xs) ==> y == x || y in xs
  {
    if xs != [] && x.seqNo > xs[0].seqNo {
      InsertSortedMembers(x, xs[1..]);
      assert xs == [xs[0]] + xs[1..];
    }
  }

  lemma {:induction false} InsertSortedSorts(x: Exchange, xs: seq<Exchange>)
    requires SeqSorted(xs)
    ensures SeqSorted(InsertSorted(x, xs))
  {
    if xs != [] && x.seqNo > xs[0].seqNo {
      InsertSortedSorts(x, xs[1..]);
      InsertSortedMembers(x, xs[1..]);
      forall y | y in InsertSorted(x, xs[1..])
        ensures xs[0].seqNo <= y.seqNo
      {
        if y != x { assert y in xs[1..]; }
      }
    }
  }

  lemma {:induction false} SortBySeqSorts(xs: seq<Exchange>)
    ensures SeqSorted(SortBySeq(xs)) && multiset(SortBySeq(xs)) == multiset(xs)
  {
    if xs != [] {
      SortBySeqSorts(xs[1..]);
      InsertSortedSorts(xs[0], SortBySeq(xs[1..]));
      InsertSortedMembers(xs[0], SortBySeq(xs[1..]));
      assert xs == [xs[0]] + xs[1..];
    }
  }

  lemma SortBySeqMembers(xs: seq<Exchange>)
    ensures forall x :: x in SortBySeq(xs) <==> x in xs
  {
    SortBySeqSorts(xs);
    forall x
      ensures x in SortBySeq(xs) <==> x in xs
    {
      assert x in SortBySeq(xs) <==> x in multiset(SortBySeq(xs));
    }
  }

  /** Sorting leaves a sequence that is already in order alone, so it is stable on it. */
  lemma {:induction false} SortOfSorted(xs: seq<Exchange>)
    requires SeqSorted(xs)
    ensures SortBySeq(xs) == xs
  {
    if xs != [] {
      SortOfSorted(xs[1..]);
    }
  }

  // ---- every operation keeps the invariant ----

  lemma RecordKeepsWindow(m: Matcher, s: Store, x: Exchange)
    requires Windowed(s)
    ensures Windowed(Record(m, s, x))
  {
    if x.id !in s.index { PushKeepsWindow(s.buffer, s.accepted, x); }
  }

  lemma SuffixSnoc<T>(xs: seq<T>, d: nat, x: T)
    requires d <= |xs|
    ensures xs[d..] + [x] == (xs + [x])[d..]
  {
  }

  lemma SuffixTail<T>(xs: seq<T>, d: nat)
    requires d < |xs|
    ensures xs[d..][1..] == xs[d + 1..]
  {
  }

  lemma PushKeepsWindow<T>(b: seq<T>, accepted: seq<T>, x: T)
    requires IsWindow(b, accepted)
    ensures IsWindow(if |b + [x]| > 10_000 then (b + [x])[1..] else b + [x], accepted + [x])
  {
    SuffixSnoc(accepted, |accepted| - |b|, x);
    if |b + [x]| > 10_000 {
      SuffixTail(accepted + [x], |accepted| - |b|);
    }
  }

  lemma RecordKeepsIndex(m: Matcher, s: Store, x: Exchange)
    requires Indexed(s)
    ensures Indexed(Record(m, s, x))
  {
    if x.id !in s.index {
      PushKeepsIndex(s.buffer, s.index, x);
      if |s.buffer + [x]| > RING_CAP {
        EvictKeepsIndex(s.buffer + [x], s.index[x.id := x]);
      }
    }
  }

  lemma PushKeepsIndex(b: seq<Exchange>, ix: map<string, Exchange>, x: Exchange)
    requires IndexOf(b, ix) && x.id !in ix
    ensures IndexOf(b + [x], ix[x.id := x])
  {
    var b', ix' := b + [x], ix[x.id := x];
    forall e | e in b'
      ensures e.id in ix' && ix'[e.id] == e
    {
      assert e in b || e == x;
    }
    assert b'[|b|] == x;
    forall id | id in ix'
      ensures ix'[id] in b' && ix'[id].id == id
    {
      if id in ix { assert ix[id] in b; }
    }
  }

  lemma EvictKeepsIndex(b: seq<Exchange>, ix: map<string, Exchange>)
    requires IndexOf(b, ix) && b != []
    ensures IndexOf(b[1..], ix - {b[0].id})
  {
    assert b == [b[0]] + b[1..];
    forall id | id in ix && id != b[0].id
      ensures ix[id] in b[1..]
    {
      assert ix[id] in b;
    }
  }

  lemma RecordBuffers(m: Matcher, s: Store, x: Exchange)
    ensures forall e :: e in Record(m, s, x).buffer ==> e in s.buffer || e == x
  {
    assert forall e :: e in s.buffer + [x] ==> e in s.buffer || e == x;
  }

  lemma RecordKeepsWakeups(m: Matcher, s: Store, x: Exchange)
    requires NoLostWakeup(m, s)
    ensures NoLostWakeup(m, Record(m, s, x))
  {
    StillWaitingMembers(m, s.waiters, x);
    RecordBuffers(m, s, x);
  }

  lemma RecordKeepsTickets(m: Matcher, s: Store, x: Exchange)
    requires Ticketed(s)
    ensures Ticketed(Record(m, s, x))
  {
    var s' := Record(m, s, x);
    StillWaitingMembers(m, s.waiters, x);
    AwakeMembers(m, s.waiters, x);
    SettledMembers(Awake(m, s.waiters, x), Resolved(x));
    forall w | w in s'.waiters
      ensures w.ticket !in s'.outcomes
    {
      AwakeIsNotWaiting(m, s.waiters, x, w);
    }
    forall t: nat | t < s'.tickets && t !in s.outcomes
      ensures t in s'.outcomes || Pending(s', t)
    {
      var w :| w in s.waiters && w.ticket == t;
      if !m(x, w.filter) { assert w in s'.waiters; }
    }
  }

  /** Tickets tell waiters apart, so waking one settles no other. */
  lemma AwakeIsNotWaiting(m: Matcher, ws: seq<Waiter>, x: Exchange, w: Waiter)
    requires DistinctTickets(ws) && w in ws && !m(x, w.filter)
    ensures w.ticket !in Settled(Awake(m, ws, x), Resolved(x))
  {
    AwakeMembers(m, ws, x);
    SettledMembers(Awake(m, ws, x), Resolved(x));
    if w.ticket in Settled(Awake(m, ws, x), Resolved(x)) {
      var v :| v in Awake(m, ws, x) && v.ticket == w.ticket;
      SameTicketSameWaiter(ws, v, w);
    }
  }

  lemma SameTicketSameWaiter(ws: seq<Waiter>, v: Waiter, w: Waiter)
    requires DistinctTickets(ws) && v in ws && w in ws && v.ticket == w.ticket
    ensures v == w
  {
    var i :| 0 <= i < |ws| && ws[i] == v;
    var j :| 0 <= j < |ws| && ws[j] == w;
  }

  lemma WaitKeepsWakeups(m: Matcher, s: Store, f: Filter)
    requires NoLostWakeup(m, s)
    ensures NoLostWakeup(m, Wait(m, s, f))
  {
    AnswerIsLowest(m, s.buffer, f);
    assert forall w :: w in s.waiters + [Waiter(s.tickets, f)] ==> w in s.waiters || w == Waiter(s.tickets, f);
  }

  lemma WaitKeepsTickets(m: Matcher, s: Store, f: Filter)
    requires Ticketed(s)
    ensures Ticketed(Wait(m, s, f))
  {
    var s' := Wait(m, s, f);
    var ws := s.waiters + [Waiter(s.tickets, f)];
    assert forall w :: w in ws <==> w in s.waiters || w == Waiter(s.tickets, f);
    forall t: nat | t < s'.tickets && t !in s'.outcomes
      ensures Pending(s', t)
    {
      if t < s.tickets {
        var w :| w in s.waiters && w.ticket == t;
        assert w in s'.waiters;
      } else {
        assert Waiter(s.tickets, f) in s'.waiters;
      }
    }
  }

  lemma TimeoutKeepsInv(m: Matcher, s: Store, ticket: nat)
    requires Inv(m, s)
    ensures Inv(m, Timeout(s, ticket))
  {
    var s' := Timeout(s, ticket);
    WithoutMembers(s.waiters, ticket);
    forall t: nat | t < s'.tickets
      ensures t in s'.outcomes || Pending(s', t)
    {
      if t !in s.outcomes && t != ticket {
        var w :| w in s.waiters && w.ticket == t;
        assert w in s'.waiters;
      }
    }
  }

  lemma ResetKeepsInv(m: Matcher, s: Store)
    requires Inv(m, s)
    ensures Inv(m, Reset(s))
  {
    SettledMembers(s.waiters, StoreReset);
    forall t: nat | t < s.tickets && t !in s.outcomes
      ensures t in Reset(s).outcomes
    {
      assert Pending(s, t);
    }
  }

  // ---- runs ----

  datatype Op = RecordOp(x: Exchange) | WaitOp(f: Filter) | TimeoutOp(ticket: nat) | ResetOp

  function Apply(m: Matcher, s: Store, op: Op): Store {
    match op
    case RecordOp(x) => Record(m, s, x)
    case WaitOp(f) => Wait(m, s, f)
    case TimeoutOp(t) => Timeout(s, t)
    case ResetOp => Reset(s)
  }

  function RunFrom(m: Matcher, s: Store, ops: seq<Op>): Store
    decreases |ops|
  {
    if ops == [] then s else RunFrom(m, Apply(m, s, ops[0]), ops[1..])
  }

  lemma ApplyKeepsInv(m: Matcher, s: Store, op: Op)
    requires Inv(m, s)
    ensures Inv(m, Apply(m, s, op))
  {
    match op
    case RecordOp(x) =>
      RecordKeepsWindow(m, s, x);
      RecordKeepsIndex(m, s, x);
      RecordKeepsWakeups(m, s, x);
      RecordKeepsTickets(m, s, x);
    case WaitOp(f) =>
      WaitKeepsWakeups(m, s, f);
      WaitKeepsTickets(m, s, f);
    case TimeoutOp(t) =>
      TimeoutKeepsInv(m, s, t);
    case ResetOp =>
      ResetKeepsInv(m, s);
  }

  lemma {:induction false} RunKeepsInv(m: Matcher, s: Store, ops: seq<Op>)
    requires Inv(m, s)
    ensures Inv(m, RunFrom(m, s, ops))
    decreases |ops|
  {
    if ops != [] {
      ApplyKeepsInv(m, s, ops[0]);
      RunKeepsInv(m, Apply(m, s, ops[0]), ops[1..]);
    }
  }

  /** Window, index, registry and wakeups are right in every reachable state. */
  lemma ReachableInv(m: Matcher, ops: seq<Op>)
    ensures Inv(m, RunFrom(m, EMPTY, ops))
  {
    RunKeepsInv(m, EMPTY, ops);
  }

  // ---- each wait is settled once, by the right exchange ----

  function OutcomeOf(s: Store, ticket: nat): Option<Outcome> {
    if ticket in s.outcomes then Some(s.outcomes[ticket]) else None
  }

  /** The fate of a registered wait: the first later match, its timeout or a reset, whichever comes first. */
  function Verdict(m: Matcher, f: Filter, ticket: nat, ops: seq<Op>): Option<Outcome>
    decreases |ops|
  {
    if ops == [] then None
    else match ops[0]
      case RecordOp(x) => if m(x, f) then Some(Resolved(x)) else Verdict(m, f, ticket, ops[1..])
      case TimeoutOp(t) => if t == ticket then Some(TimedOut) else Verdict(m, f, ticket, ops[1..])
      case ResetOp => Some(StoreReset)
      case WaitOp(_) => Verdict(m, f, ticket, ops[1..])
  }

  lemma SettledStep(m: Matcher, s: Store, op: Op, ticket: nat)
    requires Inv(m, s) && ticket in s.outcomes
    ensures OutcomeOf(Apply(m, s, op), ticket) == OutcomeOf(s, ticket)
  {
    match op
    case RecordOp(x) =>
      AwakeMembers(m, s.waiters, x);
      SettledMembers(Awake(m, s.waiters, x), Resolved(x));
    case ResetOp =>
      SettledMembers(s.waiters, StoreReset);
    case _ =>
  }

  /** A settled wait never changes its outcome. */
  lemma {:induction false} SettledForever(m: Matcher, s: Store, ops: seq<Op>, ticket: nat)
    requires Inv(m, s) && ticket in s.outcomes
    ensures OutcomeOf(RunFrom(m, s, ops), ticket) == OutcomeOf(s, ticket)
    decreases |ops|
  {
    if ops != [] {
      SettledStep(m, s, ops[0], ticket);
      ApplyKeepsInv(m, s, ops[0]);
      SettledForever(m, Apply(m, s, ops[0]), ops[1..], ticket);
    }
  }

  /** One operation settles a registered wait exactly as the verdict says, or leaves it registered. */
  lemma PendingStep(m: Matcher, s: Store, op: Op, w: Waiter)
    requires Inv(m, s) && w in s.waiters
    ensures var s' := Apply(m, s, op);
            OutcomeOf(s', w.ticket) == Verdict(m, w.filter, w.ticket, [op])
            && (w.ticket in s'.outcomes || w in s'.waiters)
  {
    match op
    case RecordOp(x) =>
      StillWaitingMembers(m, s.waiters, x);
      AwakeMembers(m, s.waiters, x);
      SettledMembers(Awake(m, s.waiters, x), Resolved(x));
      if !m(x, w.filter) { AwakeIsNotWaiting(m, s.waiters, x, w); }
    case WaitOp(f) =>
    case TimeoutOp(t) =>
      WithoutMembers(s.waiters, t);
    case ResetOp =>
      SettledMembers(s.waiters, StoreReset);
  }

  lemma VerdictStep(m: Matcher, f: Filter, ticket: nat, ops: seq<Op>)
    requires ops != []
    ensures var first := Verdict(m, f, ticket, [ops[0]]);
            Verdict(m, f, ticket, ops) == if first.Some? then first else Verdict(m, f, ticket, ops[1..])
  {
    assert [ops[0]][1..] == [];
  }

  lemma {:induction false} PendingRun(m: Matcher, s: Store, ops: seq<Op>, w: Waiter)
    requires Inv(m, s) && w in s.waiters
    ensures OutcomeOf(RunFrom(m, s, ops), w.ticket) == Verdict(m, w.filter, w.ticket, ops)
    decreases |ops|
  {
    if ops != [] {
      var s' := Apply(m, s, ops[0]);
      PendingStep(m, s, ops[0], w);
      ApplyKeepsInv(m, s, ops[0]);
      VerdictStep(m, w.filter, w.ticket, ops);
      if w.ticket in s'.outcomes {
        SettledForever(m, s', ops[1..], w.ticket);
      } else {
        PendingRun(m, s', ops[1..], w);
      }
    }
  }

  /**
   The promise of a wait, after any later run: the lowest-numbered buffered match if there was one, else the first
   later match, timeout or reset; and it is registered exactly while it has no outcome.
   */
  lemma WaitIsAnsweredOnce(m: Matcher, s: Store, f: Filter, ops: seq<Op>)
    requires Inv(m, s)
    ensures var existing := SortBySeq(Matching(m, s.buffer, f));
            var end := RunFrom(m, Wait(m, s, f), ops);
            && OutcomeOf(end, s.tickets) ==
                 (if existing != [] then Some(Resolved(existing[0])) else Verdict(m, f, s.tickets, ops))
            && (Pending(end, s.tickets) <==> OutcomeOf(end, s.tickets).None?)
  {
    var s' := Wait(m, s, f);
    ApplyKeepsInv(m, s, WaitOp(f));
    if SortBySeq(Matching(m, s.buffer, f)) != [] {
      SettledForever(m, s', ops, s.tickets);
    } else {
      assert s'.waiters[|s.waiters|] == Waiter(s.tickets, f);
      PendingRun(m, s', ops, Waiter(s.tickets, f));
    }
    RunKeepsInv(m, s', ops);
    TicketsGrow(m, s', ops);
  }

  lemma {:induction false} TicketsGrow(m: Matcher, s: Store, ops: seq<Op>)
    ensures s.tickets <= RunFrom(m, s, ops).tickets
    decreases |ops|
  {
    if ops != [] {
      TicketsGrow(m, Apply(m, s, ops[0]), ops[1..]);
    }
  }

  /** The first of the sorted matches is a buffered match, no match has a lower number, and none is overlooked. */
  lemma AnswerIsLowest(m: Matcher, xs: seq<Exchange>, f: Filter)
    ensures var existing := SortBySeq(Matching(m, xs, f));
            && (existing == [] <==> forall x :: x in xs ==> !m(x, f))
            && (existing != [] ==>
                  && existing[0] in xs && m(existing[0], f)
                  && forall x :: x in xs && m(x, f) ==> existing[0].seqNo <= x.seqNo)
  {
    var existing := SortBySeq(Matching(m, xs, f));
    MatchingMembers(m, xs, f);
    SortBySeqSorts(Matching(m, xs, f));
    SortBySeqMembers(Matching(m, xs, f));
    if existing != [] {
      assert existing[0] in existing;
    }
    forall x | x in xs && m(x, f)
      ensures existing != [] && existing[0].seqNo <= x.seqNo
    {
      assert x in existing;
    }
  }

  // ---- queries ----

  /** A query without a page returns each buffered match, as often as it is buffered, in order of its number. */
  lemma QueryIsSortedFilter(m: Matcher, s: Store, f: Filter)
    requires f.offset.None? && f.limit.None?
    ensures var r := Query(m, s, f);
            SeqSorted(r) && multiset(r) == multiset(Matching(m, s.buffer, f))
            && (forall x :: x in r <==> x in s.buffer && m(x, f))
            && (forall x :: multiset(r)[x] == if m(x, f) then multiset(s.buffer)[x] else 0)
  {
    MatchingCounts(m, s.buffer, f);
    assert Query(m, s, f) == SortBySeq(Matching(m, s.buffer, f));
    MatchingMembers(m, s.buffer, f);
    SortBySeqSorts(Matching(m, s.buffer, f));
    SortBySeqMembers(Matching(m, s.buffer, f));
  }

  function Page(lib: Library, s: Store, f: Filter, offset: nat, limit: nat): seq<Exchange> {
    Query(TheMatcher(lib), s, f.(offset := Some(offset), limit := Some(limit)))
  }

  /** A slice of counted ends: it begins at `i`, and ends at `j` or with the sequence. */
  lemma SliceCounts<T>(s: seq<T>, i: nat, j: nat)
    ensures |Slice(s, i, j)| == if i >= |s| || j <= i then 0 else if j <= |s| then j - i else |s| - i
    ensures forall k :: 0 <= k < |Slice(s, i, j)| ==> Slice(s, i, j)[k] == s[i + k]
  {
  }

  /** A negative end counts from the back, and stops at the front. */
  lemma SliceFromBack<T>(s: seq<T>, i: int, k: int)
    requires k > 0
    ensures Slice(s, -k, i) == Slice(s, if k <= |s| then |s| - k else 0, i)
    ensures Slice(s, i, -k) == Slice(s, i, if k <= |s| then |s| - k else 0)
  {
  }

  /** A page holds the entries of the unpaged result from `offset` on, `limit` of them or as many as there are. */
  lemma PageHolds(lib: Library, s: Store, f: Filter, offset: nat, limit: nat)
    ensures var all, page := Query(TheMatcher(lib), s, f.(offset := None, limit := None)), Page(lib, s, f, offset, limit);
            && |page| == (if offset >= |all| then 0 else if offset + limit <= |all| then limit else |all| - offset)
            && forall k :: 0 <= k < |page| ==> page[k] == all[offset + k]
  {
    var all := Unpaged(lib, s, f);
    PagingIsNotFiltering(lib, s.buffer, f, Some(offset), Some(limit));
    SliceCounts(all, offset, offset + limit);
  }

  lemma Unpaged(lib: Library, s: Store, f: Filter) returns (all: seq<Exchange>)
    ensures all == SortBySeq(Matching(TheMatcher(lib), s.buffer, f))
    ensures Query(TheMatcher(lib), s, f.(offset := None, limit := None)) == all
  {
    all := SortBySeq(Matching(TheMatcher(lib), s.buffer, f));
    PagingIsNotFiltering(lib, s.buffer, f, None, None);
  }

  /** A missing offset is 0, and a missing limit is the number of matches. */
  lemma PageDefaults(lib: Library, s: Store, f: Filter, n: int)
    ensures var m := TheMatcher(lib);
            && Query(m, s, f.(offset := None, limit := Some(n))) == Query(m, s, f.(offset := Some(0), limit := Some(n)))
            && Query(m, s, f.(offset := Some(n), limit := None))
               == Query(m, s, f.(offset := Some(n), limit := Some(|Query(m, s, f.(offset := None, limit := None))|)))
  {
    var all := Unpaged(lib, s, f);
    DefaultOffset(lib, s, f, n);
    PagingIsNotFiltering(lib, s.buffer, f, Some(n), None);
    PagingIsNotFiltering(lib, s.buffer, f, Some(n), Some(|all|));
  }

  lemma DefaultOffset(lib: Library, s: Store, f: Filter, n: int)
    ensures Query(TheMatcher(lib), s, f.(offset := None, limit := Some(n)))
         == Query(TheMatcher(lib), s, f.(offset := Some(0), limit := Some(n)))
  {
    PagingIsNotFiltering(lib, s.buffer, f, None, Some(n));
    PagingIsNotFiltering(lib, s.buffer, f, Some(0), Some(n));
  }

  /** Consecutive pages of any size are consecutive pieces of the full result. */
  lemma PagesTile(lib: Library, s: Store, f: Filter, offset: nat, a: nat, b: nat)
    ensures Page(lib, s, f, offset, a) + Page(lib, s, f, offset + a, b) == Page(lib, s, f, offset, a + b)
  {
    var all := Pages(lib, s, f);
    var i, j, k: nat := offset, offset + a, offset + a + b;
    assert Page(lib, s, f, offset, a) == Slice(all, i, j);
    assert Page(lib, s, f, offset + a, b) == Slice(all, j, k);
    assert Page(lib, s, f, offset, a + b) == Slice(all, i, k);
    SlicesTile(all, i, j, k);
  }

  lemma Pages(lib: Library, s: Store, f: Filter) returns (all: seq<Exchange>)
    ensures forall offset: nat, limit: nat :: Page(lib, s, f, offset, limit) == Slice(all, offset, offset + limit)
  {
    all := SortBySeq(Matching(TheMatcher(lib), s.buffer, f));
    forall offset: nat, limit: nat
      ensures Page(lib, s, f, offset, limit) == Slice(all, offset, offset + limit)
    {
      PagingIsNotFiltering(lib, s.buffer, f, Some(offset), Some(limit));
    }
  }

  lemma SlicesTile(xs: seq<Exchange>, i: nat, j: nat, k: nat)
    requires i <= j <= k
    ensures Slice(xs, i, j) + Slice(xs, j, k) == Slice(xs, i, k)
  {
  }

  lemma {:induction false} PagingIsNotFiltering(lib: Library, xs: seq<Exchange>, f: Filter, o: Option<int>, l: Option<int>)
    ensures Matching(TheMatcher(lib), xs, f.(offset := o, limit := l)) == Matching(TheMatcher(lib), xs, f)
  {
    if xs != [] {
      PagingIsNotFiltering(lib, xs[1..], f, o, l);
      assert MatchesFilter(lib, xs[0], f.(offset := o, limit := l)) == MatchesFilter(lib, xs[0], f);
    }
  }

  /** Asking for more of the body can only shrink what a filter lets through. */
  lemma StrongerBodyMatchesLess(x: Exchange, weaker: Json, stronger: Json)
    requires DeepContains(stronger, weaker) && MatchesBody(x, stronger)
    ensures MatchesBody(x, weaker)
  {
    if stronger != Undefined && stronger != Null {
      if DeepContains(x.requestBody, stronger) {
        DeepContainsTransitive(x.requestBody, stronger, weaker);
      } else {
        DeepContainsTransitive(x.responseBody, stronger, weaker);
      }
    }
  }

  lemma StrongerBodyShrinksQuery(lib: Library, s: Store, f: Filter, stronger: Json)
    requires f.offset.None? && f.limit.None? && DeepContains(stronger, f.bodyMatch)
    ensures forall x :: x in Query(TheMatcher(lib), s, f.(bodyMatch := stronger)) ==> x in Query(TheMatcher(lib), s, f)
  {
    QueryIsSortedFilter(TheMatcher(lib), s, f);
    QueryIsSortedFilter(TheMatcher(lib), s, f.(bodyMatch := stronger));
    forall x | x in Query(TheMatcher(lib), s, f.(bodyMatch := stronger))
      ensures x in Query(TheMatcher(lib), s, f)
    {
      assert MatchesFilter(lib, x, f.(bodyMatch := stronger));
      StrongerBodyMatchesLess(x, f.bodyMatch, stronger);
    }
  }

  // ---- maxSeq ----

  ghost predicate MaxSeqRight(s: Store) {
    forall e :: e in s.buffer ==> e.seqNo <= MaxSeq(s)
  }

  ghost predicate LastIsMax(xs: seq<Exchange>) {
    xs != [] ==> forall e :: e in xs ==> e.seqNo <= xs[|xs| - 1].seqNo
  }

  /** A request is opened, which draws the next number for its exchange, or something happens to the store. */
  datatype Event = Open | Do(op: Op)

  function Opened(es: seq<Event>): nat {
    if es == [] then 0 else Opened(es[..|es| - 1]) + if es[|es| - 1].Open? then 1 else 0
  }

  /** When the request numbered `k` was opened. */
  function OpenedAt(es: seq<Event>, k: int): nat {
    if es == [] then 0 else if k <= Opened(es[..|es| - 1]) then OpenedAt(es[..|es| - 1], k) else |es| - 1
  }

  function OpsOf(es: seq<Event>): seq<Op> {
    if es == [] then []
    else OpsOf(es[..|es| - 1]) + if es[|es| - 1].Do? then [es[|es| - 1].op] else []
  }

  function StoreAfter(m: Matcher, es: seq<Event>): Store {
    RunFrom(m, EMPTY, OpsOf(es))
  }

  /** An exchange is recorded only after its request was opened, under the number drawn then. */
  predicate Possible(es: seq<Event>)
    decreases |es|
  {
    es == [] || (var front, e := es[..|es| - 1], es[|es| - 1];
                 Possible(front) && (e.Do? && e.op.RecordOp? ==> 1 <= e.op.x.seqNo <= Opened(front)))
  }

  /** What `e` records was opened after the exchange that was recorded last, if any is held. */
  predicate RecordsInOpenOrder(m: Matcher, es: seq<Event>, e: Event) {
    var s := StoreAfter(m, es);
    e.Do? && e.op.RecordOp? && e.op.x.id !in s.index && s.buffer != [] ==>
      OpenedAt(es, s.buffer[|s.buffer| - 1].seqNo) <= OpenedAt(es, e.op.x.seqNo)
  }

  predicate AlwaysInOpenOrder(m: Matcher, es: seq<Event>)
    decreases |es|
  {
    es == [] || (AlwaysInOpenOrder(m, es[..|es| - 1]) && RecordsInOpenOrder(m, es[..|es| - 1], es[|es| - 1]))
  }

  ghost predicate AlwaysMaxSeqRight(m: Matcher, es: seq<Event>)
    decreases |es|
  {
    MaxSeqRight(StoreAfter(m, es)) && (es == [] || AlwaysMaxSeqRight(m, es[..|es| - 1]))
  }

  lemma {:induction false} RunSnoc(m: Matcher, s: Store, ops: seq<Op>, op: Op)
    ensures RunFrom(m, s, ops + [op]) == Apply(m, RunFrom(m, s, ops), op)
    decreases |ops|
  {
    if ops == [] {
      assert [op][1..] == [];
    } else {
      assert (ops + [op])[1..] == ops[1..] + [op];
      RunSnoc(m, Apply(m, s, ops[0]), ops[1..], op);
    }
  }

  lemma LastEvent(m: Matcher, es: seq<Event>)
    requires es != []
    ensures var s, e := StoreAfter(m, es[..|es| - 1]), es[|es| - 1];
            StoreAfter(m, es) == if e.Do? then Apply(m, s, e.op) else s
  {
    var front, e := es[..|es| - 1], es[|es| - 1];
    if e.Do? { RunSnoc(m, EMPTY, OpsOf(front), e.op); } else { assert OpsOf(front) + [] == OpsOf(front); }
  }

  /** Numbers are in the order of opening. */
  lemma {:induction false} OpenedInNumberOrder(es: seq<Event>, j: int, k: int)
    requires 1 <= j < k <= Opened(es)
    ensures OpenedAt(es, j) < OpenedAt(es, k) < |es|
    decreases |es|
  {
    var front := es[..|es| - 1];
    if k <= Opened(front) {
      OpenedInNumberOrder(front, j, k);
    } else {
      OpenedBefore(front, j);
    }
  }

  lemma {:induction false} OpenedBefore(es: seq<Event>, j: int)
    requires 1 <= j <= Opened(es)
    ensures OpenedAt(es, j) < |es|
    decreases |es|
  {
    if j <= Opened(es[..|es| - 1]) { OpenedBefore(es[..|es| - 1], j); }
  }

  lemma ByNumber(es: seq<Event>, j: int, k: int)
    requires 1 <= j <= Opened(es) && 1 <= k <= Opened(es)
    ensures OpenedAt(es, j) <= OpenedAt(es, k) <==> j <= k
  {
    if j < k { OpenedInNumberOrder(es, j, k); }
    if k < j { OpenedInNumberOrder(es, k, j); }
  }

  /** Only recording an unbuffered id adds to the buffer, only the 10001st entry evicts, and only a reset empties it. */
  lemma BufferStep(m: Matcher, s: Store, op: Op)
    ensures var s' := Apply(m, s, op);
            s'.buffer == if op.ResetOp? then []
                         else if op.RecordOp? && op.x.id !in s.index then
                           (if |s.buffer| >= 10_000 then s.buffer[1..] + [op.x] else s.buffer + [op.x])
                         else s.buffer
    ensures var s' := Apply(m, s, op);
            s'.accepted == if op.ResetOp? then []
                           else if op.RecordOp? && op.x.id !in s.index then s.accepted + [op.x]
                           else s.accepted
  {
  }

  lemma {:induction false} NumbersWereDrawn(m: Matcher, es: seq<Event>)
    requires Possible(es)
    ensures forall x :: x in StoreAfter(m, es).buffer ==> 1 <= x.seqNo <= Opened(es)
    decreases |es|
  {
    if es != [] {
      var front, e := es[..|es| - 1], es[|es| - 1];
      NumbersWereDrawn(m, front);
      LastEvent(m, es);
      if e.Do? {
        var s := StoreAfter(m, front);
        BufferStep(m, s, e.op);
        if e.op.RecordOp? { assert forall x :: x in s.buffer + [e.op.x] ==> x in s.buffer || x == e.op.x; }
      }
    }
  }

  /** A record keeps `maxSeq` right exactly if its number is not below the last one held. */
  lemma PushKeepsMaxSeq(m: Matcher, s: Store, x: Exchange)
    requires MaxSeqRight(s) && x.id !in s.index
    ensures MaxSeqRight(Apply(m, s, RecordOp(x))) <==> (s.buffer != [] ==> s.buffer[|s.buffer| - 1].seqNo <= x.seqNo)
  {
    BufferStep(m, s, RecordOp(x));
    PushedMembers(s.buffer, x);
  }

  lemma PushedMembers(b: seq<Exchange>, x: Exchange)
    ensures var b' := if |b| >= 10_000 then b[1..] + [x] else b + [x];
            && b' != [] && b'[|b'| - 1] == x
            && (forall e :: e in b' ==> e in b || e == x)
            && (b != [] ==> b[|b| - 1] in b')
  {
    var b' := if |b| >= 10_000 then b[1..] + [x] else b + [x];
    if b != [] { assert b'[|b'| - 2] == b[|b| - 1]; }
  }

  /**
   `maxSeq` is the highest number after every event exactly if no exchange is ever recorded after one whose request
   was opened later. Resets start afresh, and an exchange that is buffered already is not recorded again.
   */
  lemma {:induction false} LastIsMaxIffRecordedInOrder(m: Matcher, es: seq<Event>)
    requires Possible(es)
    ensures AlwaysMaxSeqRight(m, es) <==> AlwaysInOpenOrder(m, es)
    decreases |es|
  {
    if es != [] {
      var front, e := es[..|es| - 1], es[|es| - 1];
      var s := StoreAfter(m, front);
      LastIsMaxIffRecordedInOrder(m, front);
      LastEvent(m, es);
      NumbersWereDrawn(m, front);
      if e.Do? {
        BufferStep(m, s, e.op);
        if AlwaysMaxSeqRight(m, front) && e.op.RecordOp? && e.op.x.id !in s.index {
          PushKeepsMaxSeq(m, s, e.op.x);
          if s.buffer != [] { ByNumber(front, s.buffer[|s.buffer| - 1].seqNo, e.op.x.seqNo); }
        }
      }
    }
  }

  /** In number order, `maxSeq` is the true maximum and the buffer is sorted. */
  lemma InOrderMaxSeq(s: Store)
    requires Windowed(s) && SeqSorted(s.accepted)
    ensures MaxSeqRight(s) && SeqSorted(s.buffer)
    ensures if s.buffer == [] then MaxSeq(s) == 0 else exists e :: e in s.buffer && e.seqNo == MaxSeq(s)
  {
    WindowSorted(s.buffer, s.accepted);
    LastOfSorted(s.buffer);
  }

  lemma WindowSorted(b: seq<Exchange>, accepted: seq<Exchange>)
    requires IsWindow(b, accepted) && SeqSorted(accepted)
    ensures SeqSorted(b)
  {
    forall i, j | 0 <= i < j < |b|
      ensures b[i].seqNo <= b[j].seqNo
    {
      var k := |accepted| - |b|;
      assert b[i] == accepted[k + i] && b[j] == accepted[k + j];
    }
  }

  lemma LastOfSorted(xs: seq<Exchange>)
    requires SeqSorted(xs)
    ensures LastIsMax(xs)
  {
    forall e | e in xs
      ensures e.seqNo <= xs[|xs| - 1].seqNo
    {
      var i :| 0 <= i < |xs| && xs[i] == e;
    }
  }

  lemma {:induction false} MatchingSorted(m: Matcher, xs: seq<Exchange>, f: Filter)
    requires SeqSorted(xs)
    ensures SeqSorted(Matching(m, xs, f))
    decreases |xs|
  {
    if xs != [] {
      MatchingSorted(m, xs[1..], f);
      MatchingMembers(m, xs[1..], f);
      forall x | x in Matching(m, xs[1..], f)
        ensures xs[0].seqNo <= x.seqNo
      {
        var i :| 0 <= i < |xs[1..]| && xs[1..][i] == x;
        assert xs[i + 1] == x;
      }
    }
  }

  /** In number order, an unpaged query returns its matches in the buffer's own order. */
  lemma InOrderQuery(m: Matcher, s: Store, f: Filter)
    requires Windowed(s) && SeqSorted(s.accepted) && f.offset.None? && f.limit.None?
    ensures Query(m, s, f) == Matching(m, s.buffer, f)
  {
    InOrderMaxSeq(s);
    MatchingSorted(m, s.buffer, f);
    SortOfSorted(Matching(m, s.buffer, f));
  }

  /** Two overlapping requests: the one opened first is recorded last, and `maxSeq` names it. */
  lemma CrossingRun(m: Matcher, first: Exchange, second: Exchange)
    requires first.seqNo == 1 && second.seqNo == 2 && first.id != second.id
    ensures var s := RunFrom(m, EMPTY, [RecordOp(second), RecordOp(first)]);
            s.buffer == [second, first] && MaxSeq(s) == 1 && !MaxSeqRight(s)
  {
    var ops := [RecordOp(second), RecordOp(first)];
    assert ops[1..] == [RecordOp(first)] && ops[1..][1..] == [];
    var s1 := Apply(m, EMPTY, ops[0]);
    assert s1.buffer == [second];
    var s2 := Apply(m, s1, ops[1..][0]);
    assert s2.buffer == [second, first];
    assert RunFrom(m, EMPTY, ops) == RunFrom(m, s1, ops[1..]) == RunFrom(m, s2, ops[1..][1..]) == s2;
    assert second in s2.buffer;
  }
}
