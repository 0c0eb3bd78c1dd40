/**
 The recorder as the object it is: fields that each method updates in place. Every method is tied to the function
 of the same name on `Store` values, and keeps the recorder's invariant.
 */
module MemoryStore {
  import opened Json
  import opened Options
  import opened Recorder
  import opened RecorderLaws

  class MemoryStore {
    /** How a filter decides about an exchange; the eMSP runs with `TheMatcher` of its platform library. */
    const matcher: Matcher
    var buffer: seq<Exchange>
    var index: map<string, Exchange>
    var waiters: seq<Waiter>
    var outcomes: map<nat, Outcome>
    var tickets: nat
    ghost var accepted: seq<Exchange>

    ghost function State(): Store
      reads this
    {
      Store(buffer, index, waiters, outcomes, tickets, accepted)
    }

    ghost predicate Valid()
      reads this
    {
      Inv(matcher, State())
    }

    constructor (matcher: Matcher)
      ensures Valid() && State() == EMPTY && this.matcher == matcher
    {
      this.matcher := matcher;
      buffer, index, waiters, outcomes, tickets, accepted := [], map[], [], map[], 0, [];
    }

    method Record(x: Exchange)
      requires Valid()
      modifies this
      ensures Valid() && State() == Recorder.Record(matcher, old(State()), x)
    {
      ApplyKeepsInv(matcher, State(), RecordOp(x));
      Accept(x);
    }

    method Accept(x: Exchange)
      modifies this
      ensures State() == Recorder.Record(matcher, old(State()), x)
    {
      Push(x);
      WakeWaiters(x);
    }

    /** Appends `x` unless its id is buffered, and evicts the oldest entry beyond the cap. */
    method Push(x: Exchange)
      modifies this`buffer, this`index, this`accepted
      ensures State() == Pushed(old(State()), x)
    {
      if x.id !in index {
        buffer := buffer + [x];
        index := index[x.id := x];
        accepted := accepted + [x];
        if |buffer| > RING_CAP {
          var evicted := buffer[0];
          buffer := buffer[1..];
          index := index - {evicted.id};
        }
      }
    }

    /** Settles each matching waiter and keeps the others, in their order. */
    method WakeWaiters(x: Exchange)
      modifies this`waiters, this`outcomes
      ensures waiters == StillWaiting(matcher, old(waiters), x)
      ensures outcomes == old(outcomes) + Settled(Awake(matcher, old(waiters), x), Resolved(x))
    {
      ghost var o := outcomes;
      var remaining: seq<Waiter> := [];
      var i := 0;
      while i < |waiters|
        invariant i <= |waiters| && waiters == old(waiters)
        invariant remaining == StillWaiting(matcher, waiters[..i], x)
        invariant outcomes == o + Settled(Awake(matcher, waiters[..i], x), Resolved(x))
      {
        var w := waiters[i];
        assert waiters[..i + 1] == waiters[..i] + [w];
        WakeOneMore(matcher, waiters[..i], w, x);
        if matcher(x, w.filter) {
          outcomes := outcomes[w.ticket := Resolved(x)];
        } else {
          remaining := remaining + [w];
        }
        i := i + 1;
      }
      assert waiters[..i] == waiters;
      waiters := remaining;
    }

    method WaitForReceived(f: Filter) returns (ticket: nat)
      requires Valid()
      modifies this
      ensures Valid() && ticket == old(tickets) && State() == Wait(matcher, old(State()), f)
    {
      ApplyKeepsInv(matcher, State(), WaitOp(f));
      ticket := AnswerOrRegister(f);
    }

    method AnswerOrRegister(f: Filter) returns (ticket: nat)
      modifies this`waiters, this`outcomes, this`tickets
      ensures ticket == old(tickets) && State() == Wait(matcher, old(State()), f)
    {
      ticket := tickets;
      tickets := tickets + 1;
      var existing := SortBySeq(Matching(matcher, buffer, f));
      if |existing| > 0 {
        outcomes := outcomes[ticket := Resolved(existing[0])];
      } else {
        waiters := waiters + [Waiter(ticket, f)];
      }
    }

    /** The timer of a registered waiter fires. */
    method Expire(ticket: nat)
      requires Valid() && Pending(State(), ticket)
      modifies this
      ensures Valid() && State() == Timeout(old(State()), ticket)
    {
      ApplyKeepsInv(matcher, State(), TimeoutOp(ticket));
      waiters := Without(waiters, ticket);
      outcomes := outcomes[ticket := TimedOut];
    }

    method Reset()
      requires Valid()
      modifies this
      ensures Valid() && State() == Recorder.Reset(old(State()))
    {
      ApplyKeepsInv(matcher, State(), ResetOp);
      buffer, index, accepted := [], map[], [];
      RejectAll();
    }

    method RejectAll()
      modifies this`waiters, this`outcomes
      ensures waiters == [] && outcomes == old(outcomes) + Settled(old(waiters), StoreReset)
    {
      ghost var o := outcomes;
      var i := 0;
      while i < |waiters|
        invariant i <= |waiters| && waiters == old(waiters)
        invariant outcomes == o + Settled(waiters[..i], StoreReset)
      {
        assert waiters[..i + 1] == waiters[..i] + [waiters[i]];
        SettleOneMore(waiters[..i], waiters[i], StoreReset);
        outcomes := outcomes[waiters[i].ticket := StoreReset];
        i := i + 1;
      }
      assert waiters[..i] == waiters;
      waiters := [];
    }

    method Query(f: Filter) returns (found: seq<Exchange>)
      ensures found == Recorder.Query(matcher, State(), f)
    {
      var matched := SortBySeq(Matching(matcher, buffer, f));
      var offset := if f.offset.Some? then f.offset.value else 0;
      var limit := if f.limit.Some? then f.limit.value else |matched|;
      found := Slice(matched, offset, offset + limit);
    }

    /** `get`: by the index, which by the invariant answers for the buffer. */
    method Get(id: string) returns (found: Option<Exchange>)
      requires Valid()
      ensures found.Some? ==> found.value in buffer && found.value.id == id
      ensures found.None? ==> forall e :: e in buffer ==> e.id != id
    {
      found := if id in index then Some(index[id]) else None;
    }

    method MaxSeq() returns (n: int)
      ensures n == Recorder.MaxSeq(State())
    {
      n := if |buffer| > 0 then buffer[|buffer| - 1].seqNo else 0;
    }
  }

  lemma {:induction false} SettleOneMore(ws: seq<Waiter>, w: Waiter, o: Outcome)
    ensures Settled(ws + [w], o) == Settled(ws, o)[w.ticket := o]
  {
    if ws == [] {
      assert [w][1..] == [];
    } else {
      SettleOneMore(ws[1..], w, o);
      assert (ws + [w])[1..] == ws[1..] + [w];
    }
  }

  lemma {:induction false} WakeOneMore(m: Matcher, ws: seq<Waiter>, w: Waiter, x: Exchange)
    ensures StillWaiting(m, ws + [w], x) == StillWaiting(m, ws, x) + (if m(x, w.filter) then [] else [w])
    ensures Settled(Awake(m, ws + [w], x), Resolved(x))
         == if m(x, w.filter) then Settled(Awake(m, ws, x), Resolved(x))[w.ticket := Resolved(x)]
            else Settled(Awake(m, ws, x), Resolved(x))
  {
    AwakeSnoc(m, ws, w, x);
    StillWaitingSnoc(m, ws, w, x);
    if m(x, w.filter) {
      SettleOneMore(Awake(m, ws, x), w, Resolved(x));
    } else {
      assert Awake(m, ws, x) + [] == Awake(m, ws, x);
    }
  }

  lemma {:induction false} AwakeSnoc(m: Matcher, ws: seq<Waiter>, w: Waiter, x: Exchange)
    ensures Awake(m, ws + [w], x) == Awake(m, ws, x) + (if m(x, w.filter) then [w] else [])
  {
    if ws == [] {
      assert [w][1..] == [];
    } else {
      AwakeSnoc(m, ws[1..], w, x);
      assert (ws + [w])[1..] == ws[1..] + [w];
    }
  }

  lemma {:induction false} StillWaitingSnoc(m: Matcher, ws: seq<Waiter>, w: Waiter, x: Exchange)
    ensures StillWaiting(m, ws + [w], x) == StillWaiting(m, ws, x) + (if m(x, w.filter) then [] else [w])
  {
    if ws == [] {
      assert [w][1..] == [];
    } else {
      StillWaitingSnoc(m, ws[1..], w, x);
      assert (ws + [w])[1..] == ws[1..] + [w];
    }
  }
}
