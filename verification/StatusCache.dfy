/**
 One source of the status cache: a value served stale while at most one background probe refreshes it. A probe's
 promise settles in one step and clears `inflight` in a later one, and snapshots may fall between the two.
 */
module StatusCache {
  import opened Options

  datatype Flight = Idle | Running | Settling

  /** `starts` is when each probe was started, `finished` how many have completed, `clock` the latest time seen. */
  datatype Probe<V> = Probe(
    value: Option<V>, error: Option<string>, fetchedAt: int, attemptedAt: int, inflight: Flight,
    starts: seq<int>, finished: nat, clock: int)

  datatype Ttl<!V> = Ttl(forValue: V -> int, forError: int)

  function Fresh<V>(): Probe<V> {
    Probe(None, None, 0, 0, Idle, [], 0, 0)
  }

  predicate Due<V>(ttl: Ttl<V>, p: Probe<V>, now: int) {
    if p.value.None? && p.error.None? then true
    else now - p.attemptedAt >= if p.error.Some? then ttl.forError else ttl.forValue(p.value.value)
  }

  function Kicked<V>(p: Probe<V>, now: int): Probe<V> {
    if p.inflight != Idle then p else p.(inflight := Running, starts := p.starts + [now])
  }

  datatype Event<V> =
    | Snapshot(now: int)
    | RefreshAll(now: int)
    | Resolve(now: int, v: V)
    | Reject(now: int, message: string)
    | Finally(now: int)

  /** Time does not run backwards, and a probe settles and then completes once. */
  predicate Possible<V>(p: Probe<V>, e: Event<V>) {
    && p.clock <= e.now
    && (e.Resolve? || e.Reject? ==> p.inflight == Running)
    && (e.Finally? ==> p.inflight == Settling)
  }

  function Step<V>(ttl: Ttl<V>, p: Probe<V>, e: Event<V>): Probe<V> {
    var q := match e
      case Snapshot(now) => if Due(ttl, p, now) then Kicked(p, now) else p
      case RefreshAll(now) => Kicked(p, now)
      case Resolve(now, v) => p.(value := Some(v), fetchedAt := now, error := None, inflight := Settling)
      case Reject(now, message) => p.(error := Some(message), inflight := Settling)
      case Finally(now) => p.(attemptedAt := now, inflight := Idle, finished := p.finished + 1);
    q.(clock := e.now)
  }

  predicate PossibleRun<V>(ttl: Ttl<V>, p: Probe<V>, es: seq<Event<V>>)
    decreases |es|
  {
    es == [] || (Possible(p, es[0]) && PossibleRun(ttl, Step(ttl, p, es[0]), es[1..]))
  }

  function Run<V>(ttl: Ttl<V>, p: Probe<V>, es: seq<Event<V>>): Probe<V>
    decreases |es|
  {
    if es == [] then p else Run(ttl, Step(ttl, p, es[0]), es[1..])
  }

  // ---- single flight ----

  /** Probes started and not completed. */
  function InFlight<V>(p: Probe<V>): int {
    |p.starts| - p.finished
  }

  predicate SingleFlight<V>(p: Probe<V>) {
    InFlight(p) == if p.inflight == Idle then 0 else 1
  }

  lemma {:induction false} AtMostOneInFlight<V>(ttl: Ttl<V>, p: Probe<V>, es: seq<Event<V>>)
    requires SingleFlight(p) && PossibleRun(ttl, p, es)
    ensures SingleFlight(Run(ttl, p, es)) && 0 <= InFlight(Run(ttl, p, es)) <= 1
    decreases |es|
  {
    if es != [] {
      AtMostOneInFlight(ttl, Step(ttl, p, es[0]), es[1..]);
    }
  }

  /** The value on show is the last one a probe resolved to: failures and refreshes never take it away. */
  function LastResolved<V>(start: Option<V>, es: seq<Event<V>>): Option<V>
    decreases |es|
  {
    if es == [] then start
    else LastResolved(if es[0].Resolve? then Some(es[0].v) else start, es[1..])
  }

  lemma {:induction false} ValueIsLastResolved<V>(ttl: Ttl<V>, p: Probe<V>, es: seq<Event<V>>)
    ensures Run(ttl, p, es).value == LastResolved(p.value, es)
    ensures p.value.Some? ==> Run(ttl, p, es).value.Some?
    decreases |es|
  {
    if es != [] {
      ValueIsLastResolved(ttl, Step(ttl, p, es[0]), es[1..]);
    }
  }

  // ---- what the events so far decide ----

  /** The last settlement of a probe, a Resolve or a Reject. */
  function LastSettled<V>(es: seq<Event<V>>): Option<Event<V>> {
    if es == [] then None
    else
      var e := es[|es| - 1];
      if e.Resolve? || e.Reject? then Some(e) else LastSettled(es[..|es| - 1])
  }

  /** When a probe was last completed; 0 before that. */
  function LastCompleted<V>(es: seq<Event<V>>): int {
    if es == [] then 0
    else
      var e := es[|es| - 1];
      if e.Finally? then e.now else LastCompleted(es[..|es| - 1])
  }

  /** When a probe last brought a value; 0 before that. */
  function LastFetched<V>(es: seq<Event<V>>): int {
    if es == [] then 0
    else
      var e := es[|es| - 1];
      if e.Resolve? then e.now else LastFetched(es[..|es| - 1])
  }

  lemma {:induction false} RunSnoc<V>(ttl: Ttl<V>, p: Probe<V>, es: seq<Event<V>>, e: Event<V>)
    ensures Run(ttl, p, es + [e]) == Step(ttl, Run(ttl, p, es), e)
    ensures PossibleRun(ttl, p, es + [e]) <==> PossibleRun(ttl, p, es) && Possible(Run(ttl, p, es), e)
    decreases |es|
  {
    if es == [] {
      assert [e][1..] == [];
    } else {
      assert (es + [e])[1..] == es[1..] + [e];
      RunSnoc(ttl, Step(ttl, p, es[0]), es[1..], e);
    }
  }

  /** Error and times shown, as the events say: an error exactly after a rejection, with its message. */
  lemma {:induction false} HistoryDecides<V>(ttl: Ttl<V>, es: seq<Event<V>>)
    requires PossibleRun(ttl, Fresh(), es)
    ensures var p, last := Run(ttl, Fresh(), es), LastSettled(es);
            && p.fetchedAt == LastFetched(es) && p.attemptedAt == LastCompleted(es)
            && p.error == (if last.Some? && last.value.Reject? then Some(last.value.message) else None)
            && (last.Some? && last.value.Resolve? ==> p.value == Some(last.value.v))
            && (last.None? ==> p.value.None?)
    decreases |es|
  {
    if es != [] {
      var front, e := es[..|es| - 1], es[|es| - 1];
      assert es == front + [e];
      RunSnoc(ttl, Fresh(), front, e);
      HistoryDecides(ttl, front);
    }
  }

  /** How long a source rests after its last settlement: not at all before the first one. */
  predicate Rested<V>(ttl: Ttl<V>, es: seq<Event<V>>, now: int) {
    match LastSettled(es)
    case None => true
    case Some(Reject(_, _)) => now - LastCompleted(es) >= ttl.forError
    case Some(Resolve(_, v)) => now - LastCompleted(es) >= ttl.forValue(v)
    case _ => false
  }

  /** A snapshot starts a probe exactly if none is in flight and the source has rested; else it starts none. */
  lemma SnapshotStartsExactly<V>(ttl: Ttl<V>, es: seq<Event<V>>, now: int)
    requires PossibleRun(ttl, Fresh(), es + [Snapshot(now)])
    ensures var p := Run(ttl, Fresh(), es);
            Run(ttl, Fresh(), es + [Snapshot(now)]).starts
            == p.starts + if InFlight(p) == 0 && Rested(ttl, es, now) then [now] else []
  {
    RunSnoc(ttl, Fresh(), es, Snapshot(now));
    HistoryDecides(ttl, es);
    AtMostOneInFlight(ttl, Fresh(), es);
    SettlementOnly(es);
    var p := Run(ttl, Fresh(), es);
    assert Due(ttl, p, now) <==> Rested(ttl, es, now);
    assert p.inflight == Idle <==> InFlight(p) == 0;
    assert p.starts + [] == p.starts;
  }

  /** Polling never dies out: whatever happened, a snapshot long enough after the last event, between probes, starts one. */
  lemma PollingGoesOn<V(!new)>(ttl: Ttl<V>, es: seq<Event<V>>, now: int, longest: int)
    requires PossibleRun(ttl, Fresh(), es + [Snapshot(now)]) && InFlight(Run(ttl, Fresh(), es)) == 0
    requires ttl.forError <= longest && forall v :: ttl.forValue(v) <= longest
    requires now - LastCompleted(es) >= longest
    ensures Run(ttl, Fresh(), es + [Snapshot(now)]).starts == Run(ttl, Fresh(), es).starts + [now]
  {
    SnapshotStartsExactly(ttl, es, now);
    SettlementOnly(es);
  }

  lemma {:induction false} SettlementOnly<V>(es: seq<Event<V>>)
    ensures LastSettled(es).Some? ==> LastSettled(es).value.Resolve? || LastSettled(es).value.Reject?
  {
    if es != [] { SettlementOnly(es[..|es| - 1]); }
  }

  // ---- the rate bound ----

  ghost predicate AtLeast<V(!new)>(ttl: Ttl<V>, gap: int) {
    ttl.forError >= gap && forall v :: ttl.forValue(v) >= gap
  }

  predicate Gapped(starts: seq<int>, gap: int) {
    forall i :: 0 <= i < |starts| - 1 ==> starts[i + 1] - starts[i] >= gap
  }

  /** What a run without forced refreshes keeps: starts are a TTL apart, and the next one will be too. */
  predicate Paced<V>(p: Probe<V>, gap: int) {
    && Gapped(p.starts, gap)
    && (p.starts != [] ==>
          var last := p.starts[|p.starts| - 1];
          if p.inflight == Idle then last <= p.attemptedAt && (p.value.Some? || p.error.Some?) else last <= p.clock)
    && (p.inflight == Settling ==> p.value.Some? || p.error.Some?)
  }

  lemma StepStaysPaced<V(!new)>(ttl: Ttl<V>, p: Probe<V>, e: Event<V>, gap: int)
    requires Paced(p, gap) && AtLeast(ttl, gap) && gap >= 0 && Possible(p, e) && !e.RefreshAll?
    ensures Paced(Step(ttl, p, e), gap)
  {
  }

  lemma {:induction false} PollingIsPaced<V(!new)>(ttl: Ttl<V>, p: Probe<V>, es: seq<Event<V>>, gap: int)
    requires Paced(p, gap) && AtLeast(ttl, gap) && gap >= 0 && PossibleRun(ttl, p, es)
    requires forall e :: e in es ==> !e.RefreshAll?
    ensures Paced(Run(ttl, p, es), gap)
    decreases |es|
  {
    if es != [] {
      StepStaysPaced(ttl, p, es[0], gap);
      PollingIsPaced(ttl, Step(ttl, p, es[0]), es[1..], gap);
    }
  }

  /** How many of the starts lie in the closed window from `a` to `b`. */
  function CountIn(starts: seq<int>, a: int, b: int): nat {
    if starts == [] then 0
    else CountIn(starts[..|starts| - 1], a, b) + if a <= starts[|starts| - 1] <= b then 1 else 0
  }

  lemma {:induction false} EarlierStarts(starts: seq<int>, gap: nat, i: nat)
    requires Gapped(starts, gap) && i < |starts| - 1
    ensures starts[i] <= starts[|starts| - 1] - gap
    decreases |starts| - i
  {
    if i < |starts| - 2 {
      EarlierStarts(starts, gap, i + 1);
    }
  }

  lemma {:induction false} CountUpTo(starts: seq<int>, a: int, b: int, c: int)
    requires c <= b && forall i :: 0 <= i < |starts| ==> starts[i] <= c
    ensures CountIn(starts, a, b) == CountIn(starts, a, c)
  {
    if starts != [] {
      CountUpTo(starts[..|starts| - 1], a, b, c);
    }
  }

  lemma {:induction false} CountBound(starts: seq<int>, a: int, b: int, gap: nat)
    requires Gapped(starts, gap)
    ensures b < a ==> CountIn(starts, a, b) == 0
    ensures a <= b ==> CountIn(starts, a, b) * gap <= b - a + gap
    decreases |starts|
  {
    if starts != [] {
      var front, last := starts[..|starts| - 1], starts[|starts| - 1];
      CountBound(front, a, b, gap);
      if a <= last <= b {
        forall i | 0 <= i < |front| ensures front[i] <= last - gap { EarlierStarts(starts, gap, i); }
        CountUpTo(front, a, b, last - gap);
        CountBound(front, a, last - gap, gap);
        var n := CountIn(front, a, b);
        assert (n + 1) * gap == n * gap + gap;
      }
    }
  }

  lemma Quotient(n: int, t: int, gap: int)
    requires gap > 0 && n * gap <= t + gap
    ensures n <= 1 + t / gap
  {
    var q := t / gap;
    if n >= q + 2 {
      Monotone(q + 2, n, gap);
    }
  }

  lemma Monotone(a: int, b: int, gap: int)
    requires a <= b && gap >= 0
    ensures a * gap <= b * gap
  {
  }

  /** Polling alone starts at most one probe per TTL, whatever the probes take and however often it polls. */
  lemma PollingRate<V(!new)>(ttl: Ttl<V>, es: seq<Event<V>>, gap: int, a: int, window: nat)
    requires AtLeast(ttl, gap) && gap > 0 && PossibleRun(ttl, Fresh(), es)
    requires forall e :: e in es ==> !e.RefreshAll?
    ensures CountIn(Run(ttl, Fresh(), es).starts, a, a + window) <= 1 + window / gap
  {
    PollingIsPaced(ttl, Fresh(), es, gap);
    CountBound(Run(ttl, Fresh(), es).starts, a, a + window, gap);
    Quotient(CountIn(Run(ttl, Fresh(), es).starts, a, a + window), window, gap);
  }

  // ---- the three sources ----

  datatype OcpiProbe = OcpiProbe(up: bool, httpStatus: Option<int>, latencyMs: Option<int>)

  datatype EverestState = Up | Down | Unavailable

  datatype EverestProbe = EverestProbe(state: EverestState, detail: Option<string>)

  /** For any kind of value: the TTL does not look at it. */
  function HasuraTtl<V>(): Ttl<V> { Ttl(_ => 5_000, 5_000) }

  const OCPI_TTL: Ttl<OcpiProbe> := Ttl((v: OcpiProbe) => if v.up then 10_000 else 5_000, 5_000)

  const EVEREST_TTL: Ttl<EverestProbe> := Ttl((v: EverestProbe) => if v.state == Unavailable then 60_000 else 30_000, 60_000)

  lemma HasuraRate<V(!new)>(es: seq<Event<V>>, a: int, window: nat)
    requires PossibleRun(HasuraTtl(), Fresh(), es) && forall e :: e in es ==> !e.RefreshAll?
    ensures CountIn(Run(HasuraTtl(), Fresh(), es).starts, a, a + window) <= 1 + window / 5_000
  {
    PollingRate(HasuraTtl(), es, 5_000, a, window);
  }

  lemma DockerRate(es: seq<Event<EverestProbe>>, a: int, window: nat)
    requires PossibleRun(EVEREST_TTL, Fresh(), es) && forall e :: e in es ==> !e.RefreshAll?
    ensures CountIn(Run(EVEREST_TTL, Fresh(), es).starts, a, a + window) <= 1 + window / 30_000
  {
    PollingRate(EVEREST_TTL, es, 30_000, a, window);
  }

  lemma OcpiRate(es: seq<Event<OcpiProbe>>, a: int, window: nat)
    requires PossibleRun(OCPI_TTL, Fresh(), es) && forall e :: e in es ==> !e.RefreshAll?
    ensures CountIn(Run(OCPI_TTL, Fresh(), es).starts, a, a + window) <= 1 + window / 5_000
  {
    PollingRate(OCPI_TTL, es, 5_000, a, window);
  }

  /** The Hasura query rests 5 seconds, whatever came back. */
  lemma HasuraRests<V>(es: seq<Event<V>>, now: int)
    ensures Rested(HasuraTtl(), es, now) <==> LastSettled(es).None? || now - LastCompleted(es) >= 5_000
  {
    SettlementOnly(es);
  }

  /** The OCPI probe rests 10 seconds after the CPO answered, else 5. */
  lemma OcpiRests(es: seq<Event<OcpiProbe>>, now: int)
    ensures Rested(OCPI_TTL, es, now)
       <==> var last := LastSettled(es);
            || last.None?
            || now - LastCompleted(es) >= (if last.value.Resolve? && last.value.v.up then 10_000 else 5_000)
  {
    SettlementOnly(es);
  }

  /** The docker probe rests 30 seconds if docker could be asked, else 60. */
  lemma DockerRests(es: seq<Event<EverestProbe>>, now: int)
    ensures Rested(EVEREST_TTL, es, now)
       <==> var last := LastSettled(es);
            || last.None?
            || now - LastCompleted(es) >= (if last.value.Resolve? && !last.value.v.state.Unavailable? then 30_000 else 60_000)
  {
    SettlementOnly(es);
  }

  /** Forced refreshes are coalesced but not paced: two of them can start probes at the same instant. */
  lemma RefreshIsNotPaced<V>(ttl: Ttl<V>, v: V)
    ensures var es := [RefreshAll(1), Resolve(1, v), Finally(1), RefreshAll(1)];
            PossibleRun(ttl, Fresh(), es) && Run(ttl, Fresh(), es).starts == [1, 1]
  {
    var es := [RefreshAll(1), Resolve(1, v), Finally(1), RefreshAll(1)];
    var p1 := Step(ttl, Fresh(), es[0]);
    var p2 := Step(ttl, p1, es[1]);
    var p3 := Step(ttl, p2, es[2]);
    var p4 := Step(ttl, p3, es[3]);
    assert es[1..][0] == es[1] && es[1..][1..][0] == es[2] && es[1..][1..][1..][0] == es[3];
    assert es[1..][1..][1..][1..] == [];
    assert PossibleRun(ttl, p3, es[1..][1..][1..]) && PossibleRun(ttl, p2, es[1..][1..]) && PossibleRun(ttl, p1, es[1..]);
    assert Run(ttl, p3, es[1..][1..][1..]) == p4 && Run(ttl, p2, es[1..][1..]) == p4 && Run(ttl, p1, es[1..]) == p4;
  }

  // ---- the cache entry in place ----

  class Source<V(!new)> {
    const ttl: Ttl<V>
    var value: Option<V>
    var error: Option<string>
    var fetchedAt: int
    var attemptedAt: int
    var inflight: Flight
    ghost var starts: seq<int>
    ghost var finished: nat
    ghost var clock: int

    ghost function State(): Probe<V>
      reads this
    {
      Probe(value, error, fetchedAt, attemptedAt, inflight, starts, finished, clock)
    }

    constructor (ttl: Ttl<V>)
      ensures State() == Fresh() && this.ttl == ttl
    {
      this.ttl := ttl;
      value, error, fetchedAt, attemptedAt, inflight := None, None, 0, 0, Idle;
      starts, finished, clock := [], 0, 0;
    }

    method Kick(now: int)
      modifies this`inflight, this`starts
      ensures State() == Kicked(old(State()), now)
    {
      if inflight != Idle {
        return;
      }
      inflight := Running;
      starts := starts + [now];
    }

    /** `snapshot` for this source: the value on show, and whether it is missing or erring. */
    method Snapshot(now: int) returns (shown: Option<V>, stale: bool)
      modifies this
      ensures State() == Step(ttl, old(State()), Event.Snapshot(now))
      ensures shown == old(value) && (stale <==> value.None? || error.Some?)
    {
      var due := value.None? && error.None?;
      if !due {
        var t := if error.Some? then ttl.forError else ttl.forValue(value.value);
        due := now - attemptedAt >= t;
      }
      if due {
        Kick(now);
      }
      clock := now;
      shown := value;
      stale := value.None? || error.Some?;
    }

    method ForceRefresh(now: int)
      modifies this
      ensures State() == Step(ttl, old(State()), RefreshAll(now))
    {
      Kick(now);
      clock := now;
    }

    method OnResolve(now: int, v: V)
      requires inflight == Running
      modifies this
      ensures State() == Step(ttl, old(State()), Resolve(now, v))
    {
      value := Some(v);
      fetchedAt := now;
      error := None;
      inflight := Settling;
      clock := now;
    }

    method OnReject(now: int, message: string)
      requires inflight == Running
      modifies this
      ensures State() == Step(ttl, old(State()), Reject(now, message))
    {
      error := Some(message);
      inflight := Settling;
      clock := now;
    }

    method OnFinally(now: int)
      requires inflight == Settling
      modifies this
      ensures State() == Step(ttl, old(State()), Finally(now))
    {
      attemptedAt := now;
      inflight := Idle;
      finished := finished + 1;
      clock := now;
    }
  }

  // ---- the cache of three sources ----

  /** What a snapshot shows: each source's value, None for unknown, and whether any is missing or erring. */
  datatype Shown<H> = Shown(hasura: Option<H>, ocpi: Option<OcpiProbe>, everest: Option<EverestProbe>, stale: bool)

  ghost predicate Degraded<V(!new)>(s: Source<V>)
    reads s
  {
    s.value.None? || s.error.Some?
  }

  class Cache<H(!new)> {
    const hasura: Source<H>
    const ocpi: Source<OcpiProbe>
    const everest: Source<EverestProbe>

    ghost predicate Valid() {
      && hasura.ttl == HasuraTtl() && ocpi.ttl == OCPI_TTL && everest.ttl == EVEREST_TTL
      && hasura as object != ocpi && ocpi as object != everest && everest as object != hasura
    }

    constructor ()
      ensures Valid() && fresh(hasura) && fresh(ocpi) && fresh(everest)
      ensures hasura.State() == Fresh() && ocpi.State() == Fresh() && everest.State() == Fresh()
    {
      hasura := new Source(HasuraTtl());
      ocpi := new Source(OCPI_TTL);
      everest := new Source(EVEREST_TTL);
    }

    /** Starts the probes that are due and shows what is held, without waiting for them. */
    method Snapshot(now: int) returns (shown: Shown<H>)
      requires Valid()
      modifies hasura, ocpi, everest
      ensures hasura.State() == Step(HasuraTtl(), old(hasura.State()), Event.Snapshot(now))
      ensures ocpi.State() == Step(OCPI_TTL, old(ocpi.State()), Event.Snapshot(now))
      ensures everest.State() == Step(EVEREST_TTL, old(everest.State()), Event.Snapshot(now))
      ensures shown.hasura == old(hasura.value) && shown.ocpi == old(ocpi.value) && shown.everest == old(everest.value)
      ensures shown.stale <==> old(Degraded(hasura) || Degraded(ocpi) || Degraded(everest))
    {
      var h, hStale := hasura.Snapshot(now);
      var o, oStale := ocpi.Snapshot(now);
      var e, eStale := everest.Snapshot(now);
      shown := Shown(h, o, e, hStale || oStale || eStale);
    }

    method RefreshAll(now: int)
      requires Valid()
      modifies hasura, ocpi, everest
      ensures hasura.State() == Step(HasuraTtl(), old(hasura.State()), Event.RefreshAll(now))
      ensures ocpi.State() == Step(OCPI_TTL, old(ocpi.State()), Event.RefreshAll(now))
      ensures everest.State() == Step(EVEREST_TTL, old(everest.State()), Event.RefreshAll(now))
    {
      hasura.ForceRefresh(now);
      ocpi.ForceRefresh(now);
      everest.ForceRefresh(now);
    }
  }
}
