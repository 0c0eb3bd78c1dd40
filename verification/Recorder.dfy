/**
 The mock eMSP's recorder: a capped buffer of exchanges, an index by id, and a registry of waiters.
 The operations are functions on a `Store` value; `MemoryStore` performs them in place.
 */
module Recorder {
  import opened Json
  import opened Options

  const RING_CAP: nat := 10_000

  // ---- exchanges and filters ----

  datatype Party = Party(cc: string, party: string)

  datatype Exchange = Exchange(
    seqNo: int, id: string,
    direction: string, origin: string, operation: string,
    verb: string, url: string, path: string, from: Option<Party>, to: Option<Party>, requestBody: Json,
    httpStatus: int, ocpiStatusCode: Option<int>, responseBody: Json,
    validationOk: bool)

  datatype PartyFilter = PartyFilter(cc: Option<string>, party: Option<string>)

  datatype Filter = Filter(
    direction: Option<string>, origin: Option<string>, operation: Option<string>, verb: Option<string>,
    minSeq: Option<int>, httpStatus: Option<int>, ocpiStatusCode: Option<int>, validationOk: Option<bool>,
    pathMatches: Option<string>, from: Option<PartyFilter>, to: Option<PartyFilter>,
    bodyMatch: Json, limit: Option<int>, offset: Option<int>)

  /** The regular expressions and case mapping of the platform. `regex` is None where the source is malformed. */
  datatype Library = Library(regex: string -> Option<string -> bool>, upper: string -> string)

  /** An absent or empty string constrains nothing. */
  predicate Agrees(wanted: Option<string>, actual: string) {
    wanted.Some? && wanted.value != "" ==> actual == wanted.value
  }

  predicate AgreesParty(wanted: Option<PartyFilter>, actual: Option<Party>) {
    wanted.Some? ==>
      && (wanted.value.cc.Some? && wanted.value.cc.value != "" ==> actual.Some? && actual.value.cc == wanted.value.cc.value)
      && (wanted.value.party.Some? && wanted.value.party.value != "" ==>
            actual.Some? && actual.value.party == wanted.value.party.value)
  }

  predicate MatchesBody(ex: Exchange, needle: Json) {
    needle == Undefined || needle == Null || DeepContains(ex.requestBody, needle) || DeepContains(ex.responseBody, needle)
  }

  predicate MatchesFilter(lib: Library, ex: Exchange, f: Filter) {
    && Agrees(f.direction, ex.direction)
    && Agrees(f.origin, ex.origin)
    && Agrees(f.operation, ex.operation)
    && (f.verb.Some? && f.verb.value != "" ==> lib.upper(ex.verb) == lib.upper(f.verb.value))
    && (f.minSeq.Some? ==> ex.seqNo >= f.minSeq.value)
    && (f.httpStatus.Some? ==> ex.httpStatus == f.httpStatus.value)
    && (f.ocpiStatusCode.Some? ==> ex.ocpiStatusCode == f.ocpiStatusCode)
    && (f.validationOk.Some? ==> ex.validationOk == f.validationOk.value)
    && (f.pathMatches.Some? && f.pathMatches.value != "" ==>
          var re := lib.regex(f.pathMatches.value);
          re.Some? && (re.value(ex.path) || re.value(ex.url)))
    && AgreesParty(f.from, ex.from)
    && AgreesParty(f.to, ex.to)
    && MatchesBody(ex, f.bodyMatch)
  }

  /** How a filter decides about an exchange. The store's laws hold for any such decision. */
  type Matcher = (Exchange, Filter) -> bool

  function TheMatcher(lib: Library): Matcher {
    (x, f) => MatchesFilter(lib, x, f)
  }

  function Matching(m: Matcher, xs: seq<Exchange>, f: Filter): seq<Exchange> {
    if xs == [] then []
    else (if m(xs[0], f) then [xs[0]] else []) + Matching(m, xs[1..], f)
  }

  /** Stable sort by sequence number. */
  function InsertSorted(x: Exchange, xs: seq<Exchange>): seq<Exchange> {
    if xs == [] || x.seqNo <= xs[0].seqNo then [x] + xs else [xs[0]] + InsertSorted(x, xs[1..])
  }

  function SortBySeq(xs: seq<Exchange>): seq<Exchange> {
    if xs == [] then [] else InsertSorted(xs[0], SortBySeq(xs[1..]))
  }

  /** JavaScript's slice index: negative counts from the end, and both ends clamp. */
  function SliceIndex(n: nat, i: int): nat {
    if i < 0 then (if n + i < 0 then 0 else n + i) else if i > n then n else i
  }

  function Slice<T>(s: seq<T>, start: int, end: int): seq<T> {
    var a, b := SliceIndex(|s|, start), SliceIndex(|s|, end);
    if a < b then s[a..b] else []
  }

  // ---- the store ----

  datatype Outcome = Resolved(ex: Exchange) | TimedOut | StoreReset

  datatype Waiter = Waiter(ticket: nat, filter: Filter)

  /** `accepted` is every exchange pushed since the last reset; `outcomes` are the settled promises by ticket. */
  datatype Store = Store(
    buffer: seq<Exchange>, index: map<string, Exchange>,
    waiters: seq<Waiter>, outcomes: map<nat, Outcome>, tickets: nat,
    accepted: seq<Exchange>)

  const EMPTY: Store := Store([], map[], [], map[], 0, [])

  function StillWaiting(m: Matcher, ws: seq<Waiter>, x: Exchange): seq<Waiter> {
    if ws == [] then []
    else (if m(x, ws[0].filter) then [] else [ws[0]]) + StillWaiting(m, ws[1..], x)
  }

  function Awake(m: Matcher, ws: seq<Waiter>, x: Exchange): seq<Waiter> {
    if ws == [] then [] else (if m(x, ws[0].filter) then [ws[0]] else []) + Awake(m, ws[1..], x)
  }

  /** The promises of `ws`, each settled with `o`. */
  function Settled(ws: seq<Waiter>, o: Outcome): map<nat, Outcome> {
    if ws == [] then map[] else Settled(ws[1..], o)[ws[0].ticket := o]
  }

  /** Push unless the id is buffered, and evict the oldest beyond the cap. */
  function Pushed(s: Store, x: Exchange): Store {
    if x.id in s.index then s
    else
      var b, ix := s.buffer + [x], s.index[x.id := x];
      if |b| > RING_CAP then s.(buffer := b[1..], index := ix - {b[0].id}, accepted := s.accepted + [x])
      else s.(buffer := b, index := ix, accepted := s.accepted + [x])
  }

  /** `record`: push, then wake. */
  function Record(m: Matcher, s: Store, x: Exchange): Store {
    Pushed(s, x).(
      waiters := StillWaiting(m, s.waiters, x),
      outcomes := s.outcomes + Settled(Awake(m, s.waiters, x), Resolved(x)))
  }

  /** `waitForReceived`: answered from the buffer at once, else registered. The ticket is `s.tickets`. */
  function Wait(m: Matcher, s: Store, f: Filter): Store {
    var existing := SortBySeq(Matching(m, s.buffer, f));
    if existing != [] then s.(outcomes := s.outcomes[s.tickets := Resolved(existing[0])], tickets := s.tickets + 1)
    else s.(waiters := s.waiters + [Waiter(s.tickets, f)], tickets := s.tickets + 1)
  }

  predicate Pending(s: Store, ticket: nat) {
    exists w :: w in s.waiters && w.ticket == ticket
  }

  function Without(ws: seq<Waiter>, ticket: nat): seq<Waiter> {
    if ws == [] then [] else (if ws[0].ticket == ticket then [] else [ws[0]]) + Without(ws[1..], ticket)
  }

  /** The timer of a waiter; a settled waiter's timer was cleared and never fires. */
  function Timeout(s: Store, ticket: nat): Store {
    if Pending(s, ticket) then s.(waiters := Without(s.waiters, ticket), outcomes := s.outcomes[ticket := TimedOut]) else s
  }

  function Reset(s: Store): Store {
    s.(buffer := [], index := map[], accepted := [], waiters := [],
       outcomes := s.outcomes + Settled(s.waiters, StoreReset))
  }

  function Query(m: Matcher, s: Store, f: Filter): seq<Exchange> {
    var matched := SortBySeq(Matching(m, s.buffer, f));
    var offset := if f.offset.Some? then f.offset.value else 0;
    var limit := if f.limit.Some? then f.limit.value else |matched|;
    Slice(matched, offset, offset + limit)
  }

  function MaxSeq(s: Store): int {
    if |s.buffer| > 0 then s.buffer[|s.buffer| - 1].seqNo else 0
  }
}
