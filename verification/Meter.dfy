/**
 Energy totals of a transaction's meter values. Numbers are reals: rounding is not part of this model.
 */
module Meter {
  import opened Options
  import opened Sets

  datatype Measurand = Register | Interval | Net | OtherMeasurand(name: string)

  datatype Phase = L1 | L2 | L3 | L1N | L2N | L3N | OtherPhase(name: string)

  datatype Context = TransactionBegin | SamplePeriodic | TransactionEnd | OtherContext(name: string)

  datatype Unit = Unit(unit: Option<string>, multiplier: Option<int>)

  datatype Sampled = Sampled(
    value: real, context: Option<Context>, measurand: Option<Measurand>, phase: Option<Phase>, unitOfMeasure: Option<Unit>)

  /** `timestamp` is the parsed time in milliseconds. */
  datatype MeterValue = MeterValue(timestamp: int, sampledValue: seq<Sampled>)

  /** Each meter value carries at least one sampled value; the source reads the first without looking. */
  predicate Sampling(mvs: seq<MeterValue>) {
    forall mv :: mv in mvs ==> mv.sampledValue != []
  }

  // ---- one sampled value ----

  function Pow10(k: int): real
    decreases if k < 0 then -k else k
  {
    if k == 0 then 1.0 else if k > 0 then 10.0 * Pow10(k - 1) else Pow10(k + 1) / 10.0
  }

  function Scaled(v: real, k: int): real {
    v * Pow10(k)
  }

  function UpperChar(c: char): char {
    if 'a' <= c <= 'z' then c - 'a' + 'A' else c
  }

  function Upper(s: string): string {
    if s == "" then "" else [UpperChar(s[0])] + Upper(s[1..])
  }

  predicate IsKiloUnit(u: Option<string>) {
    u.Some? && Upper(u.value) in ["KWH", "KVARH", "KVAH"]
  }

  predicate IsBaseUnit(u: Option<string>) {
    u.Some? ==> Upper(u.value) in ["WH", "VARH", "VAH"]
  }

  function UnitOf(sv: Sampled): Option<string> {
    if sv.unitOfMeasure.Some? then sv.unitOfMeasure.value.unit else None
  }

  function MultiplierOf(sv: Sampled): int {
    if sv.unitOfMeasure.Some? && sv.unitOfMeasure.value.multiplier.Some? then sv.unitOfMeasure.value.multiplier.value else 0
  }

  /** kWh, or None for a unit that is no energy. */
  function NormalizeToKwh(sv: Sampled): Option<real> {
    if IsKiloUnit(UnitOf(sv)) then Some(Scaled(sv.value, MultiplierOf(sv)))
    else if IsBaseUnit(UnitOf(sv)) then Some(Scaled(sv.value, MultiplierOf(sv) - 3))
    else None
  }

  // ---- one meter value ----

  predicate IsUnphased(sv: Sampled, m: Measurand) {
    (sv.measurand == Some(m) || (sv.measurand.None? && m == Register)) && sv.phase.None?
  }

  /** The first unphased value of the measurand, normalised. */
  function FindMeasurand(svs: seq<Sampled>, m: Measurand): Option<real> {
    if svs == [] then None
    else if IsUnphased(svs[0], m) then NormalizeToKwh(svs[0])
    else FindMeasurand(svs[1..], m)
  }

  predicate IsLinePhase(sv: Sampled, m: Measurand) {
    sv.measurand == Some(m) && sv.phase in [Some(L1), Some(L2), Some(L3)]
  }

  predicate IsNeutralPhase(sv: Sampled, m: Measurand) {
    sv.measurand == Some(m) && sv.phase in [Some(L1N), Some(L2N), Some(L3N)]
  }

  predicate Phased(sv: Sampled, m: Measurand, neutral: bool) {
    if neutral then IsNeutralPhase(sv, m) else IsLinePhase(sv, m)
  }

  function PhaseValues(svs: seq<Sampled>, m: Measurand, neutral: bool): seq<Sampled> {
    if svs == [] then []
    else (if Phased(svs[0], m, neutral) then [svs[0]] else []) + PhaseValues(svs[1..], m, neutral)
  }

  /** The sum of the values with an energy unit. */
  function SumKwh(svs: seq<Sampled>): real {
    if svs == [] then 0.0
    else
      var v := NormalizeToKwh(svs[|svs| - 1]);
      SumKwh(svs[..|svs| - 1]) + if v.Some? then v.value else 0.0
  }

  function SumPhased(svs: seq<Sampled>, m: Measurand): Option<real> {
    LinesFirst(PhaseValues(svs, m, false), PhaseValues(svs, m, true))
  }

  function LinesFirst(lines: seq<Sampled>, neutrals: seq<Sampled>): Option<real> {
    if lines != [] then Some(SumKwh(lines)) else if neutrals != [] then Some(SumKwh(neutrals)) else None
  }

  /** What one meter value contributes to the map of a measurand; Net has no fallback to phases. */
  function Reading(m: Measurand, mv: MeterValue): Option<real> {
    var v := FindMeasurand(mv.sampledValue, m);
    if v.None? && m != Net then SumPhased(mv.sampledValue, m) else v
  }

  // ---- a batch ----

  predicate HasValidContext(mv: MeterValue)
    requires mv.sampledValue != []
  {
    var c := mv.sampledValue[0].context;
    c.None? || c.value == TransactionBegin || c.value == SamplePeriodic || c.value == TransactionEnd
  }

  function FilterValid(mvs: seq<MeterValue>): seq<MeterValue>
    requires Sampling(mvs)
  {
    if mvs == [] then []
    else (if HasValidContext(mvs[0]) then [mvs[0]] else []) + FilterValid(mvs[1..])
  }

  /** Timestamp to kWh; a later meter value overwrites an earlier one of the same time. */
  function Readings(m: Measurand, mvs: seq<MeterValue>): map<int, real> {
    if mvs == [] then map[]
    else
      var front, last := Readings(m, mvs[..|mvs| - 1]), mvs[|mvs| - 1];
      if Reading(m, last).Some? then front[last.timestamp := Reading(m, last).value] else front
  }

  lemma {:induction false} ExtremeKeys(s: set<int>) returns (least: int, greatest: int)
    requires s != {}
    ensures least in s && greatest in s && forall k :: k in s ==> least <= k <= greatest
  {
    Inhabited(s);
    var y :| y in s;
    var rest := s - {y};
    if rest == {} {
      least, greatest := y, y;
      assert s == {y};
    } else {
      least, greatest := ExtremeKeys(rest);
      if y < least { least := y; }
      if y > greatest { greatest := y; }
      assert forall k :: k in s ==> k == y || k in rest;
    }
  }

  function MinKey(s: set<int>): (k: int)
    requires s != {}
    ensures k in s && forall j :: j in s ==> k <= j
  {
    assert exists k :: k in s && forall j :: j in s ==> k <= j by {
      var least, greatest := ExtremeKeys(s);
    }
    var k :| k in s && forall j :: j in s ==> k <= j;
    k
  }

  function MaxKey(s: set<int>): (k: int)
    requires s != {}
    ensures k in s && forall j :: j in s ==> j <= k
  {
    assert exists k :: k in s && forall j :: j in s ==> j <= k by {
      var least, greatest := ExtremeKeys(s);
    }
    var k :| k in s && forall j :: j in s ==> j <= k;
    k
  }

  /** The values in order of their timestamps. */
  function SortedKwh(m: map<int, real>): (r: seq<real>)
    ensures |r| == |m|
    decreases |m|
  {
    if m == map[] then []
    else
      var k := MinKey(m.Keys);
      assert (m - {k}).Keys == m.Keys - {k};
      [m[k]] + SortedKwh(m - {k})
  }

  function SumFrom(start: real, vs: seq<real>): real
    decreases |vs|
  {
    if vs == [] then start else SumFrom(start + vs[0], vs[1..])
  }

  function TotalKwh(mvs: seq<MeterValue>, currentTotal: real, meterStart: Option<real>): real
    requires Sampling(mvs)
  {
    var valid := FilterValid(mvs);
    TotalOf(Readings(Register, valid), Readings(Interval, valid), Readings(Net, valid), currentTotal, meterStart)
  }

  function TotalOf(
    register: map<int, real>, interval: map<int, real>, net: map<int, real>, currentTotal: real, meterStart: Option<real>): real
  {
    if register != map[] then
      var sorted := SortedKwh(register);
      sorted[|sorted| - 1] - if meterStart.Some? then meterStart.value else sorted[0]
    else if interval != map[] then SumFrom(currentTotal, SortedKwh(interval))
    else if net != map[] then net[MaxKey(net.Keys)]
    else 0.0
  }

  function MeterStart(mvs: seq<MeterValue>): Option<real>
    requires Sampling(mvs)
  {
    var register := Readings(Register, FilterValid(mvs));
    if register != map[] then Some(SortedKwh(register)[0]) else None
  }
}
