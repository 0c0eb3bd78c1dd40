/**
 Laws of energy totals: streaming, splitting, reordering and re-expressing units change no total.
 */
module MeterLaws {
  import opened Options
  import opened Meter

  // ---- the sorted values of a map ----

  /** The first of the sorted values is the earliest reading and the last is the latest. */
  lemma {:induction false} SortedEnds(m: map<int, real>)
    requires m != map[]
    ensures SortedKwh(m) != [] && SortedKwh(m)[0] == m[MinKey(m.Keys)]
    ensures SortedKwh(m)[|SortedKwh(m)| - 1] == m[MaxKey(m.Keys)]
    decreases |m|
  {
    var k := MinKey(m.Keys);
    var rest := m - {k};
    assert rest.Keys == m.Keys - {k};
    if rest != map[] {
      SortedEnds(rest);
      MaxOfRest(m.Keys, k);
      assert rest[MaxKey(rest.Keys)] == m[MaxKey(m.Keys)];
    } else {
      assert m.Keys == {k};
    }
  }

  lemma MaxOfRest(s: set<int>, k: int)
    requires s != {} && k == MinKey(s) && s - {k} != {}
    ensures MaxKey(s - {k}) == MaxKey(s)
  {
    var most := MaxKey(s - {k});
    assert forall j :: j in s ==> j == k || j in s - {k};
    assert k <= most;
  }

  lemma {:induction false} SumFromShift(a: real, b: real, vs: seq<real>)
    ensures SumFrom(a + b, vs) == a + SumFrom(b, vs)
    decreases |vs|
  {
    if vs != [] {
      SumFromShift(a, b + vs[0], vs[1..]);
      assert a + b + vs[0] == a + (b + vs[0]);
    }
  }

  function Sum(m: map<int, real>): real {
    SumFrom(0.0, SortedKwh(m))
  }

  lemma SumMin(m: map<int, real>)
    requires m != map[]
    ensures var k := MinKey(m.Keys); Sum(m) == m[k] + Sum(m - {k})
  {
    var k := MinKey(m.Keys);
    var rest := SortedKwh(m - {k});
    assert ([m[k]] + rest)[1..] == rest;
    SumFromShift(m[k], 0.0, rest);
  }

  /** The sum does not depend on which reading is taken out first. */
  lemma {:induction false} SumAny(m: map<int, real>, k: int)
    requires k in m
    ensures Sum(m) == m[k] + Sum(m - {k})
    decreases |m|
  {
    var least := MinKey(m.Keys);
    SumMin(m);
    if k != least {
      SizeWithout(m, least);
      SumAny(m - {least}, k);
      MinWithout(m, k);
      SumMin(m - {k});
      assert m - {least} - {k} == m - {k} - {least};
    }
  }

  lemma SizeWithout(m: map<int, real>, k: int)
    requires k in m
    ensures |m - {k}| < |m|
  {
    assert (m - {k}).Keys == m.Keys - {k};
  }

  lemma MinWithout(m: map<int, real>, k: int)
    requires k in m && k != MinKey(m.Keys)
    ensures m - {k} != map[] && MinKey((m - {k}).Keys) == MinKey(m.Keys)
  {
    var least := MinKey(m.Keys);
    assert least in m - {k};
    assert (m - {k}).Keys == m.Keys - {k};
  }

  lemma UnionWithout(a: map<int, real>, b: map<int, real>, k: int)
    requires a.Keys !! b.Keys && k in a
    ensures k in a + b && (a + b)[k] == a[k] && a + b - {k} == (a - {k}) + b
    ensures (a - {k}).Keys !! b.Keys
  {
  }

  lemma {:induction false} SumUnion(a: map<int, real>, b: map<int, real>)
    requires a.Keys !! b.Keys
    ensures Sum(a + b) == Sum(a) + Sum(b)
    decreases |a|
  {
    if a == map[] {
      SumEmpty();
      assert a + b == b;
    } else {
      var k := MinKey(a.Keys);
      UnionWithout(a, b, k);
      SizeWithout(a, k);
      SumUnion(a - {k}, b);
      SumPeel(a, a + b, a - {k} + b, k);
    }
  }

  lemma SumEmpty()
    ensures Sum(map[]) == 0.0
  {
  }

  lemma SumPeel(a: map<int, real>, u: map<int, real>, v: map<int, real>, k: int)
    requires k in a && k in u && u[k] == a[k] && u - {k} == v
    ensures Sum(u) - Sum(a) == Sum(v) - Sum(a - {k})
  {
    SumAny(a, k);
    SumAny(u, k);
  }

  // ---- the maps of a batch ----

  lemma {:induction false} FilterConcat(a: seq<MeterValue>, b: seq<MeterValue>)
    requires Sampling(a) && Sampling(b)
    ensures Sampling(a + b) && FilterValid(a + b) == FilterValid(a) + FilterValid(b)
    decreases |a|
  {
    if a == [] {
      assert a + b == b;
    } else {
      var first, rest := if HasValidContext(a[0]) then [a[0]] else [], FilterValid(a[1..]);
      assert (a + b)[1..] == a[1..] + b;
      FilterConcat(a[1..], b);
      assert FilterValid(a + b) == first + (rest + FilterValid(b)) == (first + rest) + FilterValid(b);
    }
  }

  lemma {:induction false} FilterMembers(mvs: seq<MeterValue>)
    requires Sampling(mvs)
    ensures forall mv :: mv in FilterValid(mvs) <==> mv in mvs && HasValidContext(mv)
    decreases |mvs|
  {
    if mvs != [] {
      FilterMembers(mvs[1..]);
      assert mvs == [mvs[0]] + mvs[1..];
    }
  }

  lemma {:induction false} ReadingsConcat(m: Measurand, a: seq<MeterValue>, b: seq<MeterValue>)
    ensures Readings(m, a + b) == Readings(m, a) + Readings(m, b)
    decreases |b|
  {
    if b == [] {
      assert a + b == a;
    } else {
      assert (a + b)[..|a + b| - 1] == a + b[..|b| - 1];
      ReadingsConcat(m, a, b[..|b| - 1]);
    }
  }

  /** Last write wins: an entry is the reading of the last meter value of its time that has one. */
  lemma ReadingsLastWins(m: Measurand, mvs: seq<MeterValue>, t: int)
    ensures t in Readings(m, mvs) <==> exists i :: 0 <= i < |mvs| && HasReading(m, mvs[i], t)
    ensures t in Readings(m, mvs) ==> exists i :: 0 <= i < |mvs| && IsLastReading(m, mvs, t, i)
  {
    ReadingTimes(m, mvs, t);
    if t in Readings(m, mvs) {
      var i := LastReading(m, mvs, t);
    }
  }

  predicate HasReading(m: Measurand, mv: MeterValue, t: int) {
    mv.timestamp == t && Reading(m, mv).Some?
  }

  /** The entry at `t` is the reading of `mvs[i]`, and no later meter value of that time has one. */
  ghost predicate IsLastReading(m: Measurand, mvs: seq<MeterValue>, t: int, i: nat)
    requires i < |mvs| && t in Readings(m, mvs)
  {
    && HasReading(m, mvs[i], t) && Reading(m, mvs[i]).value == Readings(m, mvs)[t]
    && forall j :: i < j < |mvs| ==> !HasReading(m, mvs[j], t)
  }

  lemma {:induction false} ReadingTimes(m: Measurand, mvs: seq<MeterValue>, t: int)
    ensures t in Readings(m, mvs) <==> exists i :: 0 <= i < |mvs| && HasReading(m, mvs[i], t)
    decreases |mvs|
  {
    if mvs != [] {
      var front, last := mvs[..|mvs| - 1], mvs[|mvs| - 1];
      ReadingTimes(m, front, t);
      if exists i :: 0 <= i < |mvs| && HasReading(m, mvs[i], t) {
        var i :| 0 <= i < |mvs| && HasReading(m, mvs[i], t);
        if i < |front| { assert HasReading(m, front[i], t); }
      }
      if t in Readings(m, front) {
        var i :| 0 <= i < |front| && HasReading(m, front[i], t);
        assert HasReading(m, mvs[i], t);
      }
      if HasReading(m, last, t) { assert HasReading(m, mvs[|front|], t); }
    }
  }

  lemma {:induction false} LastReading(m: Measurand, mvs: seq<MeterValue>, t: int) returns (i: nat)
    requires t in Readings(m, mvs)
    ensures i < |mvs| && IsLastReading(m, mvs, t, i)
    decreases |mvs|
  {
    var front, last := mvs[..|mvs| - 1], mvs[|mvs| - 1];
    if HasReading(m, last, t) {
      i := |front|;
    } else {
      i := LastReading(m, front, t);
      StillLast(m, mvs, t, i);
    }
  }

  lemma StillLast(m: Measurand, mvs: seq<MeterValue>, t: int, i: nat)
    requires mvs != [] && !HasReading(m, mvs[|mvs| - 1], t) && i < |mvs| - 1
    requires t in Readings(m, mvs[..|mvs| - 1]) && IsLastReading(m, mvs[..|mvs| - 1], t, i)
    ensures t in Readings(m, mvs) && IsLastReading(m, mvs, t, i)
  {
    var front := mvs[..|mvs| - 1];
    assert Readings(m, mvs)[t] == Readings(m, front)[t];
    forall j | i < j < |mvs|
      ensures !HasReading(m, mvs[j], t)
    {
      if j < |front| { assert !HasReading(m, front[j], t); }
    }
  }

  lemma TimeOf(m: Measurand, mvs: seq<MeterValue>, t: int) returns (mv: MeterValue)
    requires t in Readings(m, mvs)
    ensures mv in mvs && mv.timestamp == t
  {
    ReadingsLastWins(m, mvs, t);
    var i :| 0 <= i < |mvs| && HasReading(m, mvs[i], t);
    mv := mvs[i];
  }

  lemma TotalOfMeans(register: map<int, real>, interval: map<int, real>, net: map<int, real>, c: real, start: Option<real>)
    ensures var total := TotalOf(register, interval, net, c, start);
            && (register != map[] ==>
                  total == register[MaxKey(register.Keys)]
                           - if start.Some? then start.value else register[MinKey(register.Keys)])
            && (register == map[] && interval != map[] ==> total == c + Sum(interval))
            && (register == map[] && interval == map[] && net != map[] ==> total == net[MaxKey(net.Keys)])
            && (register == map[] && interval == map[] && net == map[] ==> total == 0.0)
  {
    if register != map[] {
      SortedEnds(register);
    } else if interval != map[] {
      SumFromShift(c, 0.0, SortedKwh(interval));
    }
  }

  /** Which readings a total is made of: register ends, else all intervals, else the latest net reading. */
  lemma TotalMeans(mvs: seq<MeterValue>, c: real, start: Option<real>)
    requires Sampling(mvs)
    ensures var valid := FilterValid(mvs);
            var register, interval, net := Readings(Register, valid), Readings(Interval, valid), Readings(Net, valid);
            && (register != map[] ==>
                  TotalKwh(mvs, c, start) == register[MaxKey(register.Keys)]
                                             - if start.Some? then start.value else register[MinKey(register.Keys)])
            && (register == map[] && interval != map[] ==> TotalKwh(mvs, c, start) == c + Sum(interval))
            && (register == map[] && interval == map[] && net != map[] ==> TotalKwh(mvs, c, start) == net[MaxKey(net.Keys)])
            && (register == map[] && interval == map[] && net == map[] ==> TotalKwh(mvs, c, start) == 0.0)
  {
    var valid := FilterValid(mvs);
    TotalOfMeans(Readings(Register, valid), Readings(Interval, valid), Readings(Net, valid), c, start);
  }

  // ---- what a reading is made of ----

  /** The first unphased value of the measurand decides; later ones are not looked at. */
  lemma FirstUnphasedDecides(svs: seq<Sampled>, m: Measurand)
    ensures (forall i :: 0 <= i < |svs| ==> !IsUnphased(svs[i], m)) ==> FindMeasurand(svs, m).None?
    ensures forall i :: 0 <= i < |svs| && IsUnphased(svs[i], m) && (forall j :: 0 <= j < i ==> !IsUnphased(svs[j], m))
              ==> FindMeasurand(svs, m) == NormalizeToKwh(svs[i])
  {
    if forall i :: 0 <= i < |svs| ==> !IsUnphased(svs[i], m) {
      NoneUnphased(svs, m);
    }
    forall i | 0 <= i < |svs| && IsUnphased(svs[i], m) && (forall j :: 0 <= j < i ==> !IsUnphased(svs[j], m))
      ensures FindMeasurand(svs, m) == NormalizeToKwh(svs[i])
    {
      FirstUnphasedAt(svs, m, i);
    }
  }

  lemma {:induction false} NoneUnphased(svs: seq<Sampled>, m: Measurand)
    requires forall i :: 0 <= i < |svs| ==> !IsUnphased(svs[i], m)
    ensures FindMeasurand(svs, m).None?
  {
    if svs != [] {
      assert !IsUnphased(svs[0], m);
      NoneUnphased(svs[1..], m);
    }
  }

  lemma {:induction false} FirstUnphasedAt(svs: seq<Sampled>, m: Measurand, i: nat)
    requires i < |svs| && IsUnphased(svs[i], m) && forall j :: 0 <= j < i ==> !IsUnphased(svs[j], m)
    ensures FindMeasurand(svs, m) == NormalizeToKwh(svs[i])
    decreases i
  {
    if i > 0 {
      assert !IsUnphased(svs[0], m);
      forall j | 0 <= j < i - 1
        ensures !IsUnphased(svs[1..][j], m)
      {
        assert svs[1..][j] == svs[j + 1];
      }
      FirstUnphasedAt(svs[1..], m, i - 1);
    }
  }

  lemma {:induction false} PhaseMembers(svs: seq<Sampled>, m: Measurand, neutral: bool)
    ensures forall sv :: sv in PhaseValues(svs, m, neutral) <==> sv in svs && Phased(sv, m, neutral)
    decreases |svs|
  {
    if svs != [] {
      PhaseMembers(svs[1..], m, neutral);
      assert svs == [svs[0]] + svs[1..];
    }
  }

  /** An unphased energy value beats phases, line phases beat phase-to-neutral ones, and Net has no phases. */
  lemma ReadingFallsBack(mv: MeterValue, m: Measurand)
    ensures FindMeasurand(mv.sampledValue, m).Some? ==> Reading(m, mv) == FindMeasurand(mv.sampledValue, m)
    ensures FindMeasurand(mv.sampledValue, m).None? && m == Net ==> Reading(m, mv).None?
    ensures FindMeasurand(mv.sampledValue, m).None? && m != Net ==>
              var hasLines := exists sv :: sv in mv.sampledValue && IsLinePhase(sv, m);
              var hasNeutrals := exists sv :: sv in mv.sampledValue && IsNeutralPhase(sv, m);
              Reading(m, mv) == if hasLines then Some(SumKwh(PhaseValues(mv.sampledValue, m, false)))
                                else if hasNeutrals then Some(SumKwh(PhaseValues(mv.sampledValue, m, true)))
                                else None
  {
    PhaseMembers(mv.sampledValue, m, false);
    PhaseMembers(mv.sampledValue, m, true);
    forall neutral | PhaseValues(mv.sampledValue, m, neutral) != []
      ensures exists sv :: sv in mv.sampledValue && Phased(sv, m, neutral)
    {
      assert PhaseValues(mv.sampledValue, m, neutral)[0] in PhaseValues(mv.sampledValue, m, neutral);
    }
  }

  /** Alone, a value counts by its phase: unphased by itself, a line or neutral phase as a sum of one, others not. */
  lemma OneValue(m: Measurand, t: int, sv: Sampled)
    ensures Reading(m, MeterValue(t, [sv])) ==
            match sv.phase
            case None =>
              if sv.measurand == Some(m) || (sv.measurand.None? && m == Register) then NormalizeToKwh(sv) else None
            case Some(p) =>
              if sv.measurand == Some(m) && m != Net && !p.OtherPhase?
              then Some(match NormalizeToKwh(sv) case Some(v) => v case None => 0.0)
              else None
  {
    assert [sv][1..] == [] && [sv][..0] == [];
    var mv := MeterValue(t, [sv]);
    assert FindMeasurand([sv], m) == if IsUnphased(sv, m) then NormalizeToKwh(sv) else None;
    assert PhaseValues([sv], m, false) == if IsLinePhase(sv, m) then [sv] else [];
    assert PhaseValues([sv], m, true) == if IsNeutralPhase(sv, m) then [sv] else [];
    OnePhase(sv);
  }

  lemma OnePhase(sv: Sampled)
    ensures SumKwh([sv]) == match NormalizeToKwh(sv) case Some(v) => v case None => 0.0
  {
    assert [sv][..0] == [];
  }

  lemma {:induction false} SumConcat(a: seq<Sampled>, b: seq<Sampled>)
    ensures SumKwh(a + b) == SumKwh(a) + SumKwh(b)
    decreases |b|
  {
    if b == [] {
      assert a + b == a;
    } else {
      assert (a + b)[..|a + b| - 1] == a + b[..|b| - 1];
      SumConcat(a, b[..|b| - 1]);
    }
  }

  lemma {:induction false} PhasesConcat(a: seq<Sampled>, b: seq<Sampled>, m: Measurand, neutral: bool)
    ensures PhaseValues(a + b, m, neutral) == PhaseValues(a, m, neutral) + PhaseValues(b, m, neutral)
    decreases |a|
  {
    if a == [] {
      assert a + b == b;
    } else {
      var first, rest := if Phased(a[0], m, neutral) then [a[0]] else [], PhaseValues(a[1..], m, neutral);
      var others := PhaseValues(b, m, neutral);
      assert (a + b)[0] == a[0] && (a + b)[1..] == a[1..] + b;
      PhasesConcat(a[1..], b, m, neutral);
      assert first + (rest + others) == (first + rest) + others;
    }
  }

  predicate AllPhased(svs: seq<Sampled>) {
    forall i :: 0 <= i < |svs| ==> svs[i].phase.Some?
  }

  predicate HasLine(svs: seq<Sampled>, m: Measurand) {
    exists sv :: sv in svs && IsLinePhase(sv, m)
  }

  lemma HasLineIff(svs: seq<Sampled>, m: Measurand)
    ensures HasLine(svs, m) <==> PhaseValues(svs, m, false) != []
  {
    PhaseMembers(svs, m, false);
    if PhaseValues(svs, m, false) != [] {
      assert PhaseValues(svs, m, false)[0] in PhaseValues(svs, m, false);
    }
  }

  lemma PhasedReading(m: Measurand, t: int, svs: seq<Sampled>)
    requires m != Net && AllPhased(svs)
    ensures Reading(m, MeterValue(t, svs)) == SumPhased(svs, m)
  {
    NoneUnphased(svs, m);
  }

  function Plus(x: Option<real>, y: Option<real>): Option<real> {
    if x.None? then y else if y.None? then x else Some(x.value + y.value)
  }

  /**
   Phases add up: the reading of two lists of phased values is the sum of their readings, unless only one of them has
   line phases, which then counts alone.
   */
  lemma PhasesAddUp(m: Measurand, t: int, a: seq<Sampled>, b: seq<Sampled>)
    requires m != Net && AllPhased(a) && AllPhased(b)
    ensures var x, y := Reading(m, MeterValue(t, a)), Reading(m, MeterValue(t, b));
            Reading(m, MeterValue(t, a + b))
            == if HasLine(a, m) && !HasLine(b, m) then x
               else if HasLine(b, m) && !HasLine(a, m) then y
               else Plus(x, y)
  {
    PhasedReading(m, t, a);
    PhasedReading(m, t, b);
    PhasedReading(m, t, a + b);
    HasLineIff(a, m);
    HasLineIff(b, m);
    PhasesConcat(a, b, m, false);
    PhasesConcat(a, b, m, true);
    LinesFirstConcat(PhaseValues(a, m, false), PhaseValues(a, m, true), PhaseValues(b, m, false), PhaseValues(b, m, true));
  }

  lemma LinesFirstConcat(la: seq<Sampled>, na: seq<Sampled>, lb: seq<Sampled>, nb: seq<Sampled>)
    ensures LinesFirst(la + lb, na + nb)
         == if la != [] && lb == [] then LinesFirst(la, na)
            else if lb != [] && la == [] then LinesFirst(lb, nb)
            else Plus(LinesFirst(la, na), LinesFirst(lb, nb))
  {
    SumConcat(la, lb);
    SumConcat(na, nb);
    assert la == [] ==> la + lb == lb;
    assert lb == [] ==> la + lb == la;
    assert na == [] ==> na + nb == nb;
    assert nb == [] ==> na + nb == na;
  }

  /** The values that have a phase. */
  function PhasedOnly(svs: seq<Sampled>): (r: seq<Sampled>)
    ensures AllPhased(r)
  {
    if svs == [] then [] else (if svs[0].phase.Some? then [svs[0]] else []) + PhasedOnly(svs[1..])
  }

  lemma {:induction false} PhasesOfPhased(svs: seq<Sampled>, m: Measurand, neutral: bool)
    ensures PhaseValues(PhasedOnly(svs), m, neutral) == PhaseValues(svs, m, neutral)
    decreases |svs|
  {
    if svs != [] {
      PhasesOfPhased(svs[1..], m, neutral);
      var rest := PhasedOnly(svs[1..]);
      if svs[0].phase.Some? {
        assert ([svs[0]] + rest)[1..] == rest;
      } else {
        assert [] + rest == rest;
      }
    }
  }

  /** Without an unphased energy value, the reading is that of the phased values. */
  lemma FallsBackToPhases(m: Measurand, mv: MeterValue)
    requires m != Net && FindMeasurand(mv.sampledValue, m).None?
    ensures Reading(m, mv) == Reading(m, mv.(sampledValue := PhasedOnly(mv.sampledValue)))
  {
    PhasedReading(m, mv.timestamp, PhasedOnly(mv.sampledValue));
    PhasesOfPhased(mv.sampledValue, m, false);
    PhasesOfPhased(mv.sampledValue, m, true);
  }

  lemma SplitAt<T>(xs: seq<T>, i: nat)
    requires i < |xs|
    ensures xs == xs[..i] + ([xs[i]] + xs[i + 1..])
  {
  }

  lemma SameRest<T>(a: seq<T>, b: seq<T>, i: nat)
    requires multiset(a) == multiset(b) && a != [] && i < |b| && b[i] == a[0]
    ensures multiset(a[1..]) == multiset(b[..i] + b[i + 1..])
  {
    assert a == [a[0]] + a[1..];
    SplitAt(b, i);
    assert multiset(a[1..]) == multiset(a) - multiset{a[0]};
    assert multiset(b[..i] + b[i + 1..]) == multiset(b) - multiset{a[0]};
  }

  lemma {:induction false} SumPermuted(a: seq<Sampled>, b: seq<Sampled>)
    requires multiset(a) == multiset(b)
    ensures SumKwh(a) == SumKwh(b)
    decreases |a|
  {
    if a == [] {
      assert |multiset(b)| == 0;
    } else {
      assert a[0] in multiset(b);
      var i :| 0 <= i < |b| && b[i] == a[0];
      SameRest(a, b, i);
      SumPermuted(a[1..], b[..i] + b[i + 1..]);
      assert a == [a[0]] + a[1..];
      SumConcat([a[0]], a[1..]);
      SplitAt(b, i);
      SumConcat(b[..i], [b[i]] + b[i + 1..]);
      SumConcat([b[i]], b[i + 1..]);
      SumConcat(b[..i], b[i + 1..]);
    }
  }

  lemma {:induction false} PhasesPermuted(a: seq<Sampled>, b: seq<Sampled>, m: Measurand, neutral: bool)
    requires multiset(a) == multiset(b)
    ensures multiset(PhaseValues(a, m, neutral)) == multiset(PhaseValues(b, m, neutral))
    decreases |a|
  {
    if a == [] {
      assert |multiset(b)| == 0;
    } else {
      assert a[0] in multiset(b);
      var i :| 0 <= i < |b| && b[i] == a[0];
      SameRest(a, b, i);
      PhasesPermuted(a[1..], b[..i] + b[i + 1..], m, neutral);
      assert a == [a[0]] + a[1..];
      PhasesConcat([a[0]], a[1..], m, neutral);
      SplitAt(b, i);
      PhasesConcat(b[..i], [b[i]] + b[i + 1..], m, neutral);
      PhasesConcat([b[i]], b[i + 1..], m, neutral);
      PhasesConcat(b[..i], b[i + 1..], m, neutral);
    }
  }

  /** The order of the phases within a meter value does not matter. */
  lemma PhaseOrderIsIrrelevant(m: Measurand, t: int, a: seq<Sampled>, b: seq<Sampled>)
    requires m != Net && AllPhased(a) && AllPhased(b) && multiset(a) == multiset(b)
    ensures Reading(m, MeterValue(t, a)) == Reading(m, MeterValue(t, b))
  {
    PhasedReading(m, t, a);
    PhasedReading(m, t, b);
    forall neutral
      ensures SumKwh(PhaseValues(a, m, neutral)) == SumKwh(PhaseValues(b, m, neutral))
      ensures |PhaseValues(a, m, neutral)| == |PhaseValues(b, m, neutral)|
    {
      PhasesPermuted(a, b, m, neutral);
      SumPermuted(PhaseValues(a, m, neutral), PhaseValues(b, m, neutral));
      assert |multiset(PhaseValues(a, m, neutral))| == |multiset(PhaseValues(b, m, neutral))|;
    }
  }

  // ---- which meter values count ----

  /** A meter value of time `t` with a reading, whose first value has no context or one of a transaction. */
  predicate Counts(m: Measurand, mv: MeterValue, t: int)
    requires mv.sampledValue != []
  {
    && HasReading(m, mv, t)
    && (mv.sampledValue[0].context.None? || !mv.sampledValue[0].context.value.OtherContext?)
  }

  /** A time has a reading exactly if some meter value counts for it. */
  lemma ValidReadings(m: Measurand, mvs: seq<MeterValue>, t: int)
    requires Sampling(mvs)
    ensures t in Readings(m, FilterValid(mvs)) <==> exists mv :: mv in mvs && Counts(m, mv, t)
  {
    var valid := FilterValid(mvs);
    FilterMembers(mvs);
    ReadingTimes(m, valid, t);
    if t in Readings(m, valid) {
      var i :| 0 <= i < |valid| && HasReading(m, valid[i], t);
      assert valid[i] in mvs && Counts(m, valid[i], t);
    }
    forall mv | mv in mvs && Counts(m, mv, t)
      ensures t in Readings(m, valid)
    {
      assert mv in valid;
      var i :| 0 <= i < |valid| && valid[i] == mv;
      assert HasReading(m, valid[i], t);
    }
  }

  /** The meter start is the earliest register reading, if there is one. */
  lemma MeterStartMeans(mvs: seq<MeterValue>)
    requires Sampling(mvs)
    ensures var register := Readings(Register, FilterValid(mvs));
            MeterStart(mvs) == if register == map[] then None else Some(register[MinKey(register.Keys)])
  {
    if Readings(Register, FilterValid(mvs)) != map[] {
      SortedEnds(Readings(Register, FilterValid(mvs)));
    }
  }

  // ---- units ----

  /** `sv` with another unit and multiplier. */
  function InUnit(sv: Sampled, unit: Option<string>, multiplier: int): Sampled {
    sv.(unitOfMeasure := Some(Unit(unit, Some(multiplier))))
  }

  /** One more power of ten is ten times as much, up and down the whole scale, and does not make an energy of anything. */
  lemma MultiplierScales(sv: Sampled, unit: Option<string>, k: int)
    ensures match NormalizeToKwh(InUnit(sv, unit, k))
            case None => NormalizeToKwh(InUnit(sv, unit, k + 1)) == None
            case Some(v) => NormalizeToKwh(InUnit(sv, unit, k + 1)) == Some(10.0 * v)
  {
    var x, y := InUnit(sv, unit, k), InUnit(sv, unit, k + 1);
    assert UnitOf(x) == UnitOf(y) == unit && MultiplierOf(x) == k && MultiplierOf(y) == k + 1;
    ScaledStep(sv.value, k);
    ScaledStep(sv.value, k - 3);
  }

  lemma ScaledStep(v: real, k: int)
    ensures Scaled(v, k + 1) == 10.0 * Scaled(v, k)
  {
    Pow10Step(k);
    assert v * (10.0 * Pow10(k)) == 10.0 * (v * Pow10(k));
  }

  /** `u` is `name`, an upper-case word, in whatever letter case. */
  predicate Spells(u: Option<string>, name: string) {
    && u.Some? && |u.value| == |name|
    && forall i :: 0 <= i < |name| ==> u.value[i] == name[i] || u.value[i] as int == name[i] as int + 32
  }

  predicate UpperCase(name: string) {
    forall i :: 0 <= i < |name| ==> 'A' <= name[i] <= 'Z'
  }

  lemma {:induction false} UpperSpells(u: string, name: string)
    requires UpperCase(name)
    ensures Upper(u) == name <==> Spells(Some(u), name)
  {
    if u != "" && name != "" {
      UpperSpells(u[1..], name[1..]);
      assert Upper(u) == [UpperChar(u[0])] + Upper(u[1..]);
      assert Upper(u)[0] == UpperChar(u[0]) && Upper(u)[1..] == Upper(u[1..]);
      assert name == [name[0]] + name[1..];
      assert UpperChar(u[0]) == name[0] <==> u[0] == name[0] || u[0] as int == name[0] as int + 32;
      if Spells(Some(u), name) {
        assert forall i :: 0 <= i < |name[1..]| ==> name[1..][i] == name[i + 1] && u[1..][i] == u[i + 1];
      }
    }
  }

  /**
   The scale's anchors, in any letter case: kilo-units count as they are; base units, and values without a unit,
   are thousandths; anything else is no energy.
   */
  lemma UnitAnchors(sv: Sampled, unit: Option<string>)
    ensures NormalizeToKwh(InUnit(sv, unit, 0))
         == if unit.None? || Spells(unit, "WH") || Spells(unit, "VARH") || Spells(unit, "VAH") then Some(sv.value / 1000.0)
            else if Spells(unit, "KWH") || Spells(unit, "KVARH") || Spells(unit, "KVAH") then Some(sv.value)
            else None
    ensures sv.unitOfMeasure.None? ==> NormalizeToKwh(sv) == Some(sv.value / 1000.0)
    ensures sv.unitOfMeasure == Some(Unit(unit, None)) ==> NormalizeToKwh(sv) == NormalizeToKwh(InUnit(sv, unit, 0))
  {
    var x := InUnit(sv, unit, 0);
    assert UnitOf(x) == unit && MultiplierOf(x) == 0;
    UnitLists(unit);
    UnitLists(None);
    ScaledAnchors(sv.value);
  }

  lemma UnitLists(u: Option<string>)
    ensures IsKiloUnit(u) <==> Spells(u, "KWH") || Spells(u, "KVARH") || Spells(u, "KVAH")
    ensures IsBaseUnit(u) <==> u.None? || Spells(u, "WH") || Spells(u, "VARH") || Spells(u, "VAH")
    ensures !(IsKiloUnit(u) && IsBaseUnit(u))
  {
    if u.Some? {
      UpperSpells(u.value, "KWH");
      UpperSpells(u.value, "KVARH");
      UpperSpells(u.value, "KVAH");
      UpperSpells(u.value, "WH");
      UpperSpells(u.value, "VARH");
      UpperSpells(u.value, "VAH");
    }
  }

  lemma ScaledAnchors(v: real)
    ensures Scaled(v, 0) == v && Scaled(v, -3) == v / 1000.0
  {
    ScaledStep(v, -1);
    ScaledStep(v, -2);
    ScaledStep(v, -3);
  }

  // ---- streaming register totals ----

  predicate HasRegister(mvs: seq<MeterValue>)
    requires Sampling(mvs)
  {
    Readings(Register, FilterValid(mvs)) != map[]
  }

  predicate Later(a: seq<MeterValue>, b: seq<MeterValue>) {
    forall x, y :: x in a && y in b ==> x.timestamp < y.timestamp
  }

  lemma LaterReadings(m: Measurand, a: seq<MeterValue>, b: seq<MeterValue>)
    requires Sampling(a) && Sampling(b) && Later(a, b)
    ensures forall s, t :: s in Readings(m, FilterValid(a)) && t in Readings(m, FilterValid(b)) ==> s < t
  {
    FilterMembers(a);
    FilterMembers(b);
    forall s, t | s in Readings(m, FilterValid(a)) && t in Readings(m, FilterValid(b))
      ensures s < t
    {
      var x := TimeOf(m, FilterValid(a), s);
      var y := TimeOf(m, FilterValid(b), t);
    }
  }

  /** Keeping only the meter start of what has been seen gives the same total as keeping all of it. */
  lemma RegisterStreaming(seen: seq<MeterValue>, added: seq<MeterValue>, currentTotal: real)
    requires Sampling(seen) && Sampling(added) && Later(seen, added) && HasRegister(seen) && HasRegister(added)
    ensures Sampling(seen + added)
    ensures TotalKwh(seen + added, currentTotal, None) == TotalKwh(added, currentTotal, MeterStart(seen))
    ensures MeterStart(seen + added) == MeterStart(seen)
  {
    ReadingsOfBoth(Register, seen, added);
    LaterReadings(Register, seen, added);
    EndsOfUnion(Readings(Register, FilterValid(seen)), Readings(Register, FilterValid(added)));
  }

  lemma EndsOfUnion(a: map<int, real>, b: map<int, real>)
    requires a != map[] && b != map[] && forall s, t :: s in a && t in b ==> s < t
    ensures a + b != map[] && SortedKwh(a + b)[0] == SortedKwh(a)[0]
    ensures SortedKwh(a + b)[|SortedKwh(a + b)| - 1] == SortedKwh(b)[|SortedKwh(b)| - 1]
  {
    var u := a + b;
    assert u.Keys == a.Keys + b.Keys;
    ExtremesOfUnion(a.Keys, b.Keys);
    var first, last := MinKey(a.Keys), MaxKey(b.Keys);
    assert first in a && first !in b && last in b;
    assert u[first] == a[first] && u[last] == b[last];
    SortedEnds(a);
    SortedEnds(b);
    SortedEnds(u);
  }

  lemma ExtremesOfUnion(s: set<int>, t: set<int>)
    requires s != {} && t != {} && forall x, y :: x in s && y in t ==> x < y
    ensures s + t != {} && MinKey(s + t) == MinKey(s) && MaxKey(s + t) == MaxKey(t)
  {
    assert MinKey(s) in s + t && MaxKey(t) in s + t;
  }

  // ---- splitting interval totals ----

  predicate IntervalOnly(mvs: seq<MeterValue>)
    requires Sampling(mvs)
  {
    Readings(Register, FilterValid(mvs)) == map[] && Readings(Interval, FilterValid(mvs)) != map[]
  }

  predicate DisjointTimes(a: seq<MeterValue>, b: seq<MeterValue>) {
    forall x, y :: x in a && y in b ==> x.timestamp != y.timestamp
  }

  lemma IntervalTotal(mvs: seq<MeterValue>, c: real, start: Option<real>)
    requires Sampling(mvs) && IntervalOnly(mvs)
    ensures TotalKwh(mvs, c, start) == c + Sum(Readings(Interval, FilterValid(mvs)))
  {
    TotalMeans(mvs, c, start);
  }

  lemma DisjointReadings(m: Measurand, a: seq<MeterValue>, b: seq<MeterValue>)
    requires Sampling(a) && Sampling(b) && DisjointTimes(a, b)
    ensures Readings(m, FilterValid(a)).Keys !! Readings(m, FilterValid(b)).Keys
  {
    FilterMembers(a);
    FilterMembers(b);
    forall s, t | s in Readings(m, FilterValid(a)) && t in Readings(m, FilterValid(b))
      ensures s != t
    {
      var x := TimeOf(m, FilterValid(a), s);
      var y := TimeOf(m, FilterValid(b), t);
    }
  }

  lemma ReadingsOfBoth(m: Measurand, a: seq<MeterValue>, b: seq<MeterValue>)
    requires Sampling(a) && Sampling(b)
    ensures Sampling(a + b)
    ensures Readings(m, FilterValid(a + b)) == Readings(m, FilterValid(a)) + Readings(m, FilterValid(b))
  {
    FilterConcat(a, b);
    ReadingsConcat(m, FilterValid(a), FilterValid(b));
  }

  /** Adding up two batches one after the other is adding up both at once. */
  lemma IntervalSplitting(a: seq<MeterValue>, b: seq<MeterValue>, c: real, start: Option<real>)
    requires Sampling(a) && Sampling(b) && IntervalOnly(a) && IntervalOnly(b) && DisjointTimes(a, b)
    ensures Sampling(a + b)
    ensures TotalKwh(a + b, c, start) == TotalKwh(b, TotalKwh(a, c, start), start)
  {
    ReadingsOfBoth(Register, a, b);
    ReadingsOfBoth(Interval, a, b);
    DisjointReadings(Interval, a, b);
    SumUnion(Readings(Interval, FilterValid(a)), Readings(Interval, FilterValid(b)));
    assert MinKey(Readings(Interval, FilterValid(a)).Keys) in Readings(Interval, FilterValid(a + b));
    IntervalTotal(a, c, start);
    IntervalTotal(b, TotalKwh(a, c, start), start);
    IntervalTotal(a + b, c, start);
  }

  // ---- reordering ----

  predicate DistinctTimes(mvs: seq<MeterValue>) {
    forall x, y :: x in mvs && y in mvs && x.timestamp == y.timestamp ==> x == y
  }

  lemma ReadingsByMembers(m: Measurand, a: seq<MeterValue>, b: seq<MeterValue>)
    requires DistinctTimes(a) && forall x :: x in a <==> x in b
    ensures Readings(m, a) == Readings(m, b)
  {
    forall t
      ensures t in Readings(m, a) <==> t in Readings(m, b)
      ensures t in Readings(m, a) && t in Readings(m, b) ==> Readings(m, a)[t] == Readings(m, b)[t]
    {
      ReadingsLastWins(m, a, t);
      ReadingsLastWins(m, b, t);
      assert forall i :: 0 <= i < |a| ==> a[i] in b;
      assert forall i :: 0 <= i < |b| ==> b[i] in a;
    }
  }

  /** With one meter value per time, the order they are listed in does not matter. */
  lemma TotalIgnoresOrder(a: seq<MeterValue>, b: seq<MeterValue>, c: real, start: Option<real>)
    requires Sampling(a) && DistinctTimes(a) && multiset(a) == multiset(b)
    ensures Sampling(b)
    ensures TotalKwh(a, c, start) == TotalKwh(b, c, start) && MeterStart(a) == MeterStart(b)
  {
    forall x
      ensures x in a <==> x in b
    {
      assert x in a <==> x in multiset(a);
    }
    FilterMembers(a);
    FilterMembers(b);
    ReadingsByMembers(Register, FilterValid(a), FilterValid(b));
    ReadingsByMembers(Interval, FilterValid(a), FilterValid(b));
    ReadingsByMembers(Net, FilterValid(a), FilterValid(b));
  }

  // ---- re-expressing units ----

  lemma {:induction false} Pow10Step(k: int)
    ensures Pow10(k + 1) == 10.0 * Pow10(k)
    decreases if k < 0 then -k else k
  {
    if k < 0 { assert Pow10(k) == Pow10(k + 1) / 10.0; }
  }

  lemma ThousandBase(k: int)
    ensures 1000.0 * Pow10(k - 3) == Pow10(k)
  {
    Pow10Step(k - 3);
    Pow10Step(k - 2);
    Pow10Step(k - 1);
  }

  /** The same quantity: unchanged, or a kilo-unit value written as a thousand times as many base units. */
  predicate SameQuantity(x: Sampled, y: Sampled) {
    x == y
    || (&& x.context == y.context && x.measurand == y.measurand && x.phase == y.phase
        && IsKiloUnit(UnitOf(x)) && IsBaseUnit(UnitOf(y)) && MultiplierOf(x) == MultiplierOf(y)
        && y.value == 1000.0 * x.value)
  }

  predicate SameQuantities(a: seq<Sampled>, b: seq<Sampled>) {
    |a| == |b| && forall i :: 0 <= i < |a| ==> SameQuantity(a[i], b[i])
  }

  predicate SameBatch(a: seq<MeterValue>, b: seq<MeterValue>) {
    |a| == |b| && forall i :: 0 <= i < |a| ==>
      a[i].timestamp == b[i].timestamp && SameQuantities(a[i].sampledValue, b[i].sampledValue)
  }

  lemma NormalizeSame(x: Sampled, y: Sampled)
    requires SameQuantity(x, y)
    ensures NormalizeToKwh(x) == NormalizeToKwh(y)
  {
    if x != y {
      var k := MultiplierOf(x);
      ThousandBase(k);
      assert Scaled(y.value, k - 3) == Scaled(x.value, k) by {
        assert 1000.0 * x.value * Pow10(k - 3) == x.value * (1000.0 * Pow10(k - 3));
      }
      assert !IsKiloUnit(UnitOf(y));
    }
  }

  lemma {:induction false} FindSame(a: seq<Sampled>, b: seq<Sampled>, m: Measurand)
    requires SameQuantities(a, b)
    ensures FindMeasurand(a, m) == FindMeasurand(b, m)
    decreases |a|
  {
    if a != [] {
      NormalizeSame(a[0], b[0]);
      FindSame(a[1..], b[1..], m);
    }
  }

  lemma {:induction false} PhasesSame(a: seq<Sampled>, b: seq<Sampled>, m: Measurand, neutral: bool)
    requires SameQuantities(a, b)
    ensures SameQuantities(PhaseValues(a, m, neutral), PhaseValues(b, m, neutral))
    decreases |a|
  {
    if a != [] {
      PhasesSame(a[1..], b[1..], m, neutral);
    }
  }

  lemma {:induction false} SumSame(a: seq<Sampled>, b: seq<Sampled>)
    requires SameQuantities(a, b)
    ensures SumKwh(a) == SumKwh(b)
    decreases |a|
  {
    if a != [] {
      NormalizeSame(a[|a| - 1], b[|b| - 1]);
      SumSame(a[..|a| - 1], b[..|b| - 1]);
    }
  }

  lemma ReadingSame(m: Measurand, x: MeterValue, y: MeterValue)
    requires SameQuantities(x.sampledValue, y.sampledValue)
    ensures Reading(m, x) == Reading(m, y)
  {
    FindSame(x.sampledValue, y.sampledValue, m);
    PhasesSame(x.sampledValue, y.sampledValue, m, false);
    PhasesSame(x.sampledValue, y.sampledValue, m, true);
    SumSame(PhaseValues(x.sampledValue, m, false), PhaseValues(y.sampledValue, m, false));
    SumSame(PhaseValues(x.sampledValue, m, true), PhaseValues(y.sampledValue, m, true));
  }

  lemma {:induction false} ReadingsSame(m: Measurand, a: seq<MeterValue>, b: seq<MeterValue>)
    requires SameBatch(a, b)
    ensures Readings(m, a) == Readings(m, b)
    decreases |a|
  {
    if a != [] {
      ReadingSame(m, a[|a| - 1], b[|b| - 1]);
      ReadingsSame(m, a[..|a| - 1], b[..|b| - 1]);
    }
  }

  lemma SameBatchCons(x: MeterValue, y: MeterValue, a: seq<MeterValue>, b: seq<MeterValue>)
    requires x.timestamp == y.timestamp && SameQuantities(x.sampledValue, y.sampledValue) && SameBatch(a, b)
    ensures SameBatch([x] + a, [y] + b)
  {
  }

  lemma {:induction false} FilterSame(a: seq<MeterValue>, b: seq<MeterValue>)
    requires Sampling(a) && Sampling(b) && SameBatch(a, b)
    ensures SameBatch(FilterValid(a), FilterValid(b))
    decreases |a|
  {
    if a != [] {
      assert SameQuantity(a[0].sampledValue[0], b[0].sampledValue[0]);
      assert SameBatch(a[1..], b[1..]);
      FilterSame(a[1..], b[1..]);
      assert HasValidContext(a[0]) == HasValidContext(b[0]);
      if HasValidContext(a[0]) {
        SameBatchCons(a[0], b[0], FilterValid(a[1..]), FilterValid(b[1..]));
      }
    }
  }

  /** Writing any of the kilo-unit readings in base units changes neither total nor meter start. */
  lemma UnitsDoNotMatter(a: seq<MeterValue>, b: seq<MeterValue>, c: real, start: Option<real>)
    requires Sampling(a) && Sampling(b) && SameBatch(a, b)
    ensures TotalKwh(a, c, start) == TotalKwh(b, c, start) && MeterStart(a) == MeterStart(b)
  {
    FilterSame(a, b);
    ReadingsSame(Register, FilterValid(a), FilterValid(b));
    ReadingsSame(Interval, FilterValid(a), FilterValid(b));
    ReadingsSame(Net, FilterValid(a), FilterValid(b));
  }
}
