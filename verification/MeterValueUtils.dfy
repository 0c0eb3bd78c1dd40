/**
 The loops of the meter value utilities, each computing the function that specifies it.
 */
module MeterValueUtils {
  import opened Options
  import opened Meter
  import opened MeterLaws

  /** The map builders of the register, interval and net measurands. */
  method GetValuesMap(m: Measurand, mvs: seq<MeterValue>) returns (valuesMap: map<int, real>)
    ensures valuesMap == Readings(m, mvs)
  {
    valuesMap := map[];
    for i := 0 to |mvs|
      invariant valuesMap == Readings(m, mvs[..i])
    {
      assert mvs[..i + 1][..i] == mvs[..i];
      var mv := mvs[i];
      var val := FindMeasurand(mv.sampledValue, m);
      if val.None? && m != Net {
        val := SumPhasedValues(mv.sampledValue, m);
      }
      if val.Some? {
        valuesMap := valuesMap[mv.timestamp := val.value];
      }
    }
    assert mvs[..|mvs|] == mvs;
  }

  method SumPhasedValues(svs: seq<Sampled>, m: Measurand) returns (total: Option<real>)
    ensures total == SumPhased(svs, m)
    ensures m != Net && AllPhased(svs) ==> forall t :: Reading(m, MeterValue(t, svs)) == total
  {
    if m != Net && AllPhased(svs) {
      forall t ensures Reading(m, MeterValue(t, svs)) == SumPhased(svs, m) { PhasedReading(m, t, svs); }
    }
    var phaseValues := PhaseValues(svs, m, false);
    if |phaseValues| == 0 {
      phaseValues := PhaseValues(svs, m, true);
      if |phaseValues| == 0 {
        return None;
      }
    }
    var sum := 0.0;
    for i := 0 to |phaseValues|
      invariant sum == SumKwh(phaseValues[..i])
    {
      assert phaseValues[..i + 1][..i] == phaseValues[..i];
      var v := NormalizeToKwh(phaseValues[i]);
      if v.Some? {
        sum := sum + v.value;
      }
    }
    assert phaseValues[..|phaseValues|] == phaseValues;
    total := Some(sum);
  }

  method AddUp(start: real, vs: seq<real>) returns (total: real)
    ensures total == SumFrom(start, vs)
  {
    total := start;
    for i := 0 to |vs|
      invariant SumFrom(total, vs[i..]) == SumFrom(start, vs)
    {
      assert vs[i..][1..] == vs[i + 1..];
      total := total + vs[i];
    }
  }

  method GetTotalKwh(mvs: seq<MeterValue>, currentTotal: real, meterStart: Option<real>) returns (total: real)
    requires Sampling(mvs)
    ensures total == TotalKwh(mvs, currentTotal, meterStart)
  {
    var filteredValues := FilterValid(mvs);
    if |filteredValues| == 0 {
      return 0.0;
    }
    var registerMap := GetValuesMap(Register, filteredValues);
    if |registerMap| > 0 {
      var sorted := SortedKwh(registerMap);
      var start := if meterStart.None? then sorted[0] else meterStart.value;
      return sorted[|sorted| - 1] - start;
    }
    assert registerMap == map[];
    var intervalMap := GetValuesMap(Interval, filteredValues);
    if |intervalMap| > 0 {
      total := AddUp(currentTotal, SortedKwh(intervalMap));
      return;
    }
    assert intervalMap == map[];
    var netMap := GetValuesMap(Net, filteredValues);
    if |netMap| > 0 {
      return netMap[MaxKey(netMap.Keys)];
    }
    return 0.0;
  }
}
