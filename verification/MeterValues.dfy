/** Extraction of the main readings from the meter values of a transaction event. */
module MeterValues {
  import opened Wrappers

  datatype Measurand = PowerActiveImport | EnergyActiveImportRegister | Missing | SoC | OtherMeasurand(name: string)

  /** A missing unit object and a unit object without a unit are treated alike, so both are `None`. */
  datatype Sample = Sample(measurand: Option<Measurand>, value: real, unit: Option<string>)

  datatype MeterValue = MeterValue(timestamp: int, samples: seq<Sample>)

  datatype Readings = Readings(meterKWH: real, currentChargeKW: real, stateOfCharge: real, meterTime: Option<int>)

  /** A sample together with the timestamp of the meter value that holds it. */
  datatype Stamped = Stamped(sample: Sample, timestamp: int)

  predicate IsPower(s: Sample) {
    s.measurand == Some(PowerActiveImport)
  }

  predicate IsEnergy(s: Sample) {
    s.measurand == Some(EnergyActiveImportRegister) || s.measurand == Some(Missing)
  }

  predicate IsCharge(s: Sample) {
    s.measurand == Some(SoC)
  }

  /** A reading without a unit counts as one in the small unit. */
  function Kilo(value: real, smallUnit: bool): real {
    if smallUnit then value / 1000.0 else value
  }

  predicate InWatt(unit: Option<string>) {
    unit == Some("W") || unit == Some("VA") || unit == Some("var") || unit.None?
  }

  predicate InWattHours(unit: Option<string>) {
    unit == Some("Wh") || unit == Some("VAh") || unit == Some("varh") || unit.None?
  }

  /** All samples in the order in which the two nested loops visit them. */
  function Flat(values: seq<MeterValue>): (flat: seq<Stamped>) {
    if values == [] then []
    else Flat(values[..|values| - 1]) + Stamps(values[|values| - 1], |values[|values| - 1].samples|)
  }

  function Stamps(v: MeterValue, n: nat): (flat: seq<Stamped>)
    requires n <= |v.samples|
    ensures |flat| == n
    ensures forall i :: 0 <= i < n ==> flat[i] == Stamped(v.samples[i], v.timestamp)
  {
    seq(n, i requires 0 <= i < n => Stamped(v.samples[i], v.timestamp))
  }

  /** The last sample of a kind, which is the one that decides the reading. */
  function Last(flat: seq<Stamped>, kind: Sample -> bool): Option<Stamped> {
    if flat == [] then None
    else if kind(flat[|flat| - 1].sample) then Some(flat[|flat| - 1])
    else Last(flat[..|flat| - 1], kind)
  }

  lemma {:induction false} LastIsLast(flat: seq<Stamped>, kind: Sample -> bool)
    ensures Last(flat, kind).None? <==> forall i :: 0 <= i < |flat| ==> !kind(flat[i].sample)
    ensures Last(flat, kind).Some? ==>
              exists i :: 0 <= i < |flat| && flat[i] == Last(flat, kind).value && kind(flat[i].sample)
                          && forall j :: i < j < |flat| ==> !kind(flat[j].sample)
  {
    if flat != [] && !kind(flat[|flat| - 1].sample) {
      LastIsLast(flat[..|flat| - 1], kind);
    }
  }

  /** The readings as a function of which sample of each kind came last; -1 stands for "no reading". */
  function ReadingsOf(flat: seq<Stamped>): Readings {
    var energy, power, charge := Last(flat, IsEnergy), Last(flat, IsPower), Last(flat, IsCharge);
    Readings(
      if energy.Some? then Kilo(energy.value.sample.value, InWattHours(energy.value.sample.unit)) else -1.0,
      if power.Some? then Kilo(power.value.sample.value, InWatt(power.value.sample.unit)) else -1.0,
      if charge.Some? then charge.value.sample.value else -1.0,
      if energy.Some? then Some(energy.value.timestamp) else None)
  }

  /** Appending a sample moves only the reading of its own kind. */
  lemma AppendSample(flat: seq<Stamped>, s: Stamped)
    ensures ReadingsOf(flat + [s]) ==
            var r := ReadingsOf(flat);
            if IsPower(s.sample) then r.(currentChargeKW := Kilo(s.sample.value, InWatt(s.sample.unit)))
            else if IsEnergy(s.sample) then
              r.(meterKWH := Kilo(s.sample.value, InWattHours(s.sample.unit)), meterTime := Some(s.timestamp))
            else if IsCharge(s.sample) then r.(stateOfCharge := s.sample.value)
            else r
  {
    assert (flat + [s])[..|flat|] == flat;
  }

  lemma FlatPrefix(values: seq<MeterValue>, i: nat)
    requires i < |values|
    ensures Flat(values[..i + 1]) == Flat(values[..i]) + Stamps(values[i], |values[i].samples|)
  {
    assert values[..i + 1][..i] == values[..i];
  }

  /** GetMeterValues: two nested loops that keep overwriting the readings. */
  method GetMeterValues(values: seq<MeterValue>) returns (r: Readings)
    ensures r == ReadingsOf(Flat(values))
  {
    r := Readings(-1.0, -1.0, -1.0, None);
    for i := 0 to |values|
      invariant r == ReadingsOf(Flat(values[..i]))
    {
      r := ReadSamples(values[i], Flat(values[..i]), r);
      FlatPrefix(values, i);
    }
    assert values[..|values|] == values;
  }

  /** The inner loop of GetMeterValues, continuing from the readings of the samples before it. */
  method ReadSamples(v: MeterValue, ghost before: seq<Stamped>, start: Readings) returns (r: Readings)
    requires start == ReadingsOf(before)
    ensures r == ReadingsOf(before + Stamps(v, |v.samples|))
  {
    var meterKWH, currentChargeKW, stateOfCharge, meterTime :=
      start.meterKWH, start.currentChargeKW, start.stateOfCharge, start.meterTime;
    assert before + Stamps(v, 0) == before;
    for k := 0 to |v.samples|
      invariant Readings(meterKWH, currentChargeKW, stateOfCharge, meterTime) == ReadingsOf(before + Stamps(v, k))
    {
      var s := v.samples[k];
      AppendSample(before + Stamps(v, k), Stamped(s, v.timestamp));
      assert before + Stamps(v, k) + [Stamped(s, v.timestamp)] == before + Stamps(v, k + 1);
      if IsPower(s) {
        currentChargeKW := s.value;
        if InWatt(s.unit) {
          currentChargeKW := currentChargeKW / 1000.0;
        }
      } else if IsEnergy(s) {
        meterKWH := s.value;
        if InWattHours(s.unit) {
          meterKWH := meterKWH / 1000.0;
        }
        meterTime := Some(v.timestamp);
      } else if IsCharge(s) {
        stateOfCharge := s.value;
      }
    }
    r := Readings(meterKWH, currentChargeKW, stateOfCharge, meterTime);
  }
}
