/** The snapshots the IoT side asks for: get_skid_status and get_unit_status
    read the flags, state and error word of the newest record in a window,
    raise the alert flag when the state has just become Lock or Safe, and
    summarise every analogue sensor over all 30 samples. Each returns the
    same `static` record every time, so the only thing one snapshot hands
    to the next is what the statistics pass leaves in the status slots. */
module Snapshot {
  import opened Bytes
  import opened SystemData
  import opened SampleWindow
  import opened Statistics

  // get_sensor_value

  /** The analogue fields of a skid record. */
  function SkidReadings(s: SkidStatus): seq<real>
  {
    [s.o2Sensor, s.massFlow, s.co2Sensor, s.tankPressure, s.proportionalValvePressure, s.temperature, s.humidity]
  }

  /** The analogue fields of a unit record, the nine heaters last. */
  function UnitReadings(u: UnitStatus): seq<real>
  {
    [u.vacuumSensor, u.ambientHumidity, u.ambientTemperature] + u.heaterTemperatures
  }

  /** The reading a sensor name selects from a pair of records; `heater`
      picks the heater for UNIT_HEATER and is ignored otherwise. A skid
      sensor reads one of the skid record's analogue fields and a unit
      sensor one of the unit record's. */
  function Reading(u: UnitStatus, s: SkidStatus, name: SensorName, heater: nat): (r: real)
    requires heater < NumberOfHeaters
    ensures name.OnSkid() ==> r in SkidReadings(s)
    ensures !name.OnSkid() ==> r in UnitReadings(u)
  {
    match name
    case SkidO2 => s.o2Sensor
    case SkidMassFlow => s.massFlow
    case SkidCo2 => s.co2Sensor
    case SkidProportionalValveSensor => s.proportionalValvePressure
    case SkidTemperature => s.temperature
    case SkidHumidity => s.humidity
    case UnitVacuumSensor => u.vacuumSensor
    case UnitAmbientHumidity => u.ambientHumidity
    case UnitAmbientTemperature => u.ambientTemperature
    case UnitHeater => u.heaterTemperatures[heater]
    case TankPressure => s.tankPressure
  }

  /** A skid sensor is read from the skid record alone and a unit sensor
      from the unit record alone. */
  lemma ReadingSide(u: UnitStatus, u': UnitStatus, s: SkidStatus, s': SkidStatus, name: SensorName, heater: nat)
    requires heater < NumberOfHeaters
    ensures name.OnSkid() ==> Reading(u, s, name, heater) == Reading(u', s, name, heater)
    ensures !name.OnSkid() ==> Reading(u, s, name, heater) == Reading(u, s', name, heater)
  {
  }

  /** Sample `i` of a sensor: slot `i` of its window, in storage order and
      not in order of arrival. */
  function SensorValue(units: Window<UnitStatus>, skids: Window<SkidStatus>, i: nat, name: SensorName, heater: nat): (r: real)
    requires units.Valid() && skids.Valid()
    requires i < NumberOfSamples && heater < NumberOfHeaters
    ensures name.OnSkid() ==> r in SkidReadings(skids.slots[i])
    ensures !name.OnSkid() ==> r in UnitReadings(units.slots[i])
  {
    Reading(units.slots[i], skids.slots[i], name, heater)
  }

  /** The 30 samples one statistics pass reads, sample 0 first. */
  function Samples(units: Window<UnitStatus>, skids: Window<SkidStatus>, name: SensorName, heater: nat): (s: seq<real>)
    requires units.Valid() && skids.Valid() && heater < NumberOfHeaters
    ensures |s| == NumberOfSamples
  {
    seq(NumberOfSamples, i requires 0 <= i < NumberOfSamples => SensorValue(units, skids, i, name, heater))
  }

  /** A skid write replaces exactly one sample of every skid sensor, the one
      under the old cursor, and no sample of any unit sensor. */
  lemma SamplesAfterSkidWrite(units: Window<UnitStatus>, skids: Window<SkidStatus>, rec: SkidStatus, name: SensorName, heater: nat)
    requires units.Valid() && skids.Valid() && heater < NumberOfHeaters
    ensures var before := Samples(units, skids, name, heater);
      Samples(units, Write(skids, rec), name, heater) ==
        if name.OnSkid() then before[skids.cursor := Reading(units.slots[skids.cursor], rec, name, heater)] else before
  {
    var before := Samples(units, skids, name, heater);
    var after := Samples(units, Write(skids, rec), name, heater);
    if name.OnSkid() {
      assert forall i :: 0 <= i < NumberOfSamples ==>
        after[i] == before[skids.cursor := Reading(units.slots[skids.cursor], rec, name, heater)][i];
    } else {
      assert forall i :: 0 <= i < NumberOfSamples ==> after[i] == before[i];
    }
  }

  /** A unit write replaces exactly one sample of every unit sensor and no
      sample of any skid sensor. */
  lemma SamplesAfterUnitWrite(units: Window<UnitStatus>, skids: Window<SkidStatus>, rec: UnitStatus, name: SensorName, heater: nat)
    requires units.Valid() && skids.Valid() && heater < NumberOfHeaters
    ensures var before := Samples(units, skids, name, heater);
      Samples(Write(units, rec), skids, name, heater) ==
        if name.OnSkid() then before else before[units.cursor := Reading(rec, skids.slots[units.cursor], name, heater)]
  {
    var before := Samples(units, skids, name, heater);
    var after := Samples(Write(units, rec), skids, name, heater);
    if name.OnSkid() {
      assert forall i :: 0 <= i < NumberOfSamples ==> after[i] == before[i];
    } else {
      assert forall i :: 0 <= i < NumberOfSamples ==>
        after[i] == before[units.cursor := Reading(rec, skids.slots[units.cursor], name, heater)][i];
    }
  }

  /** After 30 or more skid records have arrived, every sample of a skid
      sensor comes from one of the last 30 of them. */
  lemma SkidSamplesAreRecent(units: Window<UnitStatus>, skids: Window<SkidStatus>, recs: seq<SkidStatus>, name: SensorName, i: nat)
    requires units.Valid() && skids.Valid() && name.OnSkid()
    requires NumberOfSamples <= |recs| && i < NumberOfSamples
    ensures exists k :: (|recs| - NumberOfSamples <= k < |recs| &&
      Samples(units, WriteAll(skids, recs), name, 0)[i] == Reading(units.slots[i], recs[k], name, 0))
  {
    var w := WriteAll(skids, recs);
    WindowHoldsOnlyRecentWrites(skids, recs, i);
    var recent := recs[|recs| - NumberOfSamples..];
    var m :| 0 <= m < |recent| && recent[m] == w.slots[i];
    assert recs[|recs| - NumberOfSamples + m] == w.slots[i];
  }

  // The alert rule both snapshots share

  /** Raise the alert when the newest state is Lock and the caller's last
      state was not, or when it is Safe and the last state was not: it
      fires exactly on entering Lock or Safe, so a caller that passes the
      previous snapshot's state sees it once per entry. */
  function SendAlert(state: byte, last: int): (alert: bool)
    ensures alert <==> state != last && (state == LockStateCode || state == SafeStateCode)
  {
    (state == LockStateCode && last != LockStateCode) || (state == SafeStateCode && last != SafeStateCode)
  }

  // get_skid_status

  /** The analogue skid sensors in the order the snapshot summarises them. */
  function SkidSensorNames(): (ns: seq<SensorName>)
    ensures |ns| == 7 && forall k :: 0 <= k < |ns| ==> ns[k].OnSkid()
  {
    [SkidO2, SkidMassFlow, SkidCo2, TankPressure, SkidProportionalValveSensor, SkidTemperature, SkidHumidity]
  }

  /** The nine output components, bit 0 of the outputs word first. */
  function SkidOutputs(r: SkidIotStatus): (cs: seq<ComponentStatus>)
    ensures |cs| == 9
  {
    [r.twoWayGasValveBeforeWaterTrap, r.twoWayGasValveInWaterTrap, r.twoWayGasValveAfterWaterTrap,
     r.vacuumReleaseValveInWaterTrap, r.threeWayVacuumReleaseValveBeforeCondenser, r.threeValveAfterVacuumPump,
     r.compressor, r.vacuumPump, r.condenser]
  }

  /** The error, halt and reset flags, bit 0 of the status byte first. */
  function SkidFlags(r: SkidIotStatus): (fs: seq<FlagState>)
    ensures |fs| == 3
  {
    [r.errorFlag, r.haltFlag, r.resetFlag]
  }

  /** The summaries, in the order of SkidSensorNames. */
  function SkidSensors(r: SkidIotStatus): (ss: seq<SensorInfo>)
    ensures |ss| == 7
  {
    [r.o2Sensor, r.massFlow, r.co2Sensor, r.tankPressure, r.proportionalValvePressure, r.temperature, r.humidity]
  }

  /** The statistics pass for the `k`-th skid sensor, starting from the status `prior` left there. */
  function SkidSensorInfo(units: Window<UnitStatus>, skids: Window<SkidStatus>, k: nat, scratch: seq<seq<real>>, prior: SkidIotStatus): SensorInfo
    requires units.Valid() && skids.Valid() && k < 7
    requires |scratch| == 7 && forall j :: 0 <= j < 7 ==> |scratch[j]| == NumberOfSamples
  {
    var name := SkidSensorNames()[k];
    SensorAverageMaxMin(name, Samples(units, skids, name, 0), scratch[k], SkidSensors(prior)[k].status)
  }

  /** The flag states a row of bit tests yields. */
  function FlagsOf(bs: seq<bool>): (fs: seq<FlagState>)
    ensures |fs| == |bs| && forall k :: 0 <= k < |bs| ==> fs[k].FlagSet? == bs[k]
  {
    seq(|bs|, k requires 0 <= k < |bs| => FlagOf(bs[k]))
  }

  /** The component states a row of bit tests yields. */
  function ComponentsOf(bs: seq<bool>): (cs: seq<ComponentStatus>)
    ensures |cs| == |bs| && forall k :: 0 <= k < |bs| ==> cs[k].One? == bs[k]
  {
    seq(|bs|, k requires 0 <= k < |bs| => ComponentOf(bs[k]))
  }

  /** A skid snapshot assembled from its parts; reading the parts back
      gives what went in. */
  function SkidRecord(flags: seq<FlagState>, state: byte, outputs: seq<ComponentStatus>, sensors: seq<SensorInfo>, alert: bool, errors: u32): (r: SkidIotStatus)
    requires |flags| == 3 && |outputs| == 9 && |sensors| == 7
    ensures SkidFlags(r) == flags && SkidOutputs(r) == outputs && SkidSensors(r) == sensors
    ensures r.skidState == state && r.sendAlert == alert && r.errors == errors
  {
    SkidIotStatus(flags[0], flags[1], flags[2], state,
      outputs[0], outputs[1], outputs[2], outputs[3], outputs[4], outputs[5], outputs[6], outputs[7], outputs[8],
      sensors[0], sensors[1], sensors[2], sensors[3], sensors[4], sensors[5], sensors[6],
      alert, errors)
  }

  /** The skid snapshot. `last` is the state the caller saw before, `prior`
      the record the previous call returned (the zero record at start-up),
      and `scratch[k]` what the stack held where the `k`-th pass keeps its
      median array. Bit tests `x & (1 << k)` are written HasBit(x, k). */
  function GetSkidStatus(last: int, units: Window<UnitStatus>, skids: Window<SkidStatus>, prior: SkidIotStatus, scratch: seq<seq<real>>): (r: SkidIotStatus)
    requires units.Valid() && skids.Valid()
    requires |scratch| == 7 && forall j :: 0 <= j < 7 ==> |scratch[j]| == NumberOfSamples
    ensures var latest := skids.slots[LatestIndex(skids.cursor)];
      && (forall k :: 0 <= k < 3 ==> SkidFlags(r)[k].FlagSet? == HasBit(latest.skidStatus, k))
      && (forall k :: 0 <= k < 9 ==> SkidOutputs(r)[k].One? == HasBit(latest.outputsStatus, k))
      && r.skidState == latest.skidState && r.errors == latest.errors
      && (r.sendAlert <==> SendAlert(latest.skidState, last))
    ensures forall k :: 0 <= k < 7 ==> SkidSensors(r)[k] == SkidSensorInfo(units, skids, k, scratch, prior)
  {
    var latest := skids.slots[LatestIndex(skids.cursor)];
    SkidRecord(
      FlagsOf(Bits(latest.skidStatus, 3)),
      latest.skidState,
      ComponentsOf(Bits(latest.outputsStatus, 9)),
      seq(7, k requires 0 <= k < 7 => SkidSensorInfo(units, skids, k, scratch, prior)),
      SendAlert(latest.skidState, last),
      latest.errors)
  }

  /** A skid controller that packs its output components into the outputs
      word bit by bit gets the same components back in the snapshot, and
      likewise for the three status flags. */
  lemma SkidBitsRoundTrip(last: int, units: Window<UnitStatus>, skids: Window<SkidStatus>, prior: SkidIotStatus,
                          scratch: seq<seq<real>>, flags: seq<bool>, outputs: seq<bool>)
    requires units.Valid() && skids.Valid()
    requires |scratch| == 7 && forall j :: 0 <= j < 7 ==> |scratch[j]| == NumberOfSamples
    requires |flags| == 3 && |outputs| == 9
    requires skids.slots[LatestIndex(skids.cursor)].skidStatus == PackBits(flags)
    requires skids.slots[LatestIndex(skids.cursor)].outputsStatus == PackBits(outputs)
    ensures var r := GetSkidStatus(last, units, skids, prior, scratch);
      && (forall k :: 0 <= k < 3 ==> SkidFlags(r)[k] == FlagOf(flags[k]))
      && (forall k :: 0 <= k < 9 ==> SkidOutputs(r)[k] == ComponentOf(outputs[k]))
  {
    forall k | 0 <= k < 3 {
      HasBitOfPack(flags, k);
    }
    forall k | 0 <= k < 9 {
      HasBitOfPack(outputs, k);
    }
  }

  /** Of the record the previous call returned, only the seven sensor
      status slots reach the new snapshot; everything else is overwritten. */
  lemma SkidPriorOnlyStatus(last: int, units: Window<UnitStatus>, skids: Window<SkidStatus>, p: SkidIotStatus, q: SkidIotStatus, scratch: seq<seq<real>>)
    requires units.Valid() && skids.Valid()
    requires |scratch| == 7 && forall j :: 0 <= j < 7 ==> |scratch[j]| == NumberOfSamples
    requires forall k :: 0 <= k < 7 ==> SkidSensors(p)[k].status == SkidSensors(q)[k].status
    ensures GetSkidStatus(last, units, skids, p, scratch) == GetSkidStatus(last, units, skids, q, scratch)
  {
    var rp := GetSkidStatus(last, units, skids, p, scratch);
    var rq := GetSkidStatus(last, units, skids, q, scratch);
    assert SkidSensors(rp) == SkidSensors(rq);
  }

  /** A skid sensor once reported SENSOR_DATA_INVALID stays invalid in every
      later snapshot, whatever the samples: nothing sets the status back. */
  lemma SkidInvalidSticks(last: int, units: Window<UnitStatus>, skids: Window<SkidStatus>, prior: SkidIotStatus, scratch: seq<seq<real>>, k: nat)
    requires units.Valid() && skids.Valid()
    requires |scratch| == 7 && forall j :: 0 <= j < 7 ==> |scratch[j]| == NumberOfSamples
    requires k < 7 && SkidSensors(prior)[k].status == SensorDataInvalid
    ensures SkidSensors(GetSkidStatus(last, units, skids, prior, scratch))[k].status == SensorDataInvalid
  {
  }

  /** From the zero record, a skid sensor whose samples are valid with a
      positive total is reported with status ZERO, its zero-initialised value. */
  lemma SkidFirstValidIsZero(last: int, units: Window<UnitStatus>, skids: Window<SkidStatus>, scratch: seq<seq<real>>, k: nat)
    requires units.Valid() && skids.Valid()
    requires |scratch| == 7 && forall j :: 0 <= j < 7 ==> |scratch[j]| == NumberOfSamples
    requires k < 7
    requires var vs := Filter(SkidSensorNames()[k], Samples(units, skids, SkidSensorNames()[k], 0));
      0 < |vs| && Sum(vs) > 0.0
    ensures SkidSensors(GetSkidStatus(last, units, skids, ZeroSkidIotStatus, scratch))[k].status == Component(Zero)
  {
    assert SkidSensors(ZeroSkidIotStatus)[k] == ZeroInfo;
    var name := SkidSensorNames()[k];
    var info := SensorAverageMaxMin(name, Samples(units, skids, name, 0), scratch[k], ZeroInfo.status);
    assert info.status == Component(Zero);
  }

  // get_unit_status

  /** The analogue unit sensors after the heaters, in the order the snapshot summarises them. */
  function UnitSensorNames(): (ns: seq<SensorName>)
    ensures |ns| == 3 && forall k :: 0 <= k < |ns| ==> !ns[k].OnSkid()
  {
    [UnitVacuumSensor, UnitAmbientHumidity, UnitAmbientTemperature]
  }

  /** The five flags, bit 0 of the status byte first. */
  function UnitFlags(r: UnitIotStatus): (fs: seq<FlagState>)
    ensures |fs| == 5
  {
    [r.errorFlag, r.haltFlag, r.resetFlag, r.justStartedFlag, r.setupStateSynchingFlag]
  }

  /** The fan and the two butterfly valves, bit 0 of the valve byte first. */
  function UnitValves(r: UnitIotStatus): (cs: seq<ComponentStatus>)
    ensures |cs| == 3
  {
    [r.fanStatus, r.butterflyValve1Status, r.butterflyValve2Status]
  }

  /** The non-heater summaries, in the order of UnitSensorNames. */
  function UnitSensors(r: UnitIotStatus): (ss: seq<SensorInfo>)
    ensures |ss| == 3
  {
    [r.vacuumSensor, r.ambientHumidity, r.ambientTemperature]
  }

  predicate UnitScratch(scratch: seq<seq<real>>)
  {
    |scratch| == NumberOfHeaters + 3 && forall j :: 0 <= j < |scratch| ==> |scratch[j]| == NumberOfSamples
  }

  /** The pass for heater `i`: its status is first set from bit `i` of the
      heater status word, then the statistics pass runs on top of it. */
  function HeaterInfo(units: Window<UnitStatus>, skids: Window<SkidStatus>, i: nat, scratch: seq<seq<real>>): SensorInfo
    requires units.Valid() && skids.Valid() && i < NumberOfHeaters && UnitScratch(scratch)
  {
    var latest := units.slots[LatestIndex(units.cursor)];
    SensorAverageMaxMin(UnitHeater, Samples(units, skids, UnitHeater, i), scratch[i], Component(ComponentOf(HasBit(latest.heaterStatus, i))))
  }

  /** The pass for the `k`-th non-heater unit sensor, starting from the status `prior` left there. */
  function UnitSensorInfo(units: Window<UnitStatus>, skids: Window<SkidStatus>, k: nat, scratch: seq<seq<real>>, prior: UnitIotStatus): SensorInfo
    requires units.Valid() && skids.Valid() && k < 3 && UnitScratch(scratch)
  {
    var name := UnitSensorNames()[k];
    SensorAverageMaxMin(name, Samples(units, skids, name, 0), scratch[NumberOfHeaters + k], UnitSensors(prior)[k].status)
  }

  /** The nine heater passes, heater 0 first. */
  function HeaterInfos(units: Window<UnitStatus>, skids: Window<SkidStatus>, scratch: seq<seq<real>>): (hs: seq<SensorInfo>)
    requires units.Valid() && skids.Valid() && UnitScratch(scratch)
    ensures |hs| == NumberOfHeaters
    ensures forall i :: 0 <= i < NumberOfHeaters ==> hs[i] == HeaterInfo(units, skids, i, scratch)
  {
    seq(NumberOfHeaters, i requires 0 <= i < NumberOfHeaters => HeaterInfo(units, skids, i, scratch))
  }

  /** The vacuum, humidity and temperature passes. */
  function UnitSensorInfos(units: Window<UnitStatus>, skids: Window<SkidStatus>, scratch: seq<seq<real>>, prior: UnitIotStatus): (ss: seq<SensorInfo>)
    requires units.Valid() && skids.Valid() && UnitScratch(scratch)
    ensures |ss| == 3
    ensures forall k :: 0 <= k < 3 ==> ss[k] == UnitSensorInfo(units, skids, k, scratch, prior)
  {
    seq(3, k requires 0 <= k < 3 => UnitSensorInfo(units, skids, k, scratch, prior))
  }

  /** A unit snapshot assembled from its parts; reading the parts back
      gives what went in. */
  function UnitRecord(flags: seq<FlagState>, state: byte, heaters: seq<SensorInfo>, valves: seq<ComponentStatus>,
                      sensors: seq<SensorInfo>, alert: bool, errors: u32): (r: UnitIotStatus)
    requires |flags| == 5 && |valves| == 3 && |sensors| == 3
    ensures UnitFlags(r) == flags && UnitValves(r) == valves && UnitSensors(r) == sensors
    ensures r.unitState == state && r.heaterInfo == heaters && r.sendAlert == alert && r.errors == errors
  {
    UnitIotStatus(flags[0], flags[1], flags[2], flags[3], flags[4], state, heaters,
      valves[0], valves[1], valves[2], sensors[0], sensors[1], sensors[2], alert, errors)
  }

  /** The unit snapshot; `scratch[i]` serves heater `i` and the last three
      serve the vacuum, humidity and temperature passes. */
  function GetUnitStatus(last: int, units: Window<UnitStatus>, skids: Window<SkidStatus>, prior: UnitIotStatus, scratch: seq<seq<real>>): (r: UnitIotStatus)
    requires units.Valid() && skids.Valid() && UnitScratch(scratch)
    ensures var latest := units.slots[LatestIndex(units.cursor)];
      && (forall k :: 0 <= k < 5 ==> UnitFlags(r)[k].FlagSet? == HasBit(latest.unitStatus, k))
      && (forall k :: 0 <= k < 3 ==> UnitValves(r)[k].One? == HasBit(latest.valveStatus, k))
      && r.unitState == latest.unitState && r.errors == latest.errors
      && (r.sendAlert <==> SendAlert(latest.unitState, last))
    ensures |r.heaterInfo| == NumberOfHeaters
    ensures forall i :: 0 <= i < NumberOfHeaters ==> r.heaterInfo[i] == HeaterInfo(units, skids, i, scratch)
    ensures forall k :: 0 <= k < 3 ==> UnitSensors(r)[k] == UnitSensorInfo(units, skids, k, scratch, prior)
  {
    var latest := units.slots[LatestIndex(units.cursor)];
    var flags := FlagsOf(Bits(latest.unitStatus, 5));
    var valves := ComponentsOf(Bits(latest.valveStatus, 3));
    var heaters := HeaterInfos(units, skids, scratch);
    var sensors := UnitSensorInfos(units, skids, scratch, prior);
    UnitRecord(flags, latest.unitState, heaters, valves, sensors, SendAlert(latest.unitState, last), latest.errors)
  }

  /** A unit controller that packs its flags, valves and heaters bit by bit
      gets them back in the snapshot; a heater with usable data reports
      exactly its packed state. */
  lemma UnitBitsRoundTrip(last: int, units: Window<UnitStatus>, skids: Window<SkidStatus>, prior: UnitIotStatus,
                          scratch: seq<seq<real>>, flags: seq<bool>, valves: seq<bool>, heaters: seq<bool>)
    requires units.Valid() && skids.Valid() && UnitScratch(scratch)
    requires |flags| == 5 && |valves| == 3 && |heaters| == NumberOfHeaters
    requires units.slots[LatestIndex(units.cursor)].unitStatus == PackBits(flags)
    requires units.slots[LatestIndex(units.cursor)].valveStatus == PackBits(valves)
    requires units.slots[LatestIndex(units.cursor)].heaterStatus == PackBits(heaters)
    ensures var r := GetUnitStatus(last, units, skids, prior, scratch);
      && (forall k :: 0 <= k < 5 ==> UnitFlags(r)[k] == FlagOf(flags[k]))
      && (forall k :: 0 <= k < 3 ==> UnitValves(r)[k] == ComponentOf(valves[k]))
      && forall i :: 0 <= i < NumberOfHeaters && r.heaterInfo[i].status != SensorDataInvalid ==>
           r.heaterInfo[i].status == Component(ComponentOf(heaters[i]))
  {
    forall k | 0 <= k < 5 {
      HasBitOfPack(flags, k);
    }
    forall k | 0 <= k < 3 {
      HasBitOfPack(valves, k);
    }
    HeaterBitsKept(units, skids, scratch, heaters);
  }

  /** Each heater pass starts from bit `i` of the heater word and only ever
      replaces it by SensorDataInvalid. */
  lemma HeaterBitsKept(units: Window<UnitStatus>, skids: Window<SkidStatus>, scratch: seq<seq<real>>, heaters: seq<bool>)
    requires units.Valid() && skids.Valid() && UnitScratch(scratch) && |heaters| == NumberOfHeaters
    requires units.slots[LatestIndex(units.cursor)].heaterStatus == PackBits(heaters)
    ensures forall i :: 0 <= i < NumberOfHeaters && HeaterInfo(units, skids, i, scratch).status != SensorDataInvalid ==>
      HeaterInfo(units, skids, i, scratch).status == Component(ComponentOf(heaters[i]))
  {
    forall i | 0 <= i < NumberOfHeaters {
      HeaterBitKept(units, skids, scratch, heaters, i);
    }
  }

  /** The pass for heater `i` alone. */
  lemma HeaterBitKept(units: Window<UnitStatus>, skids: Window<SkidStatus>, scratch: seq<seq<real>>, heaters: seq<bool>, i: nat)
    requires units.Valid() && skids.Valid() && UnitScratch(scratch) && |heaters| == NumberOfHeaters
    requires units.slots[LatestIndex(units.cursor)].heaterStatus == PackBits(heaters) && i < NumberOfHeaters
    ensures HeaterInfo(units, skids, i, scratch).status != SensorDataInvalid ==>
      HeaterInfo(units, skids, i, scratch).status == Component(ComponentOf(heaters[i]))
  {
    HasBitOfPack(heaters, i);
    assert HasBit(units.slots[LatestIndex(units.cursor)].heaterStatus, i) == heaters[i];
  }

  /** Heater status is rebuilt from the heater word on every call, so unlike
      the other sensors it recovers: with usable data it reports the bit,
      whatever the previous snapshot said. */
  lemma HeaterStatusRecovers(last: int, units: Window<UnitStatus>, skids: Window<SkidStatus>, prior: UnitIotStatus, scratch: seq<seq<real>>, i: nat)
    requires units.Valid() && skids.Valid() && UnitScratch(scratch) && i < NumberOfHeaters
    requires var vs := Filter(UnitHeater, Samples(units, skids, UnitHeater, i));
      0 < |vs| && Sum(vs) > 0.0
    ensures GetUnitStatus(last, units, skids, prior, scratch).heaterInfo[i].status ==
      Component(ComponentOf(HasBit(units.slots[LatestIndex(units.cursor)].heaterStatus, i)))
  {
  }

  /** Of the previous record only the vacuum, humidity and temperature
      status slots reach the new unit snapshot. */
  lemma UnitPriorOnlyStatus(last: int, units: Window<UnitStatus>, skids: Window<SkidStatus>, p: UnitIotStatus, q: UnitIotStatus, scratch: seq<seq<real>>)
    requires units.Valid() && skids.Valid() && UnitScratch(scratch)
    requires forall k :: 0 <= k < 3 ==> UnitSensors(p)[k].status == UnitSensors(q)[k].status
    ensures GetUnitStatus(last, units, skids, p, scratch) == GetUnitStatus(last, units, skids, q, scratch)
  {
    var rp := GetUnitStatus(last, units, skids, p, scratch);
    var rq := GetUnitStatus(last, units, skids, q, scratch);
    assert UnitSensors(rp) == UnitSensors(rq);
    assert rp.heaterInfo == rq.heaterInfo;
  }

  /** The vacuum, humidity and temperature slots, once invalid, stay invalid. */
  lemma UnitInvalidSticks(last: int, units: Window<UnitStatus>, skids: Window<SkidStatus>, prior: UnitIotStatus, scratch: seq<seq<real>>, k: nat)
    requires units.Valid() && skids.Valid() && UnitScratch(scratch)
    requires k < 3 && UnitSensors(prior)[k].status == SensorDataInvalid
    ensures UnitSensors(GetUnitStatus(last, units, skids, prior, scratch))[k].status == SensorDataInvalid
  {
  }
}
