/** The shared data model of the controller link: wire-length constants, the
    controller's reference wire records, the decoded sample records kept in
    the windows, the snapshot records handed to the telemetry publisher,
    and the enumerations with their display tables. */
module SystemData {
  import opened Bytes
  import opened Wrappers

  const CrcPolynomial: bv8 := 0x42
  const MessageLengthUnitStatus: nat := 62
  const MessageLengthSkidStatus: nat := 41
  const MessageLengthIotCommand: nat := 6
  const NumberOfHeaters: nat := 9
  const NumberOfCartridges: nat := 3
  const NumberOfZonesPerCartridge: nat := 3

  /** Bytes before the record in a fixed-length message: 'D', reserved, source letter, reserved. */
  const MessageHeaderLength: nat := 4
  /** Bytes of checksum after the record. */
  const MessageCrcLength: nat := 1
  /** Bytes of the command packet before its checksum. */
  const CommandHeaderLength: nat := 5

  /** Widths, in wire order, of the controller's packed UNIT_status fields
      (the fourth is the heater array). */
  const UnitWireFieldWidths: seq<nat> := [1, 1, 2, 36, 1, 4, 4, 4, 4]
  /** Widths, in wire order, of the controller's packed SKID_status fields. */
  const SkidWireFieldWidths: seq<nat> := [1, 1, 2, 4, 4, 4, 4, 4, 4, 4, 4]

  function Total(ws: seq<nat>): nat
  {
    if |ws| == 0 then 0 else ws[0] + Total(ws[1..])
  }

  /** The message lengths are header, packed record and checksum, the command
      length is its five bytes plus checksum, and the heater count is the
      cartridge grid. */
  lemma WireLengthsConsistent()
    ensures UnitWireFieldWidths[3] == 4 * NumberOfHeaters
    ensures Total(UnitWireFieldWidths) == 57
    ensures Total(SkidWireFieldWidths) == 36
    ensures MessageLengthUnitStatus == MessageHeaderLength + Total(UnitWireFieldWidths) + MessageCrcLength
    ensures MessageLengthSkidStatus == MessageHeaderLength + Total(SkidWireFieldWidths) + MessageCrcLength
    ensures MessageLengthIotCommand == CommandHeaderLength + MessageCrcLength
    ensures NumberOfHeaters == NumberOfCartridges * NumberOfZonesPerCartridge
  {
  }

  type HeaterRaws = s: seq<u32> | |s| == NumberOfHeaters
    witness [0, 0, 0, 0, 0, 0, 0, 0, 0]
  type HeaterValues = s: seq<real> | |s| == NumberOfHeaters
    witness [0.0, 0.0, 0.0, 0.0, 0.0, 0.0, 0.0, 0.0, 0.0]

  /** The controller's UNIT_status as it is packed on the wire, with the
      signedness of each 32-bit field. */
  datatype UnitWire = UnitWire(
    unitStatus: byte,
    unitState: byte,
    heaterStatus: u16,
    heaterTemperatures: HeaterRaws,
    valveStatus: byte,
    vacuumSensor: i32,
    ambientHumidity: u32,
    ambientTemperature: i32,
    errors: u32)

  /** The controller's SKID_status as it is packed on the wire. */
  datatype SkidWire = SkidWire(
    skidStatus: byte,
    skidState: byte,
    outputsStatus: u16,
    o2Sensor: u32,
    massFlow: i32,
    co2Sensor: i32,
    tankPressure: u32,
    proportionalValvePressure: i32,
    temperature: i32,
    humidity: u32,
    errors: u32)

  /** UNIT_status_t: one decoded unit sample, fixed-point fields as exact reals. */
  datatype UnitStatus = UnitStatus(
    unitStatus: byte,
    unitState: byte,
    heaterStatus: u16,
    heaterTemperatures: HeaterValues,
    valveStatus: byte,
    vacuumSensor: real,
    ambientHumidity: real,
    ambientTemperature: real,
    errors: u32)

  /** SKID_status_t: one decoded skid sample. */
  datatype SkidStatus = SkidStatus(
    skidStatus: byte,
    skidState: byte,
    outputsStatus: u16,
    o2Sensor: real,
    massFlow: real,
    co2Sensor: real,
    tankPressure: real,
    proportionalValvePressure: real,
    temperature: real,
    humidity: real,
    errors: u32)

  /** The zero-initialised slot the windows start with. */
  const ZeroUnit: UnitStatus := UnitStatus(0, 0, 0, [0.0, 0.0, 0.0, 0.0, 0.0, 0.0, 0.0, 0.0, 0.0], 0, 0.0, 0.0, 0.0, 0)
  const ZeroSkid: SkidStatus := SkidStatus(0, 0, 0, 0.0, 0.0, 0.0, 0.0, 0.0, 0.0, 0.0, 0)

  datatype SensorStats = SensorStats(avg: real, max: real, min: real, median: real)

  /** component_status_t */
  datatype ComponentStatus = Zero | One {
    function Code(): nat { if Zero? then 0 else 1 }
  }

  /** flag_state_t */
  datatype FlagState = FlagUnset | FlagSet {
    function Code(): nat { if FlagUnset? then 0 else 1 }
  }

  /** The status slot of a sensor_info_t: a component state, or the
      SENSOR_DATA_INVALID marker the statistics pass stores there. */
  datatype SensorStatus = Component(state: ComponentStatus) | SensorDataInvalid

  datatype SensorInfo = SensorInfo(status: SensorStatus, stats: SensorStats)

  const ZeroInfo: SensorInfo := SensorInfo(Component(Zero), SensorStats(0.0, 0.0, 0.0, 0.0))

  function ComponentOf(b: bool): ComponentStatus { if b then One else Zero }
  function FlagOf(b: bool): FlagState { if b then FlagSet else FlagUnset }

  const ValveStatusStringified: seq<string> := ["CLOSED", "OPENED"]
  const ThreeWayValveStringified: seq<string> := ["to_Tank", "to_Air"]
  const ComponentStatusStringified: seq<string> := ["OFF", "ON"]
  const SensorStatusStringified: seq<string> := ["NO-ERROR", "ERROR"]
  const FlagStateStringified: seq<string> := ["UNSET", "SET"]

  /** Both two-valued enumerations index every two-entry display table, and
      distinct values show as distinct words. */
  lemma TwoValuedTables(c: ComponentStatus, f: FlagState)
    ensures c.Code() < |ValveStatusStringified| == 2
    ensures c.Code() < |ThreeWayValveStringified| == 2
    ensures c.Code() < |ComponentStatusStringified| == 2
    ensures c.Code() < |SensorStatusStringified| == 2
    ensures f.Code() < |FlagStateStringified| == 2
    ensures ComponentStatusStringified[c.Code()] == (if c == One then "ON" else "OFF")
    ensures FlagStateStringified[f.Code()] == (if f == FlagSet then "SET" else "UNSET")
  {
  }

  /** sequence_state_t */
  datatype SequenceState =
    | ErrorHandling | InitState | AdsorbState | EvacuationState | DesorbState
    | VacuumReleaseState | LockState | DesorbSetupState | SafeState | UnlockState
  {
    function Code(): nat
    {
      match this
      case ErrorHandling => 0
      case InitState => 1
      case AdsorbState => 2
      case EvacuationState => 3
      case DesorbState => 4
      case VacuumReleaseState => 5
      case LockState => 6
      case DesorbSetupState => 7
      case SafeState => 8
      case UnlockState => 9
    }

    /** The enumerator's identifier in the source. */
    function Identifier(): string
    {
      match this
      case ErrorHandling => "Error_Handling"
      case InitState => "Init_State"
      case AdsorbState => "Adsorb_State"
      case EvacuationState => "Evacuation_State"
      case DesorbState => "Desorb_State"
      case VacuumReleaseState => "Vacuum_Release_State"
      case LockState => "Lock_State"
      case DesorbSetupState => "Desorb_Setup_State"
      case SafeState => "Safe_State"
      case UnlockState => "Unlock_State"
    }
  }

  const LockStateCode: byte := 6
  const SafeStateCode: byte := 8

  const SequenceStateStringified: seq<string> := [
    "Error_Handling", "Init_State", "Adsorb_State", "Evacuation_State", "Desorb_State",
    "Vacuum_Release_State", "Lock_State", "Desorb_Setup_State", "Safe_State", "Unlock_State"]

  /** The enumerator with value `code`, if there is one. */
  function SequenceStateOf(code: int): (r: Option<SequenceState>)
    ensures r.Some? ==> r.value.Code() == code
  {
    if code == 0 then Some(ErrorHandling)
    else if code == 1 then Some(InitState)
    else if code == 2 then Some(AdsorbState)
    else if code == 3 then Some(EvacuationState)
    else if code == 4 then Some(DesorbState)
    else if code == 5 then Some(VacuumReleaseState)
    else if code == 6 then Some(LockState)
    else if code == 7 then Some(DesorbSetupState)
    else if code == 8 then Some(SafeState)
    else if code == 9 then Some(UnlockState)
    else None
  }

  /** The values are exactly 0..9, Lock is 6 and Safe is 8, and entry `i` of the
      display table names enumerator `i`. */
  lemma SequenceStateTable(s: SequenceState, code: int)
    ensures s.Code() < 10 && SequenceStateOf(s.Code()) == Some(s)
    ensures SequenceStateOf(code).Some? <==> 0 <= code < 10
    ensures LockState.Code() == LockStateCode && SafeState.Code() == SafeStateCode
    ensures |SequenceStateStringified| == 10
    ensures SequenceStateStringified[s.Code()] == s.Identifier()
  {
  }

  /** sensor_name_t */
  datatype SensorName =
    | SkidO2 | SkidMassFlow | SkidCo2 | SkidProportionalValveSensor | SkidTemperature
    | SkidHumidity | UnitVacuumSensor | UnitAmbientHumidity | UnitAmbientTemperature
    | UnitHeater | TankPressure
  {
    /** Whether the sensor is read from the skid window (otherwise the unit window). */
    predicate OnSkid()
    {
      this in {SkidO2, SkidMassFlow, SkidCo2, SkidProportionalValveSensor, SkidTemperature, SkidHumidity, TankPressure}
    }
  }

  /** UNIT_iot_status_t: the snapshot of the unit window. */
  datatype UnitIotStatus = UnitIotStatus(
    errorFlag: FlagState,
    haltFlag: FlagState,
    resetFlag: FlagState,
    justStartedFlag: FlagState,
    setupStateSynchingFlag: FlagState,
    unitState: byte,
    heaterInfo: seq<SensorInfo>,
    fanStatus: ComponentStatus,
    butterflyValve1Status: ComponentStatus,
    butterflyValve2Status: ComponentStatus,
    vacuumSensor: SensorInfo,
    ambientHumidity: SensorInfo,
    ambientTemperature: SensorInfo,
    sendAlert: bool,
    errors: u32)

  /** SKID_iot_status_t: the snapshot of the skid window. */
  datatype SkidIotStatus = SkidIotStatus(
    errorFlag: FlagState,
    haltFlag: FlagState,
    resetFlag: FlagState,
    skidState: byte,
    twoWayGasValveBeforeWaterTrap: ComponentStatus,
    twoWayGasValveInWaterTrap: ComponentStatus,
    twoWayGasValveAfterWaterTrap: ComponentStatus,
    vacuumReleaseValveInWaterTrap: ComponentStatus,
    threeWayVacuumReleaseValveBeforeCondenser: ComponentStatus,
    threeValveAfterVacuumPump: ComponentStatus,
    compressor: ComponentStatus,
    vacuumPump: ComponentStatus,
    condenser: ComponentStatus,
    o2Sensor: SensorInfo,
    massFlow: SensorInfo,
    co2Sensor: SensorInfo,
    tankPressure: SensorInfo,
    proportionalValvePressure: SensorInfo,
    temperature: SensorInfo,
    humidity: SensorInfo,
    sendAlert: bool,
    errors: u32)

  /** The zero-initialised `static` results the snapshot functions reuse. */
  const ZeroUnitIotStatus: UnitIotStatus := UnitIotStatus(
    FlagUnset, FlagUnset, FlagUnset, FlagUnset, FlagUnset, 0,
    [ZeroInfo, ZeroInfo, ZeroInfo, ZeroInfo, ZeroInfo, ZeroInfo, ZeroInfo, ZeroInfo, ZeroInfo],
    Zero, Zero, Zero, ZeroInfo, ZeroInfo, ZeroInfo, false, 0)
  const ZeroSkidIotStatus: SkidIotStatus := SkidIotStatus(
    FlagUnset, FlagUnset, FlagUnset, 0,
    Zero, Zero, Zero, Zero, Zero, Zero, Zero, Zero, Zero,
    ZeroInfo, ZeroInfo, ZeroInfo, ZeroInfo, ZeroInfo, ZeroInfo, ZeroInfo, false, 0)
}
