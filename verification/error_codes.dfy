/** The controller's error-code enumeration and its rendering as text for
    telemetry: the ten codes the switch knows print as their own names,
    every other value prints as "UNKNOWN_CODE: " and its signed decimal. */
module ErrorCodes {

  datatype ErrorCode =
    | NoError
    | VacuumSensorFault
    | TankPressureSensorFault
    | TankPressureSensorOutOfBoundary
    | TankPressureFault
    | ProportionalValvePressureSensorFault
    | ProportionalValvePressureOutOfBoundary
    | ProportionalValvePressureCriticalState1
    | ProportionalValvePressureCriticalState2
    | VacuumChamberSensorTimeoutError
    | WarningMassFlowSensorFault
    | WarningO2SensorFault
    | WarningCo2SensorFault
  {
    function Value(): int
    {
      match this
      case NoError => 0
      case VacuumSensorFault => 90
      case TankPressureSensorFault => 100
      case TankPressureSensorOutOfBoundary => 101
      case TankPressureFault => 102
      case ProportionalValvePressureSensorFault => 106
      case ProportionalValvePressureOutOfBoundary => 107
      case ProportionalValvePressureCriticalState1 => 108
      case ProportionalValvePressureCriticalState2 => 109
      case VacuumChamberSensorTimeoutError => 111
      case WarningMassFlowSensorFault => 10001
      case WarningO2SensorFault => 10002
      case WarningCo2SensorFault => 10003
    }

    /** The enumerator's identifier in the source. */
    function Identifier(): string
    {
      match this
      case NoError => "NO_ERROR"
      case VacuumSensorFault => "VACUUM_SENSOR_FAULT"
      case TankPressureSensorFault => "TANK_PRESSURE_SENSOR_FAULT"
      case TankPressureSensorOutOfBoundary => "TANK_PRESSURE_SENSOR_OUT_OF_BOUNDARY"
      case TankPressureFault => "TANK_PRESSURE_FAULT"
      case ProportionalValvePressureSensorFault => "PROPORTIONAL_VALVE_PRESSURE_SENSOR_FAULT"
      case ProportionalValvePressureOutOfBoundary => "PROPORTIONAL_VALVE_PRESSURE_OUT_OF_BOUNDARY"
      case ProportionalValvePressureCriticalState1 => "PROPORTIONAL_VALVE_PRESSURE_CRITICAL_STATE_1"
      case ProportionalValvePressureCriticalState2 => "PROPORTIONAL_VALVE_PRESSURE_CRITICAL_STATE_2"
      case VacuumChamberSensorTimeoutError => "VACUUM_CHAMBER_SENSOR_TIMEOUT_ERROR"
      case WarningMassFlowSensorFault => "WARNING_MASS_FLOW_SENSOR_FAULT"
      case WarningO2SensorFault => "WARNING_O2_SENSOR_FAULT"
      case WarningCo2SensorFault => "WARNING_CO2_SENSOR_FAULT"
    }

    /** Codes 10000 to 20000 are warnings; the renderer has no case for them. */
    predicate IsWarning()
    {
      10000 <= Value() <= 20000
    }
  }

  const UnknownPrefix: string := "UNKNOWN_CODE: "

  function DigitChar(d: nat): (c: char)
    requires d < 10
    ensures '0' <= c <= '9'
  {
    (48 + d) as char
  }

  function DigitValue(c: char): nat
    requires '0' <= c <= '9'
  {
    c as int - 48
  }

  predicate AllDigits(s: string)
  {
    forall i :: 0 <= i < |s| ==> '0' <= s[i] <= '9'
  }

  /** The decimal digits of `n`, most significant first, without leading zeros. */
  function Digits(n: nat): (s: string)
    ensures 0 < |s| && AllDigits(s)
    decreases n
  {
    if n < 10 then [DigitChar(n)] else Digits(n / 10) + [DigitChar(n % 10)]
  }

  /** What `%d` prints for `n`. */
  function Decimal(n: int): string
  {
    if n < 0 then "-" + Digits(-n) else Digits(n)
  }

  function ParseDigits(s: string): nat
    requires AllDigits(s)
    decreases |s|
  {
    if |s| == 0 then 0 else ParseDigits(s[..|s| - 1]) * 10 + DigitValue(s[|s| - 1])
  }

  /** Reads back a `%d` rendering. */
  function ParseDecimal(s: string): int
  {
    if 0 < |s| && s[0] == '-' && AllDigits(s[1..]) then -(ParseDigits(s[1..]) as int)
    else if AllDigits(s) then ParseDigits(s)
    else 0
  }

  lemma {:induction false} DigitsRoundTrip(n: nat)
    ensures ParseDigits(Digits(n)) == n
    decreases n
  {
    if n >= 10 {
      DigitsRoundTrip(n / 10);
      var s := Digits(n);
      assert s[..|s| - 1] == Digits(n / 10);
    }
  }

  /** `%d` loses nothing: its output reads back as the number printed. */
  lemma DecimalRoundTrip(n: int)
    ensures ParseDecimal(Decimal(n)) == n
  {
    if n < 0 {
      DigitsRoundTrip(-n);
      assert Decimal(n)[1..] == Digits(-n);
    } else {
      DigitsRoundTrip(n);
    }
  }

  /** stringifyErrorCode: a non-warning enumerator prints as its own
      identifier; any other code prints as the prefix followed by text that
      reads back as the code. */
  function StringifyErrorCode(code: int): (s: string)
    ensures forall e: ErrorCode :: e.Value() == code && !e.IsWarning() ==> s == e.Identifier()
    ensures !IsNamed(code) ==>
      && |UnknownPrefix| <= |s| && s[..|UnknownPrefix|] == UnknownPrefix
      && ParseDecimal(s[|UnknownPrefix|..]) == code
  {
    if code == 0 then "NO_ERROR"
    else if code == 90 then "VACUUM_SENSOR_FAULT"
    else if code == 100 then "TANK_PRESSURE_SENSOR_FAULT"
    else if code == 101 then "TANK_PRESSURE_SENSOR_OUT_OF_BOUNDARY"
    else if code == 102 then "TANK_PRESSURE_FAULT"
    else if code == 106 then "PROPORTIONAL_VALVE_PRESSURE_SENSOR_FAULT"
    else if code == 107 then "PROPORTIONAL_VALVE_PRESSURE_OUT_OF_BOUNDARY"
    else if code == 108 then "PROPORTIONAL_VALVE_PRESSURE_CRITICAL_STATE_1"
    else if code == 109 then "PROPORTIONAL_VALVE_PRESSURE_CRITICAL_STATE_2"
    else if code == 111 then "VACUUM_CHAMBER_SENSOR_TIMEOUT_ERROR"
    else
      DecimalRoundTrip(code);
      assert (UnknownPrefix + Decimal(code))[|UnknownPrefix|..] == Decimal(code);
      UnknownPrefix + Decimal(code)
  }

  /** The codes the renderer has a case for. */
  predicate IsNamed(code: int)
  {
    code in {0, 90, 100, 101, 102, 106, 107, 108, 109, 111}
  }

  /** Every non-warning enumerator prints as its own identifier; the three
      warnings print as unknown codes. */
  lemma StringifyEnumerator(e: ErrorCode)
    ensures !e.IsWarning() <==> IsNamed(e.Value())
    ensures !e.IsWarning() ==> StringifyErrorCode(e.Value()) == e.Identifier()
    ensures e.IsWarning() ==> StringifyErrorCode(e.Value()) == UnknownPrefix + Decimal(e.Value())
  {
  }

  /** An unnamed code prints as the prefix followed by text that reads back
      as the code itself. */
  lemma StringifyUnknown(code: int)
    requires !IsNamed(code)
    ensures |UnknownPrefix| == 14
    ensures StringifyErrorCode(code)[..14] == UnknownPrefix
    ensures ParseDecimal(StringifyErrorCode(code)[14..]) == code
  {
    var s := StringifyErrorCode(code);
    assert s[14..] == Decimal(code);
    DecimalRoundTrip(code);
  }

  /** No name starts with the letter that starts the unknown-code prefix. */
  lemma NamedInitial(code: int)
    requires IsNamed(code)
    ensures 0 < |StringifyErrorCode(code)| && StringifyErrorCode(code)[0] != 'U'
  {
    var s := StringifyErrorCode(code);
    if code == 0 {
      assert s[0] == 'N';
    } else if code == 90 || code == 111 {
      assert s[0] == 'V';
    } else if code in {100, 101, 102} {
      assert s[0] == 'T';
    } else if code == 106 || code == 107 {
      assert s[0] == 'P';
    } else if code == 108 {
      assert s == "PROPORTIONAL_VALVE_PRESSURE_CRITICAL_STATE_1";
      assert s[0] == 'P';
    } else {
      assert s == "PROPORTIONAL_VALVE_PRESSURE_CRITICAL_STATE_2";
      assert s[0] == 'P';
    }
  }

  /** Distinct codes never print the same text. */
  lemma StringifyInjective(a: int, b: int)
    requires a != b
    ensures StringifyErrorCode(a) != StringifyErrorCode(b)
  {
    var sa, sb := StringifyErrorCode(a), StringifyErrorCode(b);
    if !IsNamed(a) && !IsNamed(b) {
      StringifyUnknown(a);
      StringifyUnknown(b);
      assert sa[14..] != sb[14..];
    } else if !IsNamed(a) {
      NamedInitial(b);
      assert sa[0] == 'U';
    } else if !IsNamed(b) {
      NamedInitial(a);
      assert sb[0] == 'U';
    }
  }
}
