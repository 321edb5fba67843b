/** The legacy protocol's record codec. A unit message is 'D', a reserved
    byte, 'U', a reserved byte, the 57-byte packed UNIT_status and a CRC-8; a
    skid message is the same with 'S' and the 36-byte packed SKID_status.
    The decoders read big-endian fields from offset 4 of the receive buffer
    and turn every 32-bit sensor into the Q16.16 value raw / 65536, signed or
    unsigned as the controller's reference record declares it. */
module LegacyCodec {
  import opened Bytes
  import opened SystemData
  import Crc8

  const Sync: byte := 'D' as int
  const UnitTag: byte := 'U' as int
  const SkidTag: byte := 'S' as int

  /** Offset of the packed record inside a message. */
  const RecordAt: nat := MessageHeaderLength
  /** Offsets, within a unit message, of the fields after the heater array. */
  const UnitHeatersAt: nat := 8
  const UnitValveAt: nat := 44
  const UnitVacuumAt: nat := 45
  const UnitHumidityAt: nat := 49
  const UnitTemperatureAt: nat := 53
  const UnitErrorsAt: nat := 57

  // ---------------------------------------------------------------------
  // Reading the packed records out of the receive buffer

  /** The heater raws at `at`, `at + 4`, ... */
  function HeaterRawsAt(buf: seq<byte>, at: nat): (hs: HeaterRaws)
    requires at + 4 * NumberOfHeaters <= |buf|
    ensures forall i :: 0 <= i < NumberOfHeaters ==> hs[i] == BeU32(buf, at + 4 * i)
  {
    seq(NumberOfHeaters, i requires 0 <= i < NumberOfHeaters => BeU32(buf, at + 4 * i))
  }

  /** The packed UNIT_status read_unit_status walks through, from offset 4. */
  function UnitWireAt(buf: seq<byte>): UnitWire
    requires MessageLengthUnitStatus - 1 <= |buf|
  {
    UnitWire(buf[4], buf[5], BeU16(buf, 6), HeaterRawsAt(buf, UnitHeatersAt), buf[UnitValveAt],
             BeS32(buf, UnitVacuumAt), BeU32(buf, UnitHumidityAt), BeS32(buf, UnitTemperatureAt),
             BeU32(buf, UnitErrorsAt))
  }

  /** The packed SKID_status read_skid_status walks through, from offset 4. */
  function SkidWireAt(buf: seq<byte>): SkidWire
    requires MessageLengthSkidStatus - 1 <= |buf|
  {
    SkidWire(buf[4], buf[5], BeU16(buf, 6), BeU32(buf, 8), BeS32(buf, 12), BeS32(buf, 16),
             BeU32(buf, 20), BeS32(buf, 24), BeS32(buf, 28), BeU32(buf, 32), BeU32(buf, 36))
  }

  function HeaterValues(hs: HeaterRaws): (vs: HeaterValues)
    ensures forall i :: 0 <= i < NumberOfHeaters ==> vs[i] * 65536.0 == hs[i] as real
  {
    seq(NumberOfHeaters, i requires 0 <= i < NumberOfHeaters => Q16(hs[i]))
  }

  /** The sample stored in the unit window: every sensor as raw / 65536. */
  function ToUnitStatus(w: UnitWire): UnitStatus
  {
    UnitStatus(w.unitStatus, w.unitState, w.heaterStatus, HeaterValues(w.heaterTemperatures),
               w.valveStatus, Q16(w.vacuumSensor), Q16(w.ambientHumidity),
               Q16(w.ambientTemperature), w.errors)
  }

  function ToSkidStatus(w: SkidWire): SkidStatus
  {
    SkidStatus(w.skidStatus, w.skidState, w.outputsStatus, Q16(w.o2Sensor), Q16(w.massFlow),
               Q16(w.co2Sensor), Q16(w.tankPressure), Q16(w.proportionalValvePressure),
               Q16(w.temperature), Q16(w.humidity), w.errors)
  }

  /** The conversion to engineering values loses nothing. */
  lemma ToUnitStatusInjective(a: UnitWire, b: UnitWire)
    requires ToUnitStatus(a) == ToUnitStatus(b)
    ensures a == b
  {
    forall i | 0 <= i < NumberOfHeaters
      ensures a.heaterTemperatures[i] == b.heaterTemperatures[i]
    {
      assert HeaterValues(a.heaterTemperatures)[i] == HeaterValues(b.heaterTemperatures)[i];
      Q16Injective(a.heaterTemperatures[i], b.heaterTemperatures[i]);
    }
    Q16Injective(a.vacuumSensor, b.vacuumSensor);
    Q16Injective(a.ambientHumidity, b.ambientHumidity);
    Q16Injective(a.ambientTemperature, b.ambientTemperature);
  }

  lemma ToSkidStatusInjective(a: SkidWire, b: SkidWire)
    requires ToSkidStatus(a) == ToSkidStatus(b)
    ensures a == b
  {
    Q16Injective(a.o2Sensor, b.o2Sensor);
    Q16Injective(a.massFlow, b.massFlow);
    Q16Injective(a.co2Sensor, b.co2Sensor);
    Q16Injective(a.tankPressure, b.tankPressure);
    Q16Injective(a.proportionalValvePressure, b.proportionalValvePressure);
    Q16Injective(a.temperature, b.temperature);
    Q16Injective(a.humidity, b.humidity);
  }

  /** read_unit_status: heaters and humidity are never negative, and vacuum
      and temperature are negative exactly when their first byte has its top
      bit set. */
  function ReadUnitStatus(buf: seq<byte>): (r: UnitStatus)
    requires MessageLengthUnitStatus - 1 <= |buf|
    ensures forall i :: 0 <= i < NumberOfHeaters ==> r.heaterTemperatures[i] >= 0.0
    ensures r.ambientHumidity >= 0.0
    ensures r.vacuumSensor < 0.0 <==> buf[UnitVacuumAt] >= 0x80
    ensures r.ambientTemperature < 0.0 <==> buf[UnitTemperatureAt] >= 0x80
    ensures r.unitStatus == buf[4] && r.unitState == buf[5] && r.valveStatus == buf[UnitValveAt]
  {
    var w := UnitWireAt(buf);
    TopBit(buf, UnitVacuumAt);
    TopBit(buf, UnitTemperatureAt);
    Q16Exact(w.vacuumSensor);
    Q16Exact(w.ambientTemperature);
    Q16Exact(w.ambientHumidity);
    ToUnitStatus(w)
  }

  /** read_skid_status: o2, tank pressure and humidity are never negative;
      the four signed fields are negative exactly when their first byte has
      its top bit set. */
  function ReadSkidStatus(buf: seq<byte>): (r: SkidStatus)
    requires MessageLengthSkidStatus - 1 <= |buf|
    ensures r.o2Sensor >= 0.0 && r.tankPressure >= 0.0 && r.humidity >= 0.0
    ensures r.massFlow < 0.0 <==> buf[12] >= 0x80
    ensures r.co2Sensor < 0.0 <==> buf[16] >= 0x80
    ensures r.proportionalValvePressure < 0.0 <==> buf[24] >= 0x80
    ensures r.temperature < 0.0 <==> buf[28] >= 0x80
    ensures r.skidStatus == buf[4] && r.skidState == buf[5]
  {
    var w := SkidWireAt(buf);
    TopBit(buf, 12);
    TopBit(buf, 16);
    TopBit(buf, 24);
    TopBit(buf, 28);
    Q16Exact(w.o2Sensor);
    Q16Exact(w.massFlow);
    Q16Exact(w.co2Sensor);
    Q16Exact(w.tankPressure);
    Q16Exact(w.proportionalValvePressure);
    Q16Exact(w.temperature);
    Q16Exact(w.humidity);
    ToSkidStatus(w)
  }

  // ---------------------------------------------------------------------
  // The controller's side: packing a record

  function EncodeU32s(vs: seq<u32>): (r: seq<byte>)
    ensures |r| == 4 * |vs|
    decreases |vs|
  {
    if |vs| == 0 then [] else EncodeU32(vs[0]) + EncodeU32s(vs[1..])
  }

  lemma {:induction false} EncodeU32sAt(vs: seq<u32>, i: nat)
    requires i < |vs|
    ensures EncodeU32s(vs)[4 * i..4 * i + 4] == EncodeU32(vs[i])
    decreases i
  {
    if i > 0 {
      EncodeU32sAt(vs[1..], i - 1);
      assert EncodeU32s(vs)[4 * i..4 * i + 4] == EncodeU32s(vs[1..])[4 * (i - 1)..4 * (i - 1) + 4];
    }
  }

  /** The 57 bytes of a packed UNIT_status. */
  function EncodeUnit(w: UnitWire): (r: seq<byte>)
    ensures |r| == MessageLengthUnitStatus - MessageHeaderLength - MessageCrcLength
  {
    [w.unitStatus, w.unitState] + EncodeU16(w.heaterStatus) + EncodeU32s(w.heaterTemperatures)
    + [w.valveStatus] + EncodeS32(w.vacuumSensor) + EncodeU32(w.ambientHumidity)
    + EncodeS32(w.ambientTemperature) + EncodeU32(w.errors)
  }

  /** The 36 bytes of a packed SKID_status. */
  function EncodeSkid(w: SkidWire): (r: seq<byte>)
    ensures |r| == MessageLengthSkidStatus - MessageHeaderLength - MessageCrcLength
  {
    [w.skidStatus, w.skidState] + EncodeU16(w.outputsStatus) + EncodeU32(w.o2Sensor)
    + EncodeS32(w.massFlow) + EncodeS32(w.co2Sensor) + EncodeU32(w.tankPressure)
    + EncodeS32(w.proportionalValvePressure) + EncodeS32(w.temperature)
    + EncodeU32(w.humidity) + EncodeU32(w.errors)
  }

  /** Decoding a packed unit record, behind any four header bytes, gives back the record. */
  lemma UnitRoundTrip(header: seq<byte>, w: UnitWire, tail: seq<byte>)
    requires |header| == MessageHeaderLength
    ensures UnitWireAt(header + EncodeUnit(w) + tail) == w
  {
    var m := header + EncodeUnit(w) + tail;
    assert m[4..61] == EncodeUnit(w);
    var q0 := [w.unitStatus, w.unitState];
    var q1 := q0 + EncodeU16(w.heaterStatus);
    var q2 := q1 + EncodeU32s(w.heaterTemperatures);
    var q3 := q2 + [w.valveStatus];
    var q4 := q3 + EncodeS32(w.vacuumSensor);
    var q5 := q4 + EncodeU32(w.ambientHumidity);
    var q6 := q5 + EncodeS32(w.ambientTemperature);
    SliceSplit(m, 4, q6, EncodeU32(w.errors));
    SliceSplit(m, 4, q5, EncodeS32(w.ambientTemperature));
    SliceSplit(m, 4, q4, EncodeU32(w.ambientHumidity));
    SliceSplit(m, 4, q3, EncodeS32(w.vacuumSensor));
    SliceSplit(m, 4, q2, [w.valveStatus]);
    SliceSplit(m, 4, q1, EncodeU32s(w.heaterTemperatures));
    SliceSplit(m, 4, q0, EncodeU16(w.heaterStatus));
    assert m[4] == q0[0] && m[5] == q0[1];
    assert m[44] == m[44..45][0];
    BeU16Of(m, 6, w.heaterStatus);
    BeS32Of(m, UnitVacuumAt, w.vacuumSensor);
    BeU32Of(m, UnitHumidityAt, w.ambientHumidity);
    BeS32Of(m, UnitTemperatureAt, w.ambientTemperature);
    BeU32Of(m, UnitErrorsAt, w.errors);
    HeatersRoundTrip(m, w.heaterTemperatures);
  }

  /** Four-byte groups packed from `hs` at UnitHeatersAt read back as `hs`. */
  lemma HeatersRoundTrip(m: seq<byte>, hs: HeaterRaws)
    requires UnitHeatersAt + 4 * NumberOfHeaters <= |m|
    requires m[UnitHeatersAt..UnitHeatersAt + 4 * NumberOfHeaters] == EncodeU32s(hs)
    ensures HeaterRawsAt(m, UnitHeatersAt) == hs
  {
    var rs := HeaterRawsAt(m, UnitHeatersAt);
    forall i | 0 <= i < NumberOfHeaters
      ensures rs[i] == hs[i]
    {
      EncodeU32sAt(hs, i);
      SliceOfSlice(m, UnitHeatersAt, UnitHeatersAt + 4 * NumberOfHeaters, 4 * i, 4 * i + 4);
      BeU32Of(m, 8 + 4 * i, hs[i]);
    }
  }

  lemma SkidRoundTrip(header: seq<byte>, w: SkidWire, tail: seq<byte>)
    requires |header| == MessageHeaderLength
    ensures SkidWireAt(header + EncodeSkid(w) + tail) == w
  {
    var m := header + EncodeSkid(w) + tail;
    assert m[4..40] == EncodeSkid(w);
    var q0 := [w.skidStatus, w.skidState];
    var q1 := q0 + EncodeU16(w.outputsStatus);
    var q2 := q1 + EncodeU32(w.o2Sensor);
    var q3 := q2 + EncodeS32(w.massFlow);
    var q4 := q3 + EncodeS32(w.co2Sensor);
    var q5 := q4 + EncodeU32(w.tankPressure);
    var q6 := q5 + EncodeS32(w.proportionalValvePressure);
    var q7 := q6 + EncodeS32(w.temperature);
    var q8 := q7 + EncodeU32(w.humidity);
    SliceSplit(m, 4, q8, EncodeU32(w.errors));
    SliceSplit(m, 4, q7, EncodeU32(w.humidity));
    SliceSplit(m, 4, q6, EncodeS32(w.temperature));
    SliceSplit(m, 4, q5, EncodeS32(w.proportionalValvePressure));
    SliceSplit(m, 4, q4, EncodeU32(w.tankPressure));
    SliceSplit(m, 4, q3, EncodeS32(w.co2Sensor));
    SliceSplit(m, 4, q2, EncodeS32(w.massFlow));
    SliceSplit(m, 4, q1, EncodeU32(w.o2Sensor));
    SliceSplit(m, 4, q0, EncodeU16(w.outputsStatus));
    assert m[4] == q0[0] && m[5] == q0[1];
    BeU16Of(m, 6, w.outputsStatus);
    BeU32Of(m, 8, w.o2Sensor);
    BeS32Of(m, 12, w.massFlow);
    BeS32Of(m, 16, w.co2Sensor);
    BeU32Of(m, 20, w.tankPressure);
    BeS32Of(m, 24, w.proportionalValvePressure);
    BeS32Of(m, 28, w.temperature);
    BeU32Of(m, 32, w.humidity);
    BeU32Of(m, 36, w.errors);
  }


  /** Every 57 bytes after the header are the packing of what the decoder
      reads from them: decoding and packing are mutually inverse. */
  lemma UnitBytesRoundTrip(buf: seq<byte>)
    requires MessageLengthUnitStatus - 1 <= |buf|
    ensures EncodeUnit(UnitWireAt(buf)) == buf[RecordAt..MessageLengthUnitStatus - 1]
  {
    var w := UnitWireAt(buf);
    var e := [w.unitStatus, w.unitState];
    assert e == buf[4..6];
    BeU16Bytes(buf, 6);
    SliceJoin(buf, 4, 6, 8);
    e := e + EncodeU16(w.heaterStatus);
    EncodeU32sOfBe(w.heaterTemperatures, buf, UnitHeatersAt);
    SliceJoin(buf, 4, 8, 44);
    e := e + EncodeU32s(w.heaterTemperatures);
    assert [w.valveStatus] == buf[44..45];
    SliceJoin(buf, 4, 44, 45);
    e := e + [w.valveStatus];
    BeS32Bytes(buf, UnitVacuumAt);
    SliceJoin(buf, 4, 45, 49);
    e := e + EncodeS32(w.vacuumSensor);
    BeU32Bytes(buf, UnitHumidityAt);
    SliceJoin(buf, 4, 49, 53);
    e := e + EncodeU32(w.ambientHumidity);
    BeS32Bytes(buf, UnitTemperatureAt);
    SliceJoin(buf, 4, 53, 57);
    e := e + EncodeS32(w.ambientTemperature);
    BeU32Bytes(buf, UnitErrorsAt);
    SliceJoin(buf, 4, 57, 61);
    e := e + EncodeU32(w.errors);
    assert e == buf[4..61];
  }

  /** Packing the values read from consecutive four-byte groups gives back those bytes. */
  lemma {:induction false} EncodeU32sOfBe(hs: seq<u32>, buf: seq<byte>, at: nat)
    requires at + 4 * |hs| <= |buf|
    requires forall i :: 0 <= i < |hs| ==> hs[i] == BeU32(buf, at + 4 * i)
    ensures EncodeU32s(hs) == buf[at..at + 4 * |hs|]
    decreases |hs|
  {
    if |hs| > 0 {
      forall i | 0 <= i < |hs| - 1
        ensures hs[1..][i] == BeU32(buf, at + 4 + 4 * i)
      {
        assert hs[1..][i] == hs[i + 1];
      }
      EncodeU32sOfBe(hs[1..], buf, at + 4);
      BeU32Bytes(buf, at);
      assert buf[at..at + 4 * |hs|] == buf[at..at + 4] + buf[at + 4..at + 4 * |hs|];
    }
  }

  lemma SkidBytesRoundTrip(buf: seq<byte>)
    requires MessageLengthSkidStatus - 1 <= |buf|
    ensures EncodeSkid(SkidWireAt(buf)) == buf[RecordAt..MessageLengthSkidStatus - 1]
  {
    var w := SkidWireAt(buf);
    var e := [w.skidStatus, w.skidState];
    assert e == buf[4..6];
    BeU16Bytes(buf, 6);
    SliceJoin(buf, 4, 6, 8);
    e := e + EncodeU16(w.outputsStatus);
    BeU32Bytes(buf, 8);
    SliceJoin(buf, 4, 8, 12);
    e := e + EncodeU32(w.o2Sensor);
    BeS32Bytes(buf, 12);
    SliceJoin(buf, 4, 12, 16);
    e := e + EncodeS32(w.massFlow);
    BeS32Bytes(buf, 16);
    SliceJoin(buf, 4, 16, 20);
    e := e + EncodeS32(w.co2Sensor);
    BeU32Bytes(buf, 20);
    SliceJoin(buf, 4, 20, 24);
    e := e + EncodeU32(w.tankPressure);
    BeS32Bytes(buf, 24);
    SliceJoin(buf, 4, 24, 28);
    e := e + EncodeS32(w.proportionalValvePressure);
    BeS32Bytes(buf, 28);
    SliceJoin(buf, 4, 28, 32);
    e := e + EncodeS32(w.temperature);
    BeU32Bytes(buf, 32);
    SliceJoin(buf, 4, 32, 36);
    e := e + EncodeU32(w.humidity);
    BeU32Bytes(buf, 36);
    SliceJoin(buf, 4, 36, 40);
    e := e + EncodeU32(w.errors);
    assert e == buf[4..40];
  }

  // ---------------------------------------------------------------------
  // Whole messages

  /** A unit message as the controller sends it, with reserved bytes `r1` and `r3`. */
  function UnitMessage(w: UnitWire, r1: byte, r3: byte): (m: seq<byte>)
    ensures |m| == MessageLengthUnitStatus
    ensures m[0] == Sync && m[2] == UnitTag
    ensures Crc8.Framed(m)
  {
    var body := [Sync, r1, UnitTag, r3] + EncodeUnit(w);
    assert (body + [Crc8.Crc(body)])[..|body|] == body;
    body + [Crc8.Crc(body)]
  }

  function SkidMessage(w: SkidWire, r1: byte, r3: byte): (m: seq<byte>)
    ensures |m| == MessageLengthSkidStatus
    ensures m[0] == Sync && m[2] == SkidTag
    ensures Crc8.Framed(m)
  {
    var body := [Sync, r1, SkidTag, r3] + EncodeSkid(w);
    assert (body + [Crc8.Crc(body)])[..|body|] == body;
    body + [Crc8.Crc(body)]
  }

  /** The decoder recovers the record packed into a unit message. */
  lemma UnitMessageDecodes(w: UnitWire, r1: byte, r3: byte)
    ensures UnitWireAt(UnitMessage(w, r1, r3)) == w
  {
    var c := Crc8.Crc([Sync, r1, UnitTag, r3] + EncodeUnit(w));
    UnitRoundTrip([Sync, r1, UnitTag, r3], w, [c]);
  }

  lemma SkidMessageDecodes(w: SkidWire, r1: byte, r3: byte)
    ensures SkidWireAt(SkidMessage(w, r1, r3)) == w
  {
    var c := Crc8.Crc([Sync, r1, SkidTag, r3] + EncodeSkid(w));
    SkidRoundTrip([Sync, r1, SkidTag, r3], w, [c]);
  }
}
