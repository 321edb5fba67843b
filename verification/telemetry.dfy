/** The command-framed protocol's telemetry decoders, prvReadCcuData and
    prvReadCmuData. A telemetry payload starts with a source tag; the
    decoders are handed the bytes after it, and their field offsets (the
    T_M_* constants, defined outside this model) count from there, so they
    are parameters here. Every 16-bit field is big-endian; every 4-byte
    sensor is a big-endian Q16.16 value, stored as raw / 65536. The
    decoders fill two 30-slot windows: CCU (skid) samples and CMU (unit)
    samples. */
module Telemetry {
  import opened Bytes
  import opened Wrappers
  import opened SampleWindow

  // ---------------------------------------------------------------------
  // The stored samples and their raw wire form

  /** One CCU_telemetry_t sample. */
  datatype CcuTelemetry = CcuTelemetry(
    state: byte, errorCode: u16, workingFlags: u16, outputStatus: u16, sensorStatus: u16,
    o2: real, massFlow: real, co2: real, tankPressure: real, proportionalValvePressure: real,
    relativeTemperature: real, relativeHumidity: real)

  /** One CMU_telemetry_t sample; `heaterTemperatures` has the record's fixed capacity. */
  datatype CmuTelemetry = CmuTelemetry(
    state: byte, errorCode: u16, workingFlags: u16, outputStatus: u16, sensorStatus: u16,
    vacuumChamber: real, ambientTemperature: real, ambientHumidity: real,
    numberOfHeaters: byte, heaterStatus: u16, heaterTemperatures: seq<real>)

  /** The CCU fields as integers, with the signedness the decoder gives each. */
  datatype CcuWire = CcuWire(
    state: byte, errorCode: u16, workingFlags: u16, outputStatus: u16, sensorStatus: u16,
    o2: u32, massFlow: i32, co2: u32, tankPressure: u32, proportionalValvePressure: u32,
    relativeTemperature: i32, relativeHumidity: i32)

  /** The CMU fields as integers; the heater list is as long as the packet says. */
  datatype CmuWire = CmuWire(
    state: byte, errorCode: u16, workingFlags: u16, outputStatus: u16, sensorStatus: u16,
    vacuumChamber: u32, ambientTemperature: i32, ambientHumidity: u32,
    numberOfHeaters: byte, heaterStatus: u16, heaterTemperatures: seq<u32>)

  // ---------------------------------------------------------------------
  // Where the fields are

  /** The T_M_CCU_*_INDEX offsets. */
  datatype CcuOffsets = CcuOffsets(
    state: nat, errorCode: nat, workingFlags: nat, outputStatus: nat, sensorStatus: nat,
    o2: nat, massFlow: nat, co2: nat, tankPressure: nat, proportionalValvePressure: nat,
    relativeTemperature: nat, relativeHumidity: nat)
  {
    /** Each field's place, in the order the decoder reads them. */
    function Spans(): (ss: seq<Span>)
      ensures |ss| == 12
    {
      [Span(state, 1), Span(errorCode, 2), Span(workingFlags, 2), Span(outputStatus, 2),
       Span(sensorStatus, 2), Span(o2, 4), Span(massFlow, 4), Span(co2, 4), Span(tankPressure, 4),
       Span(proportionalValvePressure, 4), Span(relativeTemperature, 4), Span(relativeHumidity, 4)]
    }

    /** Every field lies inside `n` bytes. */
    predicate Fits(n: nat)
    {
      state < n && errorCode + 2 <= n && workingFlags + 2 <= n && outputStatus + 2 <= n &&
      sensorStatus + 2 <= n && o2 + 4 <= n && massFlow + 4 <= n && co2 + 4 <= n &&
      tankPressure + 4 <= n && proportionalValvePressure + 4 <= n &&
      relativeTemperature + 4 <= n && relativeHumidity + 4 <= n
    }
  }

  lemma CcuFitsInside(o: CcuOffsets, n: nat)
    ensures o.Fits(n) <==> Inside(o.Spans(), n)
  {
    var ss := o.Spans();
    if Inside(ss, n) {
      assert ss[0].End() <= n && ss[1].End() <= n && ss[2].End() <= n && ss[3].End() <= n;
      assert ss[4].End() <= n && ss[5].End() <= n && ss[6].End() <= n && ss[7].End() <= n;
      assert ss[8].End() <= n && ss[9].End() <= n && ss[10].End() <= n && ss[11].End() <= n;
    }
  }

  /** The T_M_CMU_*_INDEX offsets; `heaters` is T_M_CMU_HEATER_1_TEMPERAUTE_INDEX,
      and heater `i` follows at `heaters + 4 * i`. */
  datatype CmuOffsets = CmuOffsets(
    state: nat, errorCode: nat, workingFlags: nat, outputStatus: nat, sensorStatus: nat,
    vacuumChamber: nat, ambientTemperature: nat, ambientHumidity: nat,
    numberOfHeaters: nat, heaterStatus: nat, heaters: nat)
  {
    function FixedSpans(): (ss: seq<Span>)
      ensures |ss| == 10
    {
      [Span(state, 1), Span(errorCode, 2), Span(workingFlags, 2), Span(outputStatus, 2),
       Span(sensorStatus, 2), Span(vacuumChamber, 4), Span(ambientTemperature, 4),
       Span(ambientHumidity, 4), Span(numberOfHeaters, 1), Span(heaterStatus, 2)]
    }

    function HeaterSpans(count: nat): (ss: seq<Span>)
      ensures |ss| == count
      ensures forall i :: 0 <= i < count ==> ss[i] == Span(heaters + 4 * i, 4)
    {
      seq(count, i requires 0 <= i < count => Span(heaters + 4 * i, 4))
    }

    /** Every field of a record carrying `count` heaters. */
    function Spans(count: nat): (ss: seq<Span>)
      ensures |ss| == 10 + count
    {
      FixedSpans() + HeaterSpans(count)
    }

    /** Every field before the heater list lies inside `n` bytes. */
    predicate Fits(n: nat)
    {
      state < n && errorCode + 2 <= n && workingFlags + 2 <= n && outputStatus + 2 <= n &&
      sensorStatus + 2 <= n && vacuumChamber + 4 <= n && ambientTemperature + 4 <= n &&
      ambientHumidity + 4 <= n && numberOfHeaters < n && heaterStatus + 2 <= n
    }

    /** `count` heaters lie inside `n` bytes. */
    predicate HeatersFit(count: nat, n: nat)
    {
      count == 0 || heaters + 4 * count <= n
    }
  }

  lemma CmuFitsInside(o: CmuOffsets, count: nat, n: nat)
    ensures o.Fits(n) && o.HeatersFit(count, n) ==> Inside(o.Spans(count), n)
  {
    var ss := o.Spans(count);
    if o.Fits(n) && o.HeatersFit(count, n) {
      forall k | 0 <= k < |ss|
        ensures ss[k].End() <= n
      {
        if k >= 10 {
          assert ss[k] == o.HeaterSpans(count)[k - 10];
        }
      }
    }
  }

  // ---------------------------------------------------------------------
  // prvReadCcuData

  /** The raw CCU fields as the decoder accumulates them. */
  function CcuWireAt(data: seq<byte>, o: CcuOffsets): CcuWire
    requires o.Fits(|data|)
  {
    CcuWire(data[o.state], BeU16(data, o.errorCode), BeU16(data, o.workingFlags),
            BeU16(data, o.outputStatus), BeU16(data, o.sensorStatus),
            BeU32(data, o.o2), BeS32(data, o.massFlow), BeU32(data, o.co2),
            BeU32(data, o.tankPressure), BeU32(data, o.proportionalValvePressure),
            BeS32(data, o.relativeTemperature), BeS32(data, o.relativeHumidity))
  }

  /** Every sensor as raw / 65536. */
  function ToCcu(w: CcuWire): CcuTelemetry
  {
    CcuTelemetry(w.state, w.errorCode, w.workingFlags, w.outputStatus, w.sensorStatus,
                 Q16(w.o2), Q16(w.massFlow), Q16(w.co2), Q16(w.tankPressure),
                 Q16(w.proportionalValvePressure), Q16(w.relativeTemperature),
                 Q16(w.relativeHumidity))
  }

  /** The conversion to engineering values loses nothing. */
  lemma ToCcuInjective(a: CcuWire, b: CcuWire)
    requires ToCcu(a) == ToCcu(b)
    ensures a == b
  {
    Q16Injective(a.o2, b.o2);
    Q16Injective(a.massFlow, b.massFlow);
    Q16Injective(a.co2, b.co2);
    Q16Injective(a.tankPressure, b.tankPressure);
    Q16Injective(a.proportionalValvePressure, b.proportionalValvePressure);
    Q16Injective(a.relativeTemperature, b.relativeTemperature);
    Q16Injective(a.relativeHumidity, b.relativeHumidity);
  }

  /** The sample prvReadCcuData builds: o2, co2, tank and valve pressure are
      never negative; mass flow and the relative temperature and humidity
      are negative exactly when their first byte has its top bit set. */
  function DecodeCcu(data: seq<byte>, o: CcuOffsets): (r: CcuTelemetry)
    requires o.Fits(|data|)
    ensures r.o2 >= 0.0 && r.co2 >= 0.0 && r.tankPressure >= 0.0 && r.proportionalValvePressure >= 0.0
    ensures r.massFlow < 0.0 <==> data[o.massFlow] >= 0x80
    ensures r.relativeTemperature < 0.0 <==> data[o.relativeTemperature] >= 0x80
    ensures r.relativeHumidity < 0.0 <==> data[o.relativeHumidity] >= 0x80
    ensures r.state == data[o.state]
  {
    var w := CcuWireAt(data, o);
    TopBit(data, o.massFlow);
    TopBit(data, o.relativeTemperature);
    TopBit(data, o.relativeHumidity);
    Q16Exact(w.o2);
    Q16Exact(w.massFlow);
    Q16Exact(w.co2);
    Q16Exact(w.tankPressure);
    Q16Exact(w.proportionalValvePressure);
    Q16Exact(w.relativeTemperature);
    Q16Exact(w.relativeHumidity);
    ToCcu(w)
  }

  /** The controller's side: each CCU field's bytes, in Spans() order. */
  function CcuChunks(w: CcuWire, o: CcuOffsets): (c: seq<seq<byte>>)
    ensures Shaped(o.Spans(), c)
  {
    [[w.state], EncodeU16(w.errorCode), EncodeU16(w.workingFlags), EncodeU16(w.outputStatus),
     EncodeU16(w.sensorStatus), EncodeU32(w.o2), EncodeS32(w.massFlow), EncodeU32(w.co2),
     EncodeU32(w.tankPressure), EncodeU32(w.proportionalValvePressure),
     EncodeS32(w.relativeTemperature), EncodeS32(w.relativeHumidity)]
  }

  /** A CCU record laid over `base`: every field in place, every other byte kept. */
  function EncodeCcu(w: CcuWire, o: CcuOffsets, base: seq<byte>): (data: seq<byte>)
    requires o.Fits(|base|)
    ensures |data| == |base|
  {
    CcuFitsInside(o, |base|);
    PutAll(base, o.Spans(), CcuChunks(w, o))
  }

  /** Bytes whose CCU fields hold a record's encodings decode to that record. */
  lemma CcuCarriedDecodes(data: seq<byte>, o: CcuOffsets, w: CcuWire)
    requires o.Fits(|data|)
    requires Inside(o.Spans(), |data|) && Carries(data, o.Spans(), CcuChunks(w, o))
    ensures CcuWireAt(data, o) == w
  {
    CcuHeadCarried(data, o, w);
    CcuTailCarried(data, o, w);
  }

  /** The state, the four status words and the O2 reading. */
  lemma CcuHeadCarried(data: seq<byte>, o: CcuOffsets, w: CcuWire)
    requires o.Fits(|data|)
    requires Inside(o.Spans(), |data|) && Carries(data, o.Spans(), CcuChunks(w, o))
    ensures data[o.state] == w.state && BeU16(data, o.errorCode) == w.errorCode
    ensures BeU16(data, o.workingFlags) == w.workingFlags && BeU16(data, o.outputStatus) == w.outputStatus
    ensures BeU16(data, o.sensorStatus) == w.sensorStatus && BeU32(data, o.o2) == w.o2
  {
    var ss := o.Spans();
    var c := CcuChunks(w, o);
    assert data[o.state..o.state + 1] == c[0] by { assert ss[0] == Span(o.state, 1); }
    assert data[o.state] == data[o.state..o.state + 1][0];
    BeU16Of(data, o.errorCode, w.errorCode) by { assert ss[1] == Span(o.errorCode, 2); }
    BeU16Of(data, o.workingFlags, w.workingFlags) by { assert ss[2] == Span(o.workingFlags, 2); }
    BeU16Of(data, o.outputStatus, w.outputStatus) by { assert ss[3] == Span(o.outputStatus, 2); }
    BeU16Of(data, o.sensorStatus, w.sensorStatus) by { assert ss[4] == Span(o.sensorStatus, 2); }
    BeU32Of(data, o.o2, w.o2) by { assert ss[5] == Span(o.o2, 4); }
  }

  /** The remaining six sensor readings. */
  lemma CcuTailCarried(data: seq<byte>, o: CcuOffsets, w: CcuWire)
    requires o.Fits(|data|)
    requires Inside(o.Spans(), |data|) && Carries(data, o.Spans(), CcuChunks(w, o))
    ensures BeS32(data, o.massFlow) == w.massFlow && BeU32(data, o.co2) == w.co2
    ensures BeU32(data, o.tankPressure) == w.tankPressure
    ensures BeU32(data, o.proportionalValvePressure) == w.proportionalValvePressure
    ensures BeS32(data, o.relativeTemperature) == w.relativeTemperature
    ensures BeS32(data, o.relativeHumidity) == w.relativeHumidity
  {
    var ss := o.Spans();
    BeS32Of(data, o.massFlow, w.massFlow) by { assert ss[6] == Span(o.massFlow, 4); }
    BeU32Of(data, o.co2, w.co2) by { assert ss[7] == Span(o.co2, 4); }
    BeU32Of(data, o.tankPressure, w.tankPressure) by { assert ss[8] == Span(o.tankPressure, 4); }
    BeU32Of(data, o.proportionalValvePressure, w.proportionalValvePressure) by {
      assert ss[9] == Span(o.proportionalValvePressure, 4);
    }
    BeS32Of(data, o.relativeTemperature, w.relativeTemperature) by {
      assert ss[10] == Span(o.relativeTemperature, 4);
    }
    BeS32Of(data, o.relativeHumidity, w.relativeHumidity) by {
      assert ss[11] == Span(o.relativeHumidity, 4);
    }
  }

  /** With no two CCU fields overlapping, decoding an encoded record gives it back. */
  lemma CcuRoundTrip(w: CcuWire, o: CcuOffsets, base: seq<byte>)
    requires o.Fits(|base|) && Separate(o.Spans())
    ensures CcuWireAt(EncodeCcu(w, o, base), o) == w
    ensures DecodeCcu(EncodeCcu(w, o, base), o) == ToCcu(w)
  {
    CcuFitsInside(o, |base|);
    PutAllCarries(base, o.Spans(), CcuChunks(w, o));
    CcuCarriedDecodes(EncodeCcu(w, o, base), o, w);
  }

  /** Re-encoding the decoded fields in place reproduces the bytes. */
  lemma CcuReencodes(data: seq<byte>, o: CcuOffsets)
    requires o.Fits(|data|)
    ensures EncodeCcu(CcuWireAt(data, o), o, data) == data
  {
    CcuFitsInside(o, |data|);
    CcuFieldsCarried(data, o);
    PutAllKeeps(data, o.Spans(), CcuChunks(CcuWireAt(data, o), o));
  }

  /** Each CCU field holds the encoding of the value decoded from it. */
  lemma CcuFieldsCarried(data: seq<byte>, o: CcuOffsets)
    requires o.Fits(|data|) && Inside(o.Spans(), |data|)
    ensures Carries(data, o.Spans(), CcuChunks(CcuWireAt(data, o), o))
  {
    var w := CcuWireAt(data, o);
    var ss := o.Spans();
    var c := CcuChunks(w, o);
    forall k | 0 <= k < 6
      ensures data[ss[k].at..ss[k].End()] == c[k]
    {
      if k == 0 {
      } else if k == 1 {
        BeU16Bytes(data, o.errorCode);
      } else if k == 2 {
        BeU16Bytes(data, o.workingFlags);
      } else if k == 3 {
        BeU16Bytes(data, o.outputStatus);
      } else if k == 4 {
        BeU16Bytes(data, o.sensorStatus);
      } else {
        BeU32Bytes(data, o.o2);
      }
    }
    forall k | 6 <= k < 12
      ensures data[ss[k].at..ss[k].End()] == c[k]
    {
      if k == 6 {
        BeS32Bytes(data, o.massFlow);
      } else if k == 7 {
        BeU32Bytes(data, o.co2);
      } else if k == 8 {
        BeU32Bytes(data, o.tankPressure);
      } else if k == 9 {
        BeU32Bytes(data, o.proportionalValvePressure);
      } else if k == 10 {
        BeS32Bytes(data, o.relativeTemperature);
      } else {
        BeS32Bytes(data, o.relativeHumidity);
      }
    }
  }

  // ---------------------------------------------------------------------
  // The two windows

  /** xCcuTelemetry and xCmuTelemetry with their write cursors. */
  datatype Store = Store(ccu: Window<CcuTelemetry>, cmu: Window<CmuTelemetry>)
  {
    /** Both windows are well formed and every CMU sample holds `capacity` heaters. */
    predicate Valid(capacity: nat)
    {
      ccu.Valid() && cmu.Valid() &&
      forall j :: 0 <= j < NumberOfSamples ==> |cmu.slots[j].heaterTemperatures| == capacity
    }
  }

  const ZeroCcu: CcuTelemetry := CcuTelemetry(0, 0, 0, 0, 0, 0.0, 0.0, 0.0, 0.0, 0.0, 0.0, 0.0)

  function ZeroCmu(capacity: nat): (z: CmuTelemetry)
    ensures |z.heaterTemperatures| == capacity
  {
    CmuTelemetry(0, 0, 0, 0, 0, 0.0, 0.0, 0.0, 0, 0, seq(capacity, _ => 0.0))
  }

  /** Power-up: zeroed samples, both cursors at 0. */
  function InitialStore(capacity: nat): (s: Store)
    ensures s.Valid(capacity) && s.ccu.cursor == 0 && s.cmu.cursor == 0
  {
    Store(Init(ZeroCcu), Init(ZeroCmu(capacity)))
  }

  /** prvReadCcuData: the decoded sample goes under the CCU cursor, which
      moves on; every other CCU slot and the whole CMU window are untouched. */
  function ReadCcuData(s: Store, data: seq<byte>, o: CcuOffsets): (s': Store)
    requires s.ccu.Valid() && o.Fits(|data|)
    ensures s'.ccu.Valid() && s'.cmu == s.cmu
    ensures s'.ccu.cursor == (s.ccu.cursor + 1) % NumberOfSamples
    ensures s'.ccu.slots[s.ccu.cursor] == DecodeCcu(data, o)
    ensures forall j :: 0 <= j < NumberOfSamples && j != s.ccu.cursor ==> s'.ccu.slots[j] == s.ccu.slots[j]
  {
    s.(ccu := Write(s.ccu, DecodeCcu(data, o)))
  }

  // ---------------------------------------------------------------------
  // prvReadCmuData

  /** The heater raws at `at`, `at + 4`, ... */
  function HeaterRaws(data: seq<byte>, at: nat, count: nat): (hs: seq<u32>)
    requires count == 0 || at + 4 * count <= |data|
    ensures |hs| == count
    ensures forall i :: 0 <= i < count ==> hs[i] == BeU32(data, at + 4 * i)
  {
    seq(count, i requires 0 <= i < count => BeU32(data, at + 4 * i))
  }

  /** The heater count byte of a CMU payload. */
  function HeaterCount(data: seq<byte>, o: CmuOffsets): byte
    requires o.Fits(|data|)
  {
    data[o.numberOfHeaters]
  }

  /** The raw CMU fields, with as many heaters as the count byte says. */
  function CmuWireAt(data: seq<byte>, o: CmuOffsets): CmuWire
    requires o.Fits(|data|) && o.HeatersFit(HeaterCount(data, o), |data|)
  {
    CmuWire(data[o.state], BeU16(data, o.errorCode), BeU16(data, o.workingFlags),
            BeU16(data, o.outputStatus), BeU16(data, o.sensorStatus),
            BeU32(data, o.vacuumChamber), BeS32(data, o.ambientTemperature),
            BeU32(data, o.ambientHumidity), data[o.numberOfHeaters], BeU16(data, o.heaterStatus),
            HeaterRaws(data, o.heaters, HeaterCount(data, o)))
  }

  /** The heater array after the loop: the first `|raws|` entries decoded,
      the rest as they were in the slot. */
  function HeaterValues(raws: seq<u32>, prior: seq<real>): (vs: seq<real>)
    requires |raws| <= |prior|
    ensures |vs| == |prior|
    ensures forall i :: 0 <= i < |raws| ==> vs[i] * 65536.0 == raws[i] as real
    ensures forall i :: |raws| <= i < |prior| ==> vs[i] == prior[i]
  {
    seq(|prior|, i requires 0 <= i < |prior| => if i < |raws| then Q16(raws[i]) else prior[i])
  }

  /** The sample that replaces `prior`. */
  function ToCmu(w: CmuWire, prior: CmuTelemetry): CmuTelemetry
    requires |w.heaterTemperatures| <= |prior.heaterTemperatures|
  {
    CmuTelemetry(w.state, w.errorCode, w.workingFlags, w.outputStatus, w.sensorStatus,
                 Q16(w.vacuumChamber), Q16(w.ambientTemperature), Q16(w.ambientHumidity),
                 w.numberOfHeaters, w.heaterStatus,
                 HeaterValues(w.heaterTemperatures, prior.heaterTemperatures))
  }

  /** Whether the decoder stays inside the payload and the heater array:
      the heater count comes from the packet unchecked, so a count above the
      array's capacity, or one whose heaters run past the received bytes, is
      an out-of-bounds access. */
  predicate CmuInBounds(data: seq<byte>, o: CmuOffsets, capacity: nat)
    requires o.Fits(|data|)
  {
    HeaterCount(data, o) <= capacity && o.HeatersFit(HeaterCount(data, o), |data|)
  }

  /** prvReadCmuData. The sample is written into the CMU slot under the CCU
      cursor, while it is the CMU cursor that moves on. `None` stands for the
      out-of-bounds access of CmuInBounds, which has no defined result. */
  function ReadCmuData(s: Store, data: seq<byte>, o: CmuOffsets, capacity: nat): (r: Option<Store>)
    requires s.Valid(capacity) && o.Fits(|data|)
    ensures r.Some? <==> CmuInBounds(data, o, capacity)
    ensures r.Some? ==> r.value.Valid(capacity) && r.value.ccu == s.ccu
    ensures r.Some? ==> r.value.cmu.cursor == (s.cmu.cursor + 1) % NumberOfSamples
    ensures r.Some? ==> r.value.cmu.slots[s.ccu.cursor].state == data[o.state]
    ensures r.Some? ==> r.value.cmu.slots[s.ccu.cursor].numberOfHeaters == HeaterCount(data, o)
    ensures r.Some? ==> forall i :: 0 <= i < HeaterCount(data, o) ==>
      r.value.cmu.slots[s.ccu.cursor].heaterTemperatures[i] * 65536.0 == BeU32(data, o.heaters + 4 * i) as real
    ensures r.Some? ==> forall i :: HeaterCount(data, o) <= i < capacity ==>
      r.value.cmu.slots[s.ccu.cursor].heaterTemperatures[i] == s.cmu.slots[s.ccu.cursor].heaterTemperatures[i]
    ensures r.Some? ==> forall j :: 0 <= j < NumberOfSamples && j != s.ccu.cursor ==>
      r.value.cmu.slots[j] == s.cmu.slots[j]
  {
    if !CmuInBounds(data, o, capacity) then None
    else
      var sample := ToCmu(CmuWireAt(data, o), s.cmu.slots[s.ccu.cursor]);
      Some(s.(cmu := Window(s.cmu.slots[s.ccu.cursor := sample], Advance(s.cmu.cursor))))
  }

  /** The controller's side: each CMU field's bytes, in Spans() order. */
  function CmuChunks(w: CmuWire, o: CmuOffsets): (c: seq<seq<byte>>)
    ensures Shaped(o.Spans(|w.heaterTemperatures|), c)
  {
    var fixed := [[w.state], EncodeU16(w.errorCode), EncodeU16(w.workingFlags),
                  EncodeU16(w.outputStatus), EncodeU16(w.sensorStatus), EncodeU32(w.vacuumChamber),
                  EncodeS32(w.ambientTemperature), EncodeU32(w.ambientHumidity),
                  [w.numberOfHeaters], EncodeU16(w.heaterStatus)];
    var n := |w.heaterTemperatures|;
    var heaters := seq(n, i requires 0 <= i < n => EncodeU32(w.heaterTemperatures[i]));
    assert forall k :: 10 <= k < 10 + n ==> o.Spans(n)[k] == o.HeaterSpans(n)[k - 10];
    fixed + heaters
  }

  /** A CMU record laid over `base`. */
  function EncodeCmu(w: CmuWire, o: CmuOffsets, base: seq<byte>): (data: seq<byte>)
    requires o.Fits(|base|) && o.HeatersFit(|w.heaterTemperatures|, |base|)
    ensures |data| == |base|
  {
    CmuFitsInside(o, |w.heaterTemperatures|, |base|);
    PutAll(base, o.Spans(|w.heaterTemperatures|), CmuChunks(w, o))
  }

  /** A well-formed CMU record: its count byte is its number of heaters. */
  predicate CountsHeaters(w: CmuWire)
  {
    w.numberOfHeaters == |w.heaterTemperatures|
  }

  /** Bytes whose CMU fields hold a record's encodings decode to that record. */
  lemma CmuCarriedDecodes(data: seq<byte>, o: CmuOffsets, w: CmuWire)
    requires CountsHeaters(w) && o.Fits(|data|)
    requires Inside(o.Spans(|w.heaterTemperatures|), |data|)
    requires Carries(data, o.Spans(|w.heaterTemperatures|), CmuChunks(w, o))
    ensures HeaterCount(data, o) == w.numberOfHeaters && o.HeatersFit(HeaterCount(data, o), |data|)
    ensures CmuWireAt(data, o) == w
  {
    CmuFixedCarried(data, o, w);
    CmuHeatersCarried(data, o, w);
  }

  /** The heater list. */
  lemma CmuHeatersCarried(data: seq<byte>, o: CmuOffsets, w: CmuWire)
    requires Inside(o.Spans(|w.heaterTemperatures|), |data|)
    requires Carries(data, o.Spans(|w.heaterTemperatures|), CmuChunks(w, o))
    ensures o.HeatersFit(|w.heaterTemperatures|, |data|)
    ensures HeaterRaws(data, o.heaters, |w.heaterTemperatures|) == w.heaterTemperatures
  {
    var n := |w.heaterTemperatures|;
    var ss := o.Spans(n);
    if n > 0 {
      assert ss[10 + n - 1] == o.HeaterSpans(n)[n - 1];
    }
    forall i | 0 <= i < n
      ensures BeU32(data, o.heaters + 4 * i) == w.heaterTemperatures[i]
    {
      assert ss[10 + i] == o.HeaterSpans(n)[i];
      BeU32Of(data, o.heaters + 4 * i, w.heaterTemperatures[i]);
    }
  }

  /** The fields before the heater list. */
  lemma CmuFixedCarried(data: seq<byte>, o: CmuOffsets, w: CmuWire)
    requires o.Fits(|data|)
    requires Inside(o.Spans(|w.heaterTemperatures|), |data|)
    requires Carries(data, o.Spans(|w.heaterTemperatures|), CmuChunks(w, o))
    ensures data[o.state] == w.state && data[o.numberOfHeaters] == w.numberOfHeaters
    ensures BeU16(data, o.errorCode) == w.errorCode && BeU16(data, o.workingFlags) == w.workingFlags
    ensures BeU16(data, o.outputStatus) == w.outputStatus && BeU16(data, o.sensorStatus) == w.sensorStatus
    ensures BeU32(data, o.vacuumChamber) == w.vacuumChamber
    ensures BeS32(data, o.ambientTemperature) == w.ambientTemperature
    ensures BeU32(data, o.ambientHumidity) == w.ambientHumidity
    ensures BeU16(data, o.heaterStatus) == w.heaterStatus
  {
    var ss := o.Spans(|w.heaterTemperatures|);
    var c := CmuChunks(w, o);
    assert data[o.state..o.state + 1] == c[0] by { assert ss[0] == Span(o.state, 1); }
    assert data[o.state] == data[o.state..o.state + 1][0];
    assert data[o.numberOfHeaters..o.numberOfHeaters + 1] == c[8] by {
      assert ss[8] == Span(o.numberOfHeaters, 1);
    }
    assert data[o.numberOfHeaters] == data[o.numberOfHeaters..o.numberOfHeaters + 1][0];
    BeU16Of(data, o.errorCode, w.errorCode) by { assert ss[1] == Span(o.errorCode, 2); }
    BeU16Of(data, o.workingFlags, w.workingFlags) by { assert ss[2] == Span(o.workingFlags, 2); }
    BeU16Of(data, o.outputStatus, w.outputStatus) by { assert ss[3] == Span(o.outputStatus, 2); }
    BeU16Of(data, o.sensorStatus, w.sensorStatus) by { assert ss[4] == Span(o.sensorStatus, 2); }
    BeU32Of(data, o.vacuumChamber, w.vacuumChamber) by { assert ss[5] == Span(o.vacuumChamber, 4); }
    BeS32Of(data, o.ambientTemperature, w.ambientTemperature) by {
      assert ss[6] == Span(o.ambientTemperature, 4);
    }
    BeU32Of(data, o.ambientHumidity, w.ambientHumidity) by { assert ss[7] == Span(o.ambientHumidity, 4); }
    BeU16Of(data, o.heaterStatus, w.heaterStatus) by { assert ss[9] == Span(o.heaterStatus, 2); }
  }

  /** With no two CMU fields overlapping and no more heaters than the array
      holds, an encoded record is stored as itself, the heaters past its count
      keeping the slot's previous values. */
  lemma CmuRoundTrip(s: Store, w: CmuWire, o: CmuOffsets, base: seq<byte>, capacity: nat)
    requires s.Valid(capacity) && CountsHeaters(w) && |w.heaterTemperatures| <= capacity
    requires o.Fits(|base|) && o.HeatersFit(|w.heaterTemperatures|, |base|)
    requires Separate(o.Spans(|w.heaterTemperatures|))
    ensures CmuInBounds(EncodeCmu(w, o, base), o, capacity)
    ensures ReadCmuData(s, EncodeCmu(w, o, base), o, capacity).Some?
    ensures ReadCmuData(s, EncodeCmu(w, o, base), o, capacity).value.cmu.slots[s.ccu.cursor]
            == ToCmu(w, s.cmu.slots[s.ccu.cursor])
  {
    CmuFitsInside(o, |w.heaterTemperatures|, |base|);
    PutAllCarries(base, o.Spans(|w.heaterTemperatures|), CmuChunks(w, o));
    CmuCarriedDecodes(EncodeCmu(w, o, base), o, w);
  }

  // ---------------------------------------------------------------------
  // What the cursor mix-up does to the CMU window

  /** When the two cursors differ, the slot a reader takes as the newest CMU
      sample (the one behind the CMU cursor) is the one that was under the
      CMU cursor before, not the sample just decoded. */
  lemma CmuLatestIsStale(s: Store, data: seq<byte>, o: CmuOffsets, capacity: nat)
    requires s.Valid(capacity) && o.Fits(|data|) && CmuInBounds(data, o, capacity)
    requires s.ccu.cursor != s.cmu.cursor
    ensures var s' := ReadCmuData(s, data, o, capacity).value;
      s'.cmu.slots[LatestIndex(s'.cmu.cursor)] == s.cmu.slots[s.cmu.cursor]
  {
    var s' := ReadCmuData(s, data, o, capacity).value;
    LatestIndexUnique(s'.cmu.cursor, s.cmu.cursor);
  }

  /** Without a CCU packet between them, two CMU packets land in the same
      slot: the second overwrites the first, and no other slot changes. */
  lemma CmuOverwritesItself(s: Store, d1: seq<byte>, d2: seq<byte>, o: CmuOffsets, capacity: nat)
    requires s.Valid(capacity) && o.Fits(|d1|) && o.Fits(|d2|)
    requires CmuInBounds(d1, o, capacity) && CmuInBounds(d2, o, capacity)
    ensures var s1 := ReadCmuData(s, d1, o, capacity).value;
      var s2 := ReadCmuData(s1, d2, o, capacity).value;
      s2.ccu == s.ccu &&
      s2.cmu.slots[s.ccu.cursor] == ToCmu(CmuWireAt(d2, o), s1.cmu.slots[s.ccu.cursor]) &&
      forall j :: 0 <= j < NumberOfSamples && j != s.ccu.cursor ==> s2.cmu.slots[j] == s.cmu.slots[j]
  {
  }

  /** When the cursors agree and a CMU packet is followed by a CCU packet,
      the cursors still agree afterwards and the CMU sample is the newest one
      a reader finds: strict alternation hides the mix-up. */
  lemma AlternationKeepsCursorsTogether(s: Store, cmu: seq<byte>, co: CmuOffsets, ccu: seq<byte>, o: CcuOffsets, capacity: nat)
    requires s.Valid(capacity) && co.Fits(|cmu|) && CmuInBounds(cmu, co, capacity) && o.Fits(|ccu|)
    requires s.ccu.cursor == s.cmu.cursor
    ensures var s1 := ReadCmuData(s, cmu, co, capacity).value;
      var s2 := ReadCcuData(s1, ccu, o);
      s2.ccu.cursor == s2.cmu.cursor &&
      s2.cmu.slots[LatestIndex(s2.cmu.cursor)] == ToCmu(CmuWireAt(cmu, co), s.cmu.slots[s.cmu.cursor]) &&
      s2.ccu.slots[LatestIndex(s2.ccu.cursor)] == DecodeCcu(ccu, o)
  {
    var s1 := ReadCmuData(s, cmu, co, capacity).value;
    var s2 := ReadCcuData(s1, ccu, o);
    LatestIndexUnique(s2.cmu.cursor, s.cmu.cursor);
  }
}
