/** The legacy receiver, read_incoming_system_data: a four-state machine that
    is resumed once per task iteration. Each state asks the byte source for a
    fixed number of bytes, which either arrive in full or not at all (FAILED).
    State 0 hunts for 'D'; state 1 takes the next three bytes and checks the
    tag; state 2 takes the rest of a unit or skid message and, when the CRC-8
    matches, decodes it into that source's sample window; state 3 zeroes the
    64-byte buffer and starts over. */
module LegacyFramer {
  import opened Bytes
  import opened Wrappers
  import opened SystemData
  import opened SampleWindow
  import Crc8
  import opened LegacyCodec

  const BufferLength: nat := 64

  /** The `state` variable: 0, 1, 2 and 3. */
  datatype Phase = AwaitSync | AwaitPrefix | AwaitBody | Reset

  /** The receiver's static buffer and state together with the two sample windows it fills. */
  datatype Link = Link(phase: Phase, buf: seq<byte>, units: Window<UnitStatus>, skids: Window<SkidStatus>)
  {
    predicate Valid()
    {
      |buf| == BufferLength && units.Valid() && skids.Valid()
    }
  }

  /** The buffer after memset. */
  function Zeros(): (z: seq<byte>)
    ensures |z| == BufferLength && forall j :: 0 <= j < BufferLength ==> z[j] == 0
  {
    seq(BufferLength, _ => 0)
  }

  /** Power-up: state 0, zeroed buffer, zeroed windows with their cursors at 0. */
  function Initial(): (l: Link)
    ensures l.Valid() && l.phase == AwaitSync
  {
    Link(AwaitSync, Zeros(), Init(ZeroUnit), Init(ZeroSkid))
  }

  /** The number of bytes the current state asks the byte source for, 0 when it does not poll. */
  function Wanted(l: Link): nat
    requires l.Valid()
  {
    match l.phase
    case AwaitSync => 1
    case AwaitPrefix => 3
    case AwaitBody =>
      if l.buf[2] == UnitTag then MessageLengthUnitStatus - MessageHeaderLength
      else if l.buf[2] == SkidTag then MessageLengthSkidStatus - MessageHeaderLength
      else 0
    case Reset => 0
  }

  predicate Polls(l: Link)
    requires l.Valid()
  {
    Wanted(l) > 0
  }

  /** One call of read_incoming_system_data. `reply` is what the byte source
      gives the state's poll: `None` for FAILED, otherwise exactly the bytes
      asked for. */
  function Step(l: Link, reply: Option<seq<byte>>): (l': Link)
    requires l.Valid()
    requires Polls(l) && reply.Some? ==> |reply.value| == Wanted(l)
    ensures l'.Valid()
    ensures Polls(l) && reply.None? ==> l' == l
    ensures l.phase != AwaitBody ==> l'.units == l.units && l'.skids == l.skids
    ensures l'.units == l.units || l'.skids == l.skids
  {
    match l.phase
    case AwaitSync =>
      if reply.None? then l
      else
        var buf := Put(l.buf, 0, reply.value);
        Link(if buf[0] == Sync then AwaitPrefix else AwaitSync, buf, l.units, l.skids)
    case AwaitPrefix =>
      if reply.None? then l
      else
        var buf := Put(l.buf, 1, reply.value);
        Link(if buf[2] == UnitTag || buf[2] == SkidTag then AwaitBody else Reset, buf, l.units, l.skids)
    case AwaitBody =>
      if l.buf[2] == UnitTag then
        if reply.None? then l
        else
          var buf := Put(l.buf, MessageHeaderLength, reply.value);
          var n := MessageLengthUnitStatus - 1;
          Link(Reset, buf, if Crc8.Crc(buf[..n]) == buf[n] then Write(l.units, ReadUnitStatus(buf)) else l.units, l.skids)
      else if l.buf[2] == SkidTag then
        if reply.None? then l
        else
          var buf := Put(l.buf, MessageHeaderLength, reply.value);
          var n := MessageLengthSkidStatus - 1;
          Link(Reset, buf, l.units, if Crc8.Crc(buf[..n]) == buf[n] then Write(l.skids, ReadSkidStatus(buf)) else l.skids)
      else l
    case Reset => Link(AwaitSync, Zeros(), l.units, l.skids)
  }

  // ---------------------------------------------------------------------
  // One state at a time

  /** State 0 moves on exactly when the byte is 'D'; nothing is decoded. */
  lemma SyncStep(l: Link, b: byte)
    requires l.Valid() && l.phase == AwaitSync
    ensures Step(l, Some([b])).phase == (if b == Sync then AwaitPrefix else AwaitSync)
    ensures Step(l, Some([b])).buf[0] == b
  {
    assert Step(l, Some([b])).buf[0..1] == [b];
  }

  /** State 1 goes on to read a body exactly when the tag byte is 'U' or 'S',
      and otherwise to the reset state. */
  lemma PrefixStep(l: Link, prefix: seq<byte>)
    requires l.Valid() && l.phase == AwaitPrefix && |prefix| == 3
    ensures Step(l, Some(prefix)).buf[1..4] == prefix
    ensures Step(l, Some(prefix)).phase == (if prefix[1] in {UnitTag, SkidTag} then AwaitBody else Reset)
  {
    assert Step(l, Some(prefix)).buf[2] == Step(l, Some(prefix)).buf[1..4][1];
  }

  /** A complete unit body is decoded into the unit window exactly when the
      message's last byte is the CRC-8 of the bytes before it; either way the
      next state is the reset state and the skid window is untouched. */
  lemma UnitBodyStep(l: Link, body: seq<byte>)
    requires l.Valid() && l.phase == AwaitBody && l.buf[2] == UnitTag
    requires |body| == MessageLengthUnitStatus - MessageHeaderLength
    ensures var l' := Step(l, Some(body));
      var m := l'.buf[..MessageLengthUnitStatus];
      && l'.phase == Reset
      && m == l.buf[..MessageHeaderLength] + body
      && l'.units == (if Crc8.Framed(m) then Write(l.units, ReadUnitStatus(l'.buf)) else l.units)
      && l'.skids == l.skids
  {
    var l' := Step(l, Some(body));
    var m := l'.buf[..MessageLengthUnitStatus];
    assert m == l.buf[..MessageHeaderLength] + body;
    assert m[..MessageLengthUnitStatus - 1] == l'.buf[..MessageLengthUnitStatus - 1];
  }

  lemma SkidBodyStep(l: Link, body: seq<byte>)
    requires l.Valid() && l.phase == AwaitBody && l.buf[2] == SkidTag
    requires |body| == MessageLengthSkidStatus - MessageHeaderLength
    ensures var l' := Step(l, Some(body));
      var m := l'.buf[..MessageLengthSkidStatus];
      && l'.phase == Reset
      && m == l.buf[..MessageHeaderLength] + body
      && l'.skids == (if Crc8.Framed(m) then Write(l.skids, ReadSkidStatus(l'.buf)) else l.skids)
      && l'.units == l.units
  {
    var l' := Step(l, Some(body));
    var m := l'.buf[..MessageLengthSkidStatus];
    assert m == l.buf[..MessageHeaderLength] + body;
    assert m[..MessageLengthSkidStatus - 1] == l'.buf[..MessageLengthSkidStatus - 1];
  }

  /** State 3 returns to state 0 with the whole buffer zeroed, whatever the byte source does. */
  lemma ResetStep(l: Link, reply: Option<seq<byte>>)
    requires l.Valid() && l.phase == Reset
    ensures var l' := Step(l, reply);
      l'.phase == AwaitSync && l'.units == l.units && l'.skids == l.skids
      && forall j :: 0 <= j < BufferLength ==> l'.buf[j] == 0
  {
  }

  // ---------------------------------------------------------------------
  // What holds between calls

  /** In states 1 and 2 the buffer starts with 'D', and in state 2 the tag is
      'U' or 'S', so state 2's do-nothing branch for other tags is never taken. */
  predicate Consistent(l: Link)
    requires l.Valid()
  {
    && (l.phase in {AwaitPrefix, AwaitBody} ==> l.buf[0] == Sync)
    && (l.phase == AwaitBody ==> l.buf[2] in {UnitTag, SkidTag})
  }

  lemma InitialConsistent()
    ensures Consistent(Initial())
  {
  }

  lemma StepConsistent(l: Link, reply: Option<seq<byte>>)
    requires l.Valid() && Consistent(l)
    requires Polls(l) && reply.Some? ==> |reply.value| == Wanted(l)
    ensures Consistent(Step(l, reply))
    ensures l.phase == AwaitBody ==> Polls(l)
  {
    if l.phase == AwaitPrefix && reply.Some? {
      PrefixStep(l, reply.value);
    }
  }

  // ---------------------------------------------------------------------
  // Whole messages

  /** The first two states, given the first four bytes of a message with a
      known tag, leave the receiver waiting for the body with those bytes in
      place and both windows untouched. */
  lemma PrefixDelivered(l: Link, m: seq<byte>)
    requires l.Valid() && l.phase == AwaitSync
    requires 4 <= |m| && m[0] == Sync && m[2] in {UnitTag, SkidTag}
    ensures Step(l, Some(m[..1])).phase == AwaitPrefix
    ensures var l2 := Step(Step(l, Some(m[..1])), Some(m[1..4]));
      && l2.phase == AwaitBody && l2.buf[..MessageHeaderLength] == m[..MessageHeaderLength]
      && l2.units == l.units && l2.skids == l.skids
  {
    assert m[..1] == [m[0]];
    SyncStep(l, m[0]);
    var l1 := Step(l, Some(m[..1]));
    PrefixStep(l1, m[1..4]);
    var l2 := Step(l1, Some(m[1..4]));
    assert l2.buf[..4] == m[..4] by {
      assert l2.buf[1..4] == m[1..4];
      assert l2.buf[0] == l1.buf[0] == m[0];
    }
  }

  /** The unit decoder reads only the first 61 bytes of the buffer. */
  lemma UnitWireAtPrefix(a: seq<byte>, b: seq<byte>)
    requires MessageLengthUnitStatus - 1 <= |a| && MessageLengthUnitStatus - 1 <= |b|
    requires a[..MessageLengthUnitStatus - 1] == b[..MessageLengthUnitStatus - 1]
    ensures UnitWireAt(a) == UnitWireAt(b)
  {
    forall j | 0 <= j < MessageLengthUnitStatus - 1
      ensures a[j] == b[j]
    {
      assert a[j] == a[..MessageLengthUnitStatus - 1][j];
    }
    assert HeaterRawsAt(a, UnitHeatersAt) == HeaterRawsAt(b, UnitHeatersAt);
  }

  lemma SkidWireAtPrefix(a: seq<byte>, b: seq<byte>)
    requires MessageLengthSkidStatus - 1 <= |a| && MessageLengthSkidStatus - 1 <= |b|
    requires a[..MessageLengthSkidStatus - 1] == b[..MessageLengthSkidStatus - 1]
    ensures SkidWireAt(a) == SkidWireAt(b)
  {
    var wa := SkidWireAt(a);
    var wb := SkidWireAt(b);
    SkidBytesRoundTrip(a);
    SkidBytesRoundTrip(b);
    SliceOfSlice(a, 0, MessageLengthSkidStatus - 1, RecordAt, MessageLengthSkidStatus - 1);
    SliceOfSlice(b, 0, MessageLengthSkidStatus - 1, RecordAt, MessageLengthSkidStatus - 1);
    SkidRoundTrip(a[..4], wa, []);
    SkidRoundTrip(a[..4], wb, []);
  }

  /** Delivering a correctly framed unit message in the chunks the receiver
      asks for, and then letting it pass its reset state, writes exactly one
      sample into the unit window, decoded from the message, and leaves the
      receiver as at power-up with the skid window untouched. */
  lemma FramedUnitStored(l: Link, m: seq<byte>)
    requires l.Valid() && l.phase == AwaitSync
    requires |m| == MessageLengthUnitStatus && m[0] == Sync && m[2] == UnitTag && Crc8.Framed(m)
    ensures Step(l, Some(m[..1])).phase == AwaitPrefix
    ensures var l2 := Step(Step(l, Some(m[..1])), Some(m[1..4]));
      l2.phase == AwaitBody && l2.buf[2] == UnitTag
    ensures var l3 := Step(Step(Step(l, Some(m[..1])), Some(m[1..4])), Some(m[4..]));
      var l4 := Step(l3, None);
      && l4.units == Write(l.units, ToUnitStatus(UnitWireAt(m)))
      && l4.skids == l.skids
      && l4.phase == AwaitSync && l4.buf == Zeros()
  {
    PrefixDelivered(l, m);
    var l2 := Step(Step(l, Some(m[..1])), Some(m[1..4]));
    assert l2.buf[2] == m[..4][2];
    UnitBodyFramed(l2, m);
  }

  /** A framed unit message whose first four bytes are in place is decoded into the unit window. */
  lemma UnitBodyFramed(l: Link, m: seq<byte>)
    requires l.Valid() && l.phase == AwaitBody && l.buf[2] == UnitTag
    requires |m| == MessageLengthUnitStatus && l.buf[..MessageHeaderLength] == m[..MessageHeaderLength]
    requires Crc8.Framed(m)
    ensures var l' := Step(l, Some(m[4..]));
      l'.phase == Reset && l'.skids == l.skids &&
      l'.units == Write(l.units, ToUnitStatus(UnitWireAt(m)))
  {
    UnitBodyStep(l, m[4..]);
    var l' := Step(l, Some(m[4..]));
    assert m[..MessageHeaderLength] + m[4..] == m;
    UnitMessageRead(l'.buf, m);
  }

  /** A buffer that starts with message `m` reads as `m` decodes. */
  lemma UnitMessageRead(buf: seq<byte>, m: seq<byte>)
    requires |m| == MessageLengthUnitStatus <= |buf| && buf[..MessageLengthUnitStatus] == m
    ensures ReadUnitStatus(buf) == ToUnitStatus(UnitWireAt(m))
  {
    assert buf[..MessageLengthUnitStatus - 1] == buf[..MessageLengthUnitStatus][..MessageLengthUnitStatus - 1];
    UnitWireAtPrefix(buf, m);
  }

  lemma FramedSkidStored(l: Link, m: seq<byte>)
    requires l.Valid() && l.phase == AwaitSync
    requires |m| == MessageLengthSkidStatus && m[0] == Sync && m[2] == SkidTag && Crc8.Framed(m)
    ensures Step(l, Some(m[..1])).phase == AwaitPrefix
    ensures var l2 := Step(Step(l, Some(m[..1])), Some(m[1..4]));
      l2.phase == AwaitBody && l2.buf[2] == SkidTag
    ensures var l3 := Step(Step(Step(l, Some(m[..1])), Some(m[1..4])), Some(m[4..]));
      var l4 := Step(l3, None);
      && l4.skids == Write(l.skids, ToSkidStatus(SkidWireAt(m)))
      && l4.units == l.units
      && l4.phase == AwaitSync && l4.buf == Zeros()
  {
    PrefixDelivered(l, m);
    var l2 := Step(Step(l, Some(m[..1])), Some(m[1..4]));
    assert l2.buf[2] == m[..4][2];
    SkidBodyFramed(l2, m);
  }

  lemma SkidBodyFramed(l: Link, m: seq<byte>)
    requires l.Valid() && l.phase == AwaitBody && l.buf[2] == SkidTag
    requires |m| == MessageLengthSkidStatus && l.buf[..MessageHeaderLength] == m[..MessageHeaderLength]
    requires Crc8.Framed(m)
    ensures var l' := Step(l, Some(m[4..]));
      l'.phase == Reset && l'.units == l.units &&
      l'.skids == Write(l.skids, ToSkidStatus(SkidWireAt(m)))
  {
    SkidBodyStep(l, m[4..]);
    var l' := Step(l, Some(m[4..]));
    assert m[..MessageHeaderLength] + m[4..] == m;
    SkidMessageRead(l'.buf, m);
  }

  /** A buffer that starts with message `m` reads as `m` decodes. */
  lemma SkidMessageRead(buf: seq<byte>, m: seq<byte>)
    requires |m| == MessageLengthSkidStatus <= |buf| && buf[..MessageLengthSkidStatus] == m
    ensures ReadSkidStatus(buf) == ToSkidStatus(SkidWireAt(m))
  {
    assert buf[..MessageLengthSkidStatus - 1] == buf[..MessageLengthSkidStatus][..MessageLengthSkidStatus - 1];
    SkidWireAtPrefix(buf, m);
  }

  /** End to end: a unit record packed and framed by the controller arrives
      in the unit window exactly as it was packed, as the newest sample. */
  lemma UnitMessageStored(l: Link, w: UnitWire, r1: byte, r3: byte)
    requires l.Valid() && l.phase == AwaitSync
    ensures var m := UnitMessage(w, r1, r3);
      Step(l, Some(m[..1])).phase == AwaitPrefix
    ensures var m := UnitMessage(w, r1, r3);
      var l2 := Step(Step(l, Some(m[..1])), Some(m[1..4]));
      l2.phase == AwaitBody && l2.buf[2] == UnitTag
    ensures var m := UnitMessage(w, r1, r3);
      var l4 := Step(Step(Step(Step(l, Some(m[..1])), Some(m[1..4])), Some(m[4..])), None);
      && l4.units == Write(l.units, ToUnitStatus(w))
      && l4.units.slots[LatestIndex(l4.units.cursor)] == ToUnitStatus(w)
      && l4.skids == l.skids
      && l4.phase == AwaitSync && l4.buf == Zeros()
  {
    UnitMessageDecodes(w, r1, r3);
    FramedUnitStored(l, UnitMessage(w, r1, r3));
  }

  lemma SkidMessageStored(l: Link, w: SkidWire, r1: byte, r3: byte)
    requires l.Valid() && l.phase == AwaitSync
    ensures var m := SkidMessage(w, r1, r3);
      Step(l, Some(m[..1])).phase == AwaitPrefix
    ensures var m := SkidMessage(w, r1, r3);
      var l2 := Step(Step(l, Some(m[..1])), Some(m[1..4]));
      l2.phase == AwaitBody && l2.buf[2] == SkidTag
    ensures var m := SkidMessage(w, r1, r3);
      var l4 := Step(Step(Step(Step(l, Some(m[..1])), Some(m[1..4])), Some(m[4..])), None);
      && l4.skids == Write(l.skids, ToSkidStatus(w))
      && l4.skids.slots[LatestIndex(l4.skids.cursor)] == ToSkidStatus(w)
      && l4.units == l.units
      && l4.phase == AwaitSync && l4.buf == Zeros()
  {
    SkidMessageDecodes(w, r1, r3);
    FramedSkidStored(l, SkidMessage(w, r1, r3));
  }

  /** A unit message with any single bit of its body or checksum inverted in
      transit is dropped: the unit window is left as it was. */
  lemma CorruptedUnitBodyDropped(l: Link, m: seq<byte>, i: nat, k: nat)
    requires l.Valid() && l.phase == AwaitBody && l.buf[2] == UnitTag
    requires |m| == MessageLengthUnitStatus && Crc8.Framed(m) && l.buf[..MessageHeaderLength] == m[..MessageHeaderLength]
    requires MessageHeaderLength <= i < |m| && k < 8
    ensures Step(l, Some(Crc8.FlipBit(m, i, k)[MessageHeaderLength..])).units == l.units
  {
    var m' := Crc8.FlipBit(m, i, k);
    Crc8.SingleBitErrorDetected(m, i, k);
    UnitBodyStep(l, m'[MessageHeaderLength..]);
    assert m'[..MessageHeaderLength] == m[..MessageHeaderLength];
    assert l.buf[..MessageHeaderLength] + m'[MessageHeaderLength..] == m';
  }

  lemma CorruptedSkidBodyDropped(l: Link, m: seq<byte>, i: nat, k: nat)
    requires l.Valid() && l.phase == AwaitBody && l.buf[2] == SkidTag
    requires |m| == MessageLengthSkidStatus && Crc8.Framed(m) && l.buf[..MessageHeaderLength] == m[..MessageHeaderLength]
    requires MessageHeaderLength <= i < |m| && k < 8
    ensures Step(l, Some(Crc8.FlipBit(m, i, k)[MessageHeaderLength..])).skids == l.skids
  {
    var m' := Crc8.FlipBit(m, i, k);
    Crc8.SingleBitErrorDetected(m, i, k);
    SkidBodyStep(l, m'[MessageHeaderLength..]);
    assert m'[..MessageHeaderLength] == m[..MessageHeaderLength];
    assert l.buf[..MessageHeaderLength] + m'[MessageHeaderLength..] == m';
  }
}
