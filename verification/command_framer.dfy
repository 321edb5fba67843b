/** The command-framed receiver, prvReadControllerData: a byte-position
    state machine resumed once per task iteration. The stages header,
    command, version and length each poll the byte source for their field
    and move `position` on by the field's width once it arrives; the payload
    stage polls for as many bytes as the length byte said, checks the
    CRC-16 and hands telemetry to the CCU or CMU decoder; the restart stage
    zeroes the buffer and goes back to the header. The packet layout (the
    IOT_* positions, the widths, the metadata length, the buffer size, the
    command and tag codes, the CRC generator) is defined outside this model
    and is a parameter. */
module CommandFramer {
  import opened Bytes
  import opened Wrappers
  import opened SampleWindow
  import Crc16
  import opened Telemetry

  /** WORKING_COMMUNICATION_VERSION: protocol 1.0. */
  const WorkingCommunicationVersion: byte := 16

  /** The constants that shape a packet. Positions are uint8_t, like
      `ucBytePosition`; `metadataLength` is PACKET_METADATA_NUM_OF_BYTES and
      `maxPacketLength` the receive buffer's size. */
  datatype Layout = Layout(
    headerAt: byte, headerWidth: nat, commandAt: byte, commandWidth: nat,
    versionAt: byte, versionWidth: nat, lengthAt: byte, lengthWidth: nat,
    payloadAt: byte, restartAt: byte, metadataLength: nat, maxPacketLength: nat,
    invalidCommand: byte, telemetryCommand: byte, ccuTag: byte, cmuTag: byte, poly: bv16,
    ccu: CcuOffsets, cmu: CmuOffsets, heaterCapacity: nat)
  {
    /** The six case labels of the switch differ, as C requires. */
    predicate DistinctLabels()
    {
      headerAt != commandAt && headerAt != versionAt && headerAt != lengthAt &&
      headerAt != payloadAt && headerAt != restartAt &&
      commandAt != versionAt && commandAt != lengthAt && commandAt != payloadAt &&
      commandAt != restartAt &&
      versionAt != lengthAt && versionAt != payloadAt && versionAt != restartAt &&
      lengthAt != payloadAt && lengthAt != restartAt &&
      payloadAt != restartAt
    }

    /** What the C code needs of its constants to stay inside the buffer on
        its own: the fixed fields inside the buffer, the source tag inside
        it, and the decoders' fixed fields inside what follows the tag. */
    predicate Valid()
    {
      DistinctLabels() &&
      headerAt + headerWidth <= maxPacketLength && commandAt + commandWidth <= maxPacketLength &&
      versionAt + versionWidth <= maxPacketLength && lengthAt + lengthWidth <= maxPacketLength &&
      commandWidth >= 1 && lengthWidth >= 1 && metadataLength + 1 <= maxPacketLength &&
      ccu.Fits(maxPacketLength - metadataLength - 1) && cmu.Fits(maxPacketLength - metadataLength - 1)
    }

    /** The packet layout the stages imply: the header at the start of the
        buffer, each field right after the previous one, and the metadata
        being everything before the payload. */
    predicate Contiguous()
    {
      headerAt == 0 && commandAt == headerAt + headerWidth && versionAt == commandAt + commandWidth &&
      lengthAt == versionAt + versionWidth && payloadAt == lengthAt + lengthWidth &&
      metadataLength == payloadAt
    }
  }

  /** The case of the switch a position selects. */
  datatype Stage = HeaderStage | CommandStage | VersionStage | LengthStage | PayloadStage | RestartStage | NoStage
  {
    /** The stages that poll the byte source for a field of fixed width. */
    predicate Fixed()
    {
      this in {HeaderStage, CommandStage, VersionStage, LengthStage}
    }
  }

  function StageAt(position: byte, lay: Layout): Stage
  {
    if position == lay.headerAt then HeaderStage
    else if position == lay.commandAt then CommandStage
    else if position == lay.versionAt then VersionStage
    else if position == lay.lengthAt then LengthStage
    else if position == lay.payloadAt then PayloadStage
    else if position == lay.restartAt then RestartStage
    else NoStage
  }

  /** Each label selects its own case. */
  lemma StageOfLabel(lay: Layout)
    requires lay.DistinctLabels()
    ensures StageAt(lay.headerAt, lay) == HeaderStage && StageAt(lay.commandAt, lay) == CommandStage
    ensures StageAt(lay.versionAt, lay) == VersionStage && StageAt(lay.lengthAt, lay) == LengthStage
    ensures StageAt(lay.payloadAt, lay) == PayloadStage && StageAt(lay.restartAt, lay) == RestartStage
  {
  }

  /** The field width of a fixed stage. */
  function Width(stage: Stage, lay: Layout): nat
    requires stage.Fixed()
  {
    match stage
    case HeaderStage => lay.headerWidth
    case CommandStage => lay.commandWidth
    case VersionStage => lay.versionWidth
    case LengthStage => lay.lengthWidth
  }

  /** The function's static variables together with the sample store the decoders fill. */
  datatype Receiver = Receiver(position: byte, buf: seq<byte>, command: byte, payloadLength: byte, store: Store)
  {
    predicate Valid(lay: Layout)
    {
      |buf| == lay.maxPacketLength && store.Valid(lay.heaterCapacity)
    }
  }

  /** A call either returns with the next receiver or makes an out-of-bounds
      access, which has no defined result. */
  datatype Outcome = Running(rx: Receiver) | OutOfBounds

  /** Power-up: header stage, zeroed buffer, INVALID_COMMAND, empty windows. */
  function Initial(lay: Layout): (rx: Receiver)
    ensures rx.Valid(lay) && rx.position == lay.headerAt
    ensures forall j :: 0 <= j < |rx.buf| ==> rx.buf[j] == 0
  {
    Receiver(lay.headerAt, ZeroBytes(lay.maxPacketLength), lay.invalidCommand, 0,
             InitialStore(lay.heaterCapacity))
  }

  /** `ucBytePosition += width` on a uint8_t. */
  function Bump(position: byte, width: nat): byte
  {
    (position + width) % 0x100
  }

  /** How many bytes the current stage asks the byte source for. */
  function Wanted(rx: Receiver, lay: Layout): nat
  {
    var stage := StageAt(rx.position, lay);
    if stage.Fixed() then Width(stage, lay)
    else if stage == PayloadStage then rx.payloadLength
    else 0
  }

  /** A fixed-width stage whose bytes `v` arrived: they land at the current
      position and the position moves on by the field's width. */
  function Receive(rx: Receiver, v: seq<byte>, width: nat): (out: Outcome)
    ensures out.Running? <==> rx.position + |v| <= |rx.buf|
    ensures out.Running? ==> |out.rx.buf| == |rx.buf| && out.rx.store == rx.store
    ensures out.Running? ==> out.rx.position == Bump(rx.position, width)
    ensures out.Running? ==> out.rx.buf[rx.position..rx.position + |v|] == v
  {
    if rx.position + |v| > |rx.buf| then OutOfBounds
    else Running(rx.(buf := Put(rx.buf, rx.position, v), position := Bump(rx.position, width)))
  }

  /** The host-order uint16_t after the payload equals the CRC-16 of
      everything before it. */
  predicate CrcMatches(buf: seq<byte>, n: nat, poly: bv16)
    requires n + 2 <= |buf|
  {
    Crc16.Crc(buf[..n], poly) == LeU16(buf, n)
  }

  /** The switch on the command and on the source tag after a good CRC. */
  function Dispatch(rx: Receiver, lay: Layout): (out: Outcome)
    requires lay.Valid() && rx.Valid(lay)
    ensures out.Running? ==> out.rx.Valid(lay) && out.rx == rx.(store := out.rx.store)
    ensures out.Running? && out.rx.store != rx.store ==>
      rx.command == lay.telemetryCommand &&
      (rx.buf[lay.metadataLength] == lay.ccuTag || rx.buf[lay.metadataLength] == lay.cmuTag)
  {
    var tag := rx.buf[lay.metadataLength];
    var data := rx.buf[lay.metadataLength + 1..];
    if rx.command != lay.telemetryCommand then Running(rx)
    else if tag == lay.ccuTag then Running(rx.(store := ReadCcuData(rx.store, data, lay.ccu)))
    else if tag == lay.cmuTag then
      match ReadCmuData(rx.store, data, lay.cmu, lay.heaterCapacity)
      case None => OutOfBounds
      case Some(s) => Running(rx.(store := s))
    else Running(rx)
  }

  /** The payload stage. Whatever happens, the next stage is restart; the
      packet is decoded only when the payload arrived and the CRC matches. */
  function ReceivePayload(rx: Receiver, lay: Layout, reply: Option<seq<byte>>): (out: Outcome)
    requires lay.Valid() && rx.Valid(lay)
    ensures out.Running? ==> out.rx.Valid(lay) && out.rx.position == lay.restartAt
    ensures reply.None? ==> out == Running(rx.(position := lay.restartAt))
    ensures out.Running? && out.rx.store != rx.store ==>
      reply.Some? && rx.command == lay.telemetryCommand &&
      lay.metadataLength + rx.payloadLength + 2 <= |out.rx.buf| &&
      CrcMatches(out.rx.buf, lay.metadataLength + rx.payloadLength, lay.poly) &&
      (out.rx.buf[lay.metadataLength] == lay.ccuTag || out.rx.buf[lay.metadataLength] == lay.cmuTag)
  {
    if reply.None? then Running(rx.(position := lay.restartAt))
    else if lay.payloadAt + |reply.value| > lay.maxPacketLength then OutOfBounds
    else
      var buf := Put(rx.buf, lay.payloadAt, reply.value);
      var n := lay.metadataLength + rx.payloadLength;
      if n + 2 > lay.maxPacketLength then OutOfBounds
      else
        var next := rx.(buf := buf, position := lay.restartAt);
        if CrcMatches(buf, n, lay.poly) then Dispatch(next, lay) else Running(next)
  }

  /** One call of prvReadControllerData. `reply` is what the byte source did
      with the stage's poll: `None` for FAILED, otherwise the bytes it wrote. */
  function Step(rx: Receiver, lay: Layout, reply: Option<seq<byte>>): (out: Outcome)
    requires lay.Valid() && rx.Valid(lay)
    ensures out.Running? ==> out.rx.Valid(lay)
    ensures StageAt(rx.position, lay) != PayloadStage && out.Running? ==> out.rx.store == rx.store
  {
    var pos := rx.position;
    match StageAt(pos, lay)
    case HeaderStage =>
      if reply.None? then Running(rx) else Receive(rx, reply.value, lay.headerWidth)
    case CommandStage =>
      if reply.None? then Running(rx)
      else
        (match Receive(rx, reply.value, lay.commandWidth)
         case OutOfBounds => OutOfBounds
         case Running(r) => Running(r.(command := r.buf[pos])))
    case VersionStage =>
      // A version other than WorkingCommunicationVersion is only logged.
      if reply.None? then Running(rx) else Receive(rx, reply.value, lay.versionWidth)
    case LengthStage =>
      if reply.None? then Running(rx)
      else
        (match Receive(rx, reply.value, lay.lengthWidth)
         case OutOfBounds => OutOfBounds
         case Running(r) => Running(r.(payloadLength := r.buf[pos])))
    case PayloadStage => ReceivePayload(rx, lay, reply)
    case RestartStage => Running(rx.(position := lay.headerAt, buf := ZeroBytes(lay.maxPacketLength)))
    case NoStage => Running(rx)
  }

  // ---------------------------------------------------------------------
  // Stage by stage

  /** FAILED leaves every stage but the payload stage exactly as it was
      (restart does not poll). */
  lemma FailedPollChangesNothing(rx: Receiver, lay: Layout)
    requires lay.Valid() && rx.Valid(lay) && StageAt(rx.position, lay).Fixed()
    ensures Step(rx, lay, None) == Running(rx)
  {
  }

  /** Header, command, version and length: once the field's bytes arrive they
      are in the buffer and the position moves on by the field's width; the
      command and the length are taken from the field's first byte. */
  lemma FixedStageAdvances(rx: Receiver, lay: Layout, v: seq<byte>)
    requires lay.Valid() && rx.Valid(lay) && StageAt(rx.position, lay).Fixed()
    requires |v| == Wanted(rx, lay)
    ensures Step(rx, lay, Some(v)).Running?
    ensures var r := Step(rx, lay, Some(v)).rx;
      r.position == Bump(rx.position, |v|) && r.buf == Put(rx.buf, rx.position, v) &&
      r.store == rx.store
    ensures var r := Step(rx, lay, Some(v)).rx;
      r.command == (if StageAt(rx.position, lay) == CommandStage then v[0] else rx.command) &&
      r.payloadLength == (if StageAt(rx.position, lay) == LengthStage then v[0] else rx.payloadLength)
  {
    var stage := StageAt(rx.position, lay);
    var r := Step(rx, lay, Some(v)).rx;
    assert r.buf[rx.position..rx.position + |v|] == v;
    if stage == CommandStage || stage == LengthStage {
      assert r.buf[rx.position] == r.buf[rx.position..rx.position + |v|][0];
    }
  }

  /** The version field decides nothing: two packets that differ only in it
      leave the receiver in the same stage with the same command, length and
      samples, a version other than 16 included. */
  lemma VersionIgnored(rx: Receiver, lay: Layout, v1: seq<byte>, v2: seq<byte>)
    requires lay.Valid() && rx.Valid(lay) && rx.position == lay.versionAt
    requires |v1| == |v2| == lay.versionWidth
    ensures Step(rx, lay, Some(v1)).Running? && Step(rx, lay, Some(v2)).Running?
    ensures var r1 := Step(rx, lay, Some(v1)).rx;
      var r2 := Step(rx, lay, Some(v2)).rx;
      r1.position == r2.position && r1.command == r2.command &&
      r1.payloadLength == r2.payloadLength && r1.store == r2.store
  {
    StageOfLabel(lay);
    FixedStageAdvances(rx, lay, v1);
    FixedStageAdvances(rx, lay, v2);
  }

  /** Whatever the byte source does, a payload stage that returns moves to restart. */
  lemma PayloadStageRestarts(rx: Receiver, lay: Layout, reply: Option<seq<byte>>)
    requires lay.Valid() && rx.Valid(lay) && rx.position == lay.payloadAt
    ensures Step(rx, lay, reply).Running? ==> Step(rx, lay, reply).rx.position == lay.restartAt
    ensures reply.None? ==> Step(rx, lay, reply) == Running(rx.(position := lay.restartAt))
  {
    StageOfLabel(lay);
  }

  /** Restart zeroes the buffer and returns to the header stage, whatever the reply. */
  lemma RestartClears(rx: Receiver, lay: Layout, reply: Option<seq<byte>>)
    requires lay.Valid() && rx.Valid(lay) && rx.position == lay.restartAt
    ensures Step(rx, lay, reply).Running?
    ensures var r := Step(rx, lay, reply).rx;
      r.position == lay.headerAt && r.store == rx.store &&
      forall j :: 0 <= j < |r.buf| ==> r.buf[j] == 0
  {
    StageOfLabel(lay);
  }

  /** A sample is stored only by a telemetry packet from the CCU or the CMU
      whose payload arrived with a matching CRC. */
  lemma OnlyTelemetryIsStored(rx: Receiver, lay: Layout, reply: Option<seq<byte>>)
    requires lay.Valid() && rx.Valid(lay)
    requires Step(rx, lay, reply).Running? && Step(rx, lay, reply).rx.store != rx.store
    ensures StageAt(rx.position, lay) == PayloadStage && reply.Some? && rx.command == lay.telemetryCommand
    ensures var n := lay.metadataLength + rx.payloadLength;
      var buf := Step(rx, lay, reply).rx.buf;
      n + 2 <= |buf| && CrcMatches(buf, n, lay.poly) &&
      (buf[lay.metadataLength] == lay.ccuTag || buf[lay.metadataLength] == lay.cmuTag)
  {
    assert StageAt(rx.position, lay) == PayloadStage;
  }

  // ---------------------------------------------------------------------
  // The buffer past the current field is always zero

  /** In a polling stage every byte from the current position on is zero,
      and the only other stage reached is restart. */
  predicate Clean(rx: Receiver, lay: Layout)
  {
    var stage := StageAt(rx.position, lay);
    (stage.Fixed() || stage == PayloadStage || stage == RestartStage) &&
    (stage != RestartStage ==> forall j :: rx.position <= j < |rx.buf| ==> rx.buf[j] == 0)
  }

  lemma InitialClean(lay: Layout)
    requires lay.Valid()
    ensures Clean(Initial(lay), lay)
  {
    StageOfLabel(lay);
  }

  /** In a contiguous layout each fixed stage's field ends where the next stage begins. */
  function NextLabel(stage: Stage, lay: Layout): byte
    requires stage.Fixed()
  {
    match stage
    case HeaderStage => lay.commandAt
    case CommandStage => lay.versionAt
    case VersionStage => lay.lengthAt
    case LengthStage => lay.payloadAt
  }

  /** A delivered fixed field moves the receiver to the next label and
      extends the received prefix by the field. */
  lemma FieldReceived(rx: Receiver, lay: Layout, v: seq<byte>)
    requires lay.Valid() && lay.Contiguous() && rx.Valid(lay)
    requires StageAt(rx.position, lay).Fixed() && |v| == Wanted(rx, lay)
    ensures Step(rx, lay, Some(v)).Running?
    ensures var r := Step(rx, lay, Some(v)).rx;
      var next := NextLabel(StageAt(rx.position, lay), lay);
      r.position == next && rx.position + |v| == next && r.buf[..next] == rx.buf[..rx.position] + v
  {
    LabelsChain(rx.position, lay);
    FixedStageAdvances(rx, lay, v);
    PutPrefix(rx.buf, rx.position, v);
  }

  /** In a contiguous layout each fixed field ends where the next label
      starts, and moving the position on by the field's width reaches it. */
  lemma LabelsChain(position: byte, lay: Layout)
    requires lay.Contiguous() && StageAt(position, lay).Fixed()
    ensures var stage := StageAt(position, lay);
      position + Width(stage, lay) == NextLabel(stage, lay) <= lay.metadataLength &&
      Bump(position, Width(stage, lay)) == NextLabel(stage, lay)
  {
    var stage := StageAt(position, lay);
    var next := NextLabel(stage, lay);
    match stage
    case HeaderStage => assert position == lay.headerAt && next == lay.commandAt;
    case CommandStage => assert position == lay.commandAt && next == lay.versionAt;
    case VersionStage => assert position == lay.versionAt && next == lay.lengthAt;
    case LengthStage => assert position == lay.lengthAt && next == lay.payloadAt;
    BumpBelow(position, Width(stage, lay));
  }

  /** A move that stays below 256 does not wrap. */
  lemma BumpBelow(position: byte, width: nat)
    requires position + width < 0x100
    ensures Bump(position, width) == position + width
  {
  }

  /** A delivered fixed field keeps the receiver clean. */
  lemma FieldClean(rx: Receiver, lay: Layout, v: seq<byte>)
    requires lay.Valid() && lay.Contiguous() && rx.Valid(lay) && Clean(rx, lay)
    requires StageAt(rx.position, lay).Fixed() && |v| == Wanted(rx, lay)
    ensures Step(rx, lay, Some(v)).Running? && Clean(Step(rx, lay, Some(v)).rx, lay)
  {
    var next := NextLabel(StageAt(rx.position, lay), lay);
    FieldReceived(rx, lay, v);
    StageOfLabel(lay);
    assert StageAt(next, lay).Fixed() || StageAt(next, lay) == PayloadStage;
    ZerosKept(rx.buf, rx.position, v);
  }

  /** Copying a field into a buffer that is zero from `at` on leaves it zero after the field. */
  lemma ZerosKept(buf: seq<byte>, at: nat, v: seq<byte>)
    requires at + |v| <= |buf| && forall j :: at <= j < |buf| ==> buf[j] == 0
    ensures forall j :: at + |v| <= j < |buf| ==> Put(buf, at, v)[j] == 0
  {
  }

  /** With a contiguous layout and a byte source that delivers what it is
      asked for, every call keeps the receiver clean. */
  lemma StepKeepsClean(rx: Receiver, lay: Layout, reply: Option<seq<byte>>)
    requires lay.Valid() && lay.Contiguous() && rx.Valid(lay) && Clean(rx, lay)
    requires reply.Some? ==> |reply.value| == Wanted(rx, lay)
    requires Step(rx, lay, reply).Running?
    ensures Clean(Step(rx, lay, reply).rx, lay)
  {
    StageOfLabel(lay);
    if reply.Some? && StageAt(rx.position, lay).Fixed() {
      FieldClean(rx, lay, reply.value);
    }
  }

  /** What the CRC comparison amounts to in a clean receiver: the two bytes
      after the payload were never written, so they read as 0, and the packet
      passes exactly when the CRC-16 of metadata and payload is 0. */
  lemma CleanCrcCheck(rx: Receiver, lay: Layout, p: seq<byte>)
    requires lay.Valid() && lay.Contiguous() && rx.Valid(lay) && Clean(rx, lay)
    requires rx.position == lay.payloadAt && |p| == rx.payloadLength
    requires lay.metadataLength + |p| + 2 <= lay.maxPacketLength
    ensures var buf := Put(rx.buf, lay.payloadAt, p);
      var n := lay.metadataLength + |p|;
      buf[..n] == rx.buf[..lay.metadataLength] + p && LeU16(buf, n) == 0 &&
      (CrcMatches(buf, n, lay.poly) <==> Crc16.Crc(rx.buf[..lay.metadataLength] + p, lay.poly) == 0)
  {
    StageOfLabel(lay);
    var buf := Put(rx.buf, lay.payloadAt, p);
    var n := lay.metadataLength + |p|;
    assert buf[..n] == rx.buf[..lay.metadataLength] + p;
    assert buf[n] == rx.buf[n] && buf[n + 1] == rx.buf[n + 1];
  }

  /** A payload ending in the CRC-16 of the metadata and the rest of the
      payload, high byte first, passes the check. */
  lemma TrailingCrcAccepted(meta: seq<byte>, body: seq<byte>, poly: bv16)
    ensures Crc16.Crc(meta + (body + EncodeU16(Crc16.Crc(meta + body, poly))), poly) == 0
  {
    assert meta + (body + EncodeU16(Crc16.Crc(meta + body, poly)))
        == (meta + body) + EncodeU16(Crc16.Crc(meta + body, poly));
    Crc16.Residue(meta + body, poly);
  }

  /** In a clean receiver a payload that passes the check is dispatched. */
  lemma CheckedPayloadDispatched(rx: Receiver, lay: Layout, p: seq<byte>)
    requires lay.Valid() && lay.Contiguous() && rx.Valid(lay) && Clean(rx, lay)
    requires rx.position == lay.payloadAt && |p| == rx.payloadLength
    requires lay.metadataLength + |p| + 2 <= lay.maxPacketLength
    requires Crc16.Crc(rx.buf[..lay.metadataLength] + p, lay.poly) == 0
    ensures Step(rx, lay, Some(p))
            == Dispatch(rx.(buf := Put(rx.buf, lay.payloadAt, p), position := lay.restartAt), lay)
  {
    StageOfLabel(lay);
    CleanCrcCheck(rx, lay, p);
  }

  // ---------------------------------------------------------------------
  // One whole packet

  /** Successive calls, one reply each, stopping at an out-of-bounds access. */
  function Run(rx: Receiver, lay: Layout, replies: seq<Option<seq<byte>>>): (out: Outcome)
    requires lay.Valid() && rx.Valid(lay)
    ensures out.Running? ==> out.rx.Valid(lay)
    decreases |replies|
  {
    if |replies| == 0 then Running(rx)
    else
      match Step(rx, lay, replies[0])
      case OutOfBounds => OutOfBounds
      case Running(r) => Run(r, lay, replies[1..])
  }

  /** Running a reply list and then one more reply is one more call. */
  lemma {:induction false} RunAppend(rx: Receiver, lay: Layout, rs: seq<Option<seq<byte>>>, last: Option<seq<byte>>)
    requires lay.Valid() && rx.Valid(lay) && Run(rx, lay, rs).Running?
    ensures Run(rx, lay, rs + [last]) == Step(Run(rx, lay, rs).rx, lay, last)
    decreases |rs|
  {
    if |rs| == 0 {
      assert rs + [last] == [last];
    } else {
      assert (rs + [last])[1..] == rs[1..] + [last];
      RunAppend(Step(rx, lay, rs[0]).rx, lay, rs[1..], last);
    }
  }

  /** The replies of one packet's four metadata stages: `m` cut at the field positions. */
  function MetadataReplies(lay: Layout, m: seq<byte>): (rs: seq<Option<seq<byte>>>)
    requires lay.Contiguous() && |m| == lay.metadataLength
    ensures |rs| == 4
  {
    [Some(m[lay.headerAt..lay.commandAt]), Some(m[lay.commandAt..lay.versionAt]),
     Some(m[lay.versionAt..lay.lengthAt]), Some(m[lay.lengthAt..lay.payloadAt])]
  }

  /** One metadata field taken from `m`: a clean receiver that already
      holds `m` up to its position takes in the field and holds `m` up to the
      next label, and the rest of the replies carry on from there. */
  lemma MetadataField(rx: Receiver, lay: Layout, m: seq<byte>, rest: seq<Option<seq<byte>>>)
    requires lay.Valid() && lay.Contiguous() && rx.Valid(lay) && Clean(rx, lay)
    requires StageAt(rx.position, lay).Fixed() && |m| == lay.metadataLength
    requires rx.buf[..rx.position] == m[..rx.position]
    ensures var next := NextLabel(StageAt(rx.position, lay), lay);
      rx.position <= next <= |m| && Step(rx, lay, Some(m[rx.position..next])).Running?
    ensures var stage := StageAt(rx.position, lay);
      var next := NextLabel(stage, lay);
      var r := Step(rx, lay, Some(m[rx.position..next])).rx;
      r.position == next && Clean(r, lay) && r.buf[..next] == m[..next] && r.store == rx.store &&
      r.command == (if stage == CommandStage then m[lay.commandAt] else rx.command) &&
      r.payloadLength == (if stage == LengthStage then m[lay.lengthAt] else rx.payloadLength) &&
      Run(rx, lay, [Some(m[rx.position..next])] + rest) == Run(r, lay, rest)
  {
    var next := NextLabel(StageAt(rx.position, lay), lay);
    MetadataFieldTaken(rx, lay, m);
    MetadataFieldRegisters(rx, lay, m);
    var v := m[rx.position..next];
    FieldClean(rx, lay, v);
    RunFirst(rx, lay, [Some(v)] + rest);
    assert ([Some(v)] + rest)[1..] == rest;
  }

  /** The receiver after one metadata field taken from `m` holds `m` up to
      the next label. */
  lemma MetadataFieldTaken(rx: Receiver, lay: Layout, m: seq<byte>)
    requires lay.Valid() && lay.Contiguous() && rx.Valid(lay)
    requires StageAt(rx.position, lay).Fixed() && |m| == lay.metadataLength
    requires rx.buf[..rx.position] == m[..rx.position]
    ensures var next := NextLabel(StageAt(rx.position, lay), lay);
      rx.position <= next <= |m| && Step(rx, lay, Some(m[rx.position..next])).Running?
    ensures var next := NextLabel(StageAt(rx.position, lay), lay);
      var r := Step(rx, lay, Some(m[rx.position..next])).rx;
      r.position == next && r.buf[..next] == m[..next]
  {
    var next := NextLabel(StageAt(rx.position, lay), lay);
    LabelsChain(rx.position, lay);
    var v := m[rx.position..next];
    FieldReceived(rx, lay, v);
    assert m[..next] == m[..rx.position] + v;
  }

  /** The registers after one metadata field taken from `m`: the samples
      stay, and the command and the length come from `m` at their labels. */
  lemma MetadataFieldRegisters(rx: Receiver, lay: Layout, m: seq<byte>)
    requires lay.Valid() && lay.Contiguous() && rx.Valid(lay)
    requires StageAt(rx.position, lay).Fixed() && |m| == lay.metadataLength
    ensures var next := NextLabel(StageAt(rx.position, lay), lay);
      rx.position <= next <= |m| && Step(rx, lay, Some(m[rx.position..next])).Running?
    ensures var stage := StageAt(rx.position, lay);
      var next := NextLabel(stage, lay);
      var r := Step(rx, lay, Some(m[rx.position..next])).rx;
      r.store == rx.store &&
      r.command == (if stage == CommandStage then m[lay.commandAt] else rx.command) &&
      r.payloadLength == (if stage == LengthStage then m[lay.lengthAt] else rx.payloadLength)
  {
    var stage := StageAt(rx.position, lay);
    var next := NextLabel(stage, lay);
    StageOfLabel(lay);
    var v := m[rx.position..next];
    FixedStageAdvances(rx, lay, v);
    if stage == CommandStage || stage == LengthStage {
      assert v[0] == m[rx.position];
    }
  }

  /** The four metadata stages of a clean receiver in the header stage take
      in `m` whole and leave it waiting for the payload, with the command and
      the length taken from `m`. */
  lemma MetadataReceived(rx: Receiver, lay: Layout, m: seq<byte>)
    requires lay.Valid() && lay.Contiguous() && rx.Valid(lay) && Clean(rx, lay)
    requires rx.position == lay.headerAt && |m| == lay.metadataLength
    ensures Run(rx, lay, MetadataReplies(lay, m)).Running?
    ensures var r := Run(rx, lay, MetadataReplies(lay, m)).rx;
      r.position == lay.payloadAt && r.buf[..lay.metadataLength] == m && Clean(r, lay) &&
      r.command == m[lay.commandAt] && r.payloadLength == m[lay.lengthAt] && r.store == rx.store
  {
    StageOfLabel(lay);
    var rs := MetadataReplies(lay, m);
    var t3: seq<Option<seq<byte>>> := [rs[3]];
    var t2 := [rs[2]] + t3;
    var t1 := [rs[1]] + t2;
    assert rs == [rs[0]] + t1;
    MetadataField(rx, lay, m, t1);
    var r1 := Step(rx, lay, rs[0]).rx;
    MetadataField(r1, lay, m, t2);
    var r2 := Step(r1, lay, rs[1]).rx;
    MetadataField(r2, lay, m, t3);
    var r3 := Step(r2, lay, rs[2]).rx;
    MetadataField(r3, lay, m, []);
    assert [rs[3]] + [] == t3;
    var r4 := Step(r3, lay, rs[3]).rx;
    assert Run(r4, lay, []) == Running(r4);
  }

  /** A running first call is followed by the rest of the replies. */
  lemma RunFirst(rx: Receiver, lay: Layout, rs: seq<Option<seq<byte>>>)
    requires lay.Valid() && rx.Valid(lay) && |rs| > 0 && Step(rx, lay, rs[0]).Running?
    ensures Run(rx, lay, rs) == Run(Step(rx, lay, rs[0]).rx, lay, rs[1..])
  {
  }

  /** Where a payload lands: its first byte is the source tag and the rest
      follows it. */
  lemma PayloadPlacement(buf: seq<byte>, at: nat, p: seq<byte>, body: seq<byte>)
    requires at + |p| <= |buf| && 1 <= |body| <= |p| && p[..|body|] == body
    ensures Put(buf, at, p)[at] == body[0]
    ensures Put(buf, at, p)[at + 1..][..|body| - 1] == body[1..]
  {
    var r := Put(buf, at, p);
    assert r[at..at + |p|] == p;
    assert r[at] == p[0];
    assert r[at + 1..][..|body| - 1] == p[1..|body|];
  }

  /** A telemetry packet's payload: the source tag, the record bytes and the
      CRC-16 of metadata, tag and record, high byte first. */
  function TelemetryPayload(m: seq<byte>, tag: byte, record: seq<byte>, poly: bv16): (p: seq<byte>)
    ensures |p| == |record| + 3
    ensures p[..1 + |record|] == [tag] + record
  {
    var body := [tag] + record;
    body + EncodeU16(Crc16.Crc(m + body, poly))
  }

  /** The four metadata stages and the payload stage of one packet. */
  lemma PacketDispatched(rx: Receiver, lay: Layout, m: seq<byte>, tag: byte, record: seq<byte>)
    requires lay.Valid() && lay.Contiguous() && rx.Valid(lay) && Clean(rx, lay)
    requires rx.position == lay.headerAt && |m| == lay.metadataLength
    requires lay.metadataLength + |record| + 5 <= lay.maxPacketLength
    requires m[lay.lengthAt] == |record| + 3
    ensures Run(rx, lay, MetadataReplies(lay, m)).Running?
    ensures var p := TelemetryPayload(m, tag, record, lay.poly);
      var r4 := Run(rx, lay, MetadataReplies(lay, m)).rx;
      var buf := Put(r4.buf, lay.payloadAt, p);
      r4.command == m[lay.commandAt] && r4.store == rx.store &&
      Run(rx, lay, MetadataReplies(lay, m) + [Some(p)])
        == Dispatch(r4.(buf := buf, position := lay.restartAt), lay) &&
      buf[lay.metadataLength] == tag &&
      buf[lay.metadataLength + 1..][..|record|] == record
  {
    var p := TelemetryPayload(m, tag, record, lay.poly);
    var rs := MetadataReplies(lay, m);
    MetadataReceived(rx, lay, m);
    var r4 := Run(rx, lay, rs).rx;
    RunAppend(rx, lay, rs, Some(p));
    TelemetryAccepted(r4, lay, m, tag, record);
  }

  /** A receiver holding the metadata `m` and waiting for the payload takes
      in a telemetry payload with its trailing CRC-16 and dispatches it, with
      the tag and the record where the decoders look for them. */
  lemma TelemetryAccepted(r4: Receiver, lay: Layout, m: seq<byte>, tag: byte, record: seq<byte>)
    requires lay.Valid() && lay.Contiguous() && r4.Valid(lay) && Clean(r4, lay)
    requires r4.position == lay.payloadAt && r4.buf[..lay.metadataLength] == m
    requires lay.metadataLength + |record| + 5 <= lay.maxPacketLength
    requires r4.payloadLength == |record| + 3
    ensures var p := TelemetryPayload(m, tag, record, lay.poly);
      var buf := Put(r4.buf, lay.payloadAt, p);
      Step(r4, lay, Some(p)) == Dispatch(r4.(buf := buf, position := lay.restartAt), lay) &&
      buf[lay.metadataLength] == tag &&
      buf[lay.metadataLength + 1..][..|record|] == record
  {
    var p := TelemetryPayload(m, tag, record, lay.poly);
    TrailingCrcAccepted(m, [tag] + record, lay.poly);
    CheckedPayloadDispatched(r4, lay, p);
    PayloadPlacement(r4.buf, lay.payloadAt, p, [tag] + record);
    assert ([tag] + record)[1..] == record;
  }

  /** A CCU record framed with correct metadata and a trailing CRC-16, fed
      through a clean receiver in the header stage, ends in exactly one
      write: the record lands in the CCU window under its cursor, the cursor
      moves on, and the CMU window is untouched. */
  lemma CcuPacketStored(rx: Receiver, lay: Layout, m: seq<byte>, w: CcuWire, base: seq<byte>)
    requires lay.Valid() && lay.Contiguous() && rx.Valid(lay) && Clean(rx, lay)
    requires rx.position == lay.headerAt && |m| == lay.metadataLength
    requires lay.ccu.Fits(|base|) && Separate(lay.ccu.Spans())
    requires lay.metadataLength + |base| + 5 <= lay.maxPacketLength
    requires m[lay.commandAt] == lay.telemetryCommand && m[lay.lengthAt] == |base| + 3
    ensures var p := TelemetryPayload(m, lay.ccuTag, EncodeCcu(w, lay.ccu, base), lay.poly);
      var out := Run(rx, lay, MetadataReplies(lay, m) + [Some(p)]);
      out.Running? && out.rx.position == lay.restartAt &&
      out.rx.store == rx.store.(ccu := Write(rx.store.ccu, ToCcu(w)))
  {
    var record := EncodeCcu(w, lay.ccu, base);
    PacketDispatched(rx, lay, m, lay.ccuTag, record);
    var p := TelemetryPayload(m, lay.ccuTag, record, lay.poly);
    var r4 := Run(rx, lay, MetadataReplies(lay, m)).rx;
    var buf := Put(r4.buf, lay.payloadAt, p);
    var data := buf[lay.metadataLength + 1..];
    CcuRecordDecoded(data, w, lay.ccu, base);
    CcuDispatched(r4.(buf := buf, position := lay.restartAt), lay);
  }

  /** A telemetry packet tagged as the CCU's goes to the CCU decoder. */
  lemma CcuDispatched(rx: Receiver, lay: Layout)
    requires lay.Valid() && rx.Valid(lay)
    requires rx.command == lay.telemetryCommand && rx.buf[lay.metadataLength] == lay.ccuTag
    ensures Dispatch(rx, lay)
      == Running(rx.(store := ReadCcuData(rx.store, rx.buf[lay.metadataLength + 1..], lay.ccu)))
  {
    var tag := rx.buf[lay.metadataLength];
    assert tag == lay.ccuTag;
  }

  /** A CCU record at the start of the decoder's bytes decodes to itself. */
  lemma CcuRecordDecoded(data: seq<byte>, w: CcuWire, o: CcuOffsets, base: seq<byte>)
    requires o.Fits(|base|) && Separate(o.Spans())
    requires |base| <= |data| && data[..|base|] == EncodeCcu(w, o, base)
    ensures o.Fits(|data|) && DecodeCcu(data, o) == ToCcu(w)
  {
    CcuFitsInside(o, |base|);
    PutAllCarries(base, o.Spans(), CcuChunks(w, o));
    CarriesExtended(data[..|base|], data, o.Spans(), CcuChunks(w, o));
    CcuFitsInside(o, |data|);
    CcuCarriedDecodes(data, o, w);
  }

  /** The CMU counterpart: a framed CMU record with no more heaters than the
      array holds is stored as itself in the CMU slot under the CCU cursor,
      the CMU cursor moves on and the CCU window is untouched. */
  lemma CmuPacketStored(rx: Receiver, lay: Layout, m: seq<byte>, w: CmuWire, base: seq<byte>)
    requires lay.Valid() && lay.Contiguous() && rx.Valid(lay) && Clean(rx, lay)
    requires rx.position == lay.headerAt && |m| == lay.metadataLength
    requires CountsHeaters(w) && |w.heaterTemperatures| <= lay.heaterCapacity
    requires lay.cmu.Fits(|base|) && lay.cmu.HeatersFit(|w.heaterTemperatures|, |base|)
    requires Separate(lay.cmu.Spans(|w.heaterTemperatures|))
    requires lay.metadataLength + |base| + 5 <= lay.maxPacketLength
    requires m[lay.commandAt] == lay.telemetryCommand && m[lay.lengthAt] == |base| + 3
    requires lay.cmuTag != lay.ccuTag
    ensures var p := TelemetryPayload(m, lay.cmuTag, EncodeCmu(w, lay.cmu, base), lay.poly);
      var out := Run(rx, lay, MetadataReplies(lay, m) + [Some(p)]);
      var c := rx.store.ccu.cursor;
      out.Running? && out.rx.position == lay.restartAt && out.rx.store.ccu == rx.store.ccu &&
      out.rx.store.cmu == Window(rx.store.cmu.slots[c := ToCmu(w, rx.store.cmu.slots[c])],
                                 Advance(rx.store.cmu.cursor))
  {
    var record := EncodeCmu(w, lay.cmu, base);
    PacketDispatched(rx, lay, m, lay.cmuTag, record);
    var p := TelemetryPayload(m, lay.cmuTag, record, lay.poly);
    var r4 := Run(rx, lay, MetadataReplies(lay, m)).rx;
    var buf := Put(r4.buf, lay.payloadAt, p);
    var data := buf[lay.metadataLength + 1..];
    CmuRecordDecoded(data, w, lay.cmu, base);
    CmuDispatched(r4.(buf := buf, position := lay.restartAt), lay);
  }

  /** A telemetry packet tagged as the CMU's, whose heater count is within
      bounds, goes to the CMU decoder. */
  lemma CmuDispatched(rx: Receiver, lay: Layout)
    requires lay.Valid() && rx.Valid(lay)
    requires rx.command == lay.telemetryCommand && rx.buf[lay.metadataLength] == lay.cmuTag
    requires lay.cmuTag != lay.ccuTag
    requires lay.cmu.Fits(|rx.buf| - lay.metadataLength - 1)
    requires CmuInBounds(rx.buf[lay.metadataLength + 1..], lay.cmu, lay.heaterCapacity)
    ensures Dispatch(rx, lay)
      == Running(rx.(store := ReadCmuData(rx.store, rx.buf[lay.metadataLength + 1..], lay.cmu, lay.heaterCapacity).value))
  {
  }

  /** A CMU record at the start of the decoder's bytes decodes to itself. */
  lemma CmuRecordDecoded(data: seq<byte>, w: CmuWire, o: CmuOffsets, base: seq<byte>)
    requires CountsHeaters(w) && o.Fits(|base|) && o.HeatersFit(|w.heaterTemperatures|, |base|)
    requires Separate(o.Spans(|w.heaterTemperatures|))
    requires |base| <= |data| && data[..|base|] == EncodeCmu(w, o, base)
    ensures o.Fits(|data|) && HeaterCount(data, o) == w.numberOfHeaters
    ensures o.HeatersFit(HeaterCount(data, o), |data|) && CmuWireAt(data, o) == w
  {
    var n := |w.heaterTemperatures|;
    CmuFitsInside(o, n, |base|);
    PutAllCarries(base, o.Spans(n), CmuChunks(w, o));
    CarriesExtended(data[..|base|], data, o.Spans(n), CmuChunks(w, o));
    CmuCarriedDecodes(data, o, w);
  }
}
