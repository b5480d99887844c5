/** The robot controller's frame handler, watchdog and emergency stop. */
module FirmwareRuntime {
  import opened Bytes
  import opened Framing
  import opened Messages

  const WORD := 0x1_0000_0000
  const DEFAULT_TIMEOUT_MS: u32 := 500

  datatype RuntimeState = SafeState | ReadyState | EstopState

  datatype DispatchResult =
    | RejectedInvalidFrame | HeartbeatAccepted | EstopLatched | MotionDeferred | MotionRejectedUnsafe
    | MessageIgnored | MotionRejectedInvalidPayload | RejectedReplay

  /** All of the controller's fields. Clocks are 32-bit and wrap. */
  datatype Mcu = Mcu(
    state: RuntimeState,
    physicalEstop: bool,
    heartbeatSeen: bool,
    heartbeatHealthy: bool,
    sequenceSeen: bool,
    lastSequence: u16,
    lastCommand: Option<CommandId>,
    lastHeartbeatMs: u32,
    timeoutMs: u32)

  function PowerOn(timeoutMs: u32): Mcu {
    Mcu(SafeState, false, false, false, false, 0, None, 0, timeoutMs)
  }

  /** Unsigned subtraction of 32-bit words. */
  function Age(now: u32, last: u32): u32 {
    (now - last) % WORD
  }

  predicate SequenceIsFresh(candidate: u16, previous: u16) {
    var delta := (candidate - previous) % 0x1_0000;
    delta != 0 && delta < 0x8000
  }

  function AfterTick(m: Mcu, now: u32): Mcu {
    if !m.heartbeatSeen then
      m.(heartbeatHealthy := false, state := if m.state.ReadyState? then SafeState else m.state)
    else
      var healthy := Age(now, m.lastHeartbeatMs) <= m.timeoutMs;
      m.(heartbeatHealthy := healthy,
         state := if !healthy && !m.state.EstopState? then SafeState else m.state)
  }

  function AfterObserve(m: Mcu, active: bool): Mcu {
    m.(physicalEstop := active, state := if active then EstopState else m.state)
  }

  function AfterReset(m: Mcu, now: u32): (Mcu, bool) {
    var t := AfterTick(m, now);
    if t.physicalEstop || !t.heartbeatHealthy then (t, false) else (t.(state := ReadyState), true)
  }

  predicate MayMove(m: Mcu) {
    m.state.ReadyState? && m.heartbeatHealthy && !m.physicalEstop
  }

  /** What a received byte string asks for, once parsed and validated. */
  datatype Meaning = Garbage | Message(sequence: u16, request: Request)

  datatype Request = Beat | Stop | Motion(id: CommandId) | BadMotion | Other

  function MeaningOf(data: seq<byte>): Meaning {
    match ParseFrame(data)
    case None => Garbage
    case Some(f) => Message(f.sequence, RequestOf(f))
  }

  function RequestOf(f: ParsedFrame): Request {
    match f.messageType
    case Heartbeat => Beat
    case Estop => Stop
    case ValidatedMotionCommand => if MotionAdmitted(f.payload) then Motion(f.payload[..16]) else BadMotion
    case _ => Other
  }

  function AfterMotion(m: Mcu, id: CommandId, now: u32): (Mcu, DispatchResult) {
    var t := AfterTick(m, now);
    if !MayMove(t) then (t, MotionRejectedUnsafe)
    else if t.lastCommand == Some(id) then (t, RejectedReplay)
    else (t.(lastCommand := Some(id)), MotionDeferred)
  }

  function AfterRequest(m: Mcu, request: Request, now: u32): (Mcu, DispatchResult) {
    match request
    case Beat =>
      (m.(lastHeartbeatMs := now, heartbeatSeen := true, heartbeatHealthy := true,
          state := if m.state.SafeState? && !m.physicalEstop then ReadyState else m.state),
       HeartbeatAccepted)
    case Stop => (m.(state := EstopState), EstopLatched)
    case Motion(id) => AfterMotion(m, id, now)
    case BadMotion => (m, MotionRejectedInvalidPayload)
    case Other => (m, MessageIgnored)
  }

  function AfterMessage(m: Mcu, meaning: Meaning, now: u32): (Mcu, DispatchResult) {
    match meaning
    case Garbage => (m, RejectedInvalidFrame)
    case Message(sequence, request) =>
      if m.sequenceSeen && !SequenceIsFresh(sequence, m.lastSequence) then (m, RejectedReplay)
      else AfterRequest(m.(sequenceSeen := true, lastSequence := sequence), request, now)
  }

  class RobotRuntime {
    var state: RuntimeState
    var physicalEstopActive: bool
    var heartbeatSeen: bool
    var heartbeatHealthy: bool
    var sequenceSeen: bool
    var motionCommandSeen: bool
    var lastSequence: u16
    var lastMotionCommandId: CommandId
    var lastHeartbeatMs: u32
    const heartbeatTimeoutMs: u32

    function View(): Mcu
      reads this
    {
      Mcu(state, physicalEstopActive, heartbeatSeen, heartbeatHealthy, sequenceSeen, lastSequence,
          if motionCommandSeen then Some(lastMotionCommandId) else None, lastHeartbeatMs, heartbeatTimeoutMs)
    }

    constructor (heartbeatTimeoutMs: u32 := DEFAULT_TIMEOUT_MS)
      ensures !sequenceSeen && !motionCommandSeen
      ensures View() == PowerOn(heartbeatTimeoutMs)
    {
      this.heartbeatTimeoutMs := heartbeatTimeoutMs;
      state := SafeState;
      physicalEstopActive, heartbeatSeen, heartbeatHealthy := false, false, false;
      sequenceSeen, motionCommandSeen := false, false;
      lastSequence, lastHeartbeatMs := 0, 0;
      lastMotionCommandId := [0, 0, 0, 0, 0, 0, 0, 0, 0, 0, 0, 0, 0, 0, 0, 0];
    }

    method ObservePhysicalEstop(active: bool)
      modifies this
      ensures View() == AfterObserve(old(View()), active)
    {
      physicalEstopActive := active;
      if active {
        state := EstopState;
      }
    }

    method Tick(nowMs: u32)
      modifies this
      ensures View() == AfterTick(old(View()), nowMs)
    {
      if !heartbeatSeen {
        heartbeatHealthy := false;
        if state.ReadyState? {
          state := SafeState;
        }
        return;
      }
      var ageMs := (nowMs - lastHeartbeatMs) % WORD;
      heartbeatHealthy := ageMs <= heartbeatTimeoutMs;
      if !heartbeatHealthy && !state.EstopState? {
        state := SafeState;
      }
    }

    /** The admission of a valid motion payload. */
    method HandleMotion(id: CommandId, nowMs: u32) returns (result: DispatchResult)
      modifies this
      ensures (View(), result) == AfterMotion(old(View()), id, nowMs)
    {
      Tick(nowMs);
      if !state.ReadyState? || !heartbeatHealthy || physicalEstopActive {
        return MotionRejectedUnsafe;
      }
      if motionCommandSeen && lastMotionCommandId == id {
        return RejectedReplay;
      }
      lastMotionCommandId := id;
      motionCommandSeen := true;
      return MotionDeferred;
    }

    method HandleFrame(data: seq<byte>, nowMs: u32) returns (result: DispatchResult)
      modifies this
      ensures (View(), result) == AfterMessage(old(View()), MeaningOf(data), nowMs)
    {
      var parsed := ParseFrame(data);
      if parsed.None? {
        return RejectedInvalidFrame;
      }
      var frame := parsed.value;
      if sequenceSeen && !SequenceIsFresh(frame.sequence, lastSequence) {
        return RejectedReplay;
      }
      sequenceSeen := true;
      lastSequence := frame.sequence;
      result := HandleFresh(frame, nowMs);
    }

    /** The switch over the type of a frame that is not a replay. */
    method HandleFresh(frame: ParsedFrame, nowMs: u32) returns (result: DispatchResult)
      modifies this
      ensures (View(), result) == AfterRequest(old(View()), RequestOf(frame), nowMs)
    {
      match frame.messageType {
        case Heartbeat =>
          lastHeartbeatMs := nowMs;
          heartbeatSeen := true;
          heartbeatHealthy := true;
          if state.SafeState? && !physicalEstopActive {
            state := ReadyState;
          }
          return HeartbeatAccepted;
        case Estop =>
          state := EstopState;
          return EstopLatched;
        case ValidatedMotionCommand =>
          var valid := ValidateMotionPayload(frame.payload);
          if !valid {
            return MotionRejectedInvalidPayload;
          }
          result := HandleMotion(frame.payload[..16], nowMs);
          return;
        case _ =>
          return MessageIgnored;
      }
    }

    method ManualReset(nowMs: u32) returns (ready: bool)
      modifies this
      ensures (View(), ready) == AfterReset(old(View()), nowMs)
    {
      Tick(nowMs);
      if physicalEstopActive || !heartbeatHealthy {
        return false;
      }
      state := ReadyState;
      return true;
    }
  }

  /** The frames that ask for motion are exactly the encodings of the host's commands with no joint id 0. */
  lemma MotionMeans(data: seq<byte>, sequence: u16, id: CommandId)
    ensures MeaningOf(data) == Message(sequence, Motion(id))
       <==> exists c: MotionCommand :: IsMotionFrame(data, sequence, c) && c.commandId == id
  {
    if MeaningOf(data) == Message(sequence, Motion(id)) {
      var c := CommandIn(data, sequence, id);
    }
    if c: MotionCommand :| IsMotionFrame(data, sequence, c) && c.commandId == id {
      MotionFrameMeans(data, sequence, c);
    }
  }

  predicate IsMotionFrame(data: seq<byte>, sequence: u16, c: MotionCommand) {
    && EncodeMotion(c).Ok? && |EncodeMotion(c).value| <= MAX_PAYLOAD
    && (forall t :: t in c.targets ==> t.jointId != 0)
    && data == Encode(AnyFrame.Frame(ValidatedMotionCommand, sequence, EncodeMotion(c).value))
  }

  lemma CommandIn(data: seq<byte>, sequence: u16, id: CommandId) returns (c: MotionCommand)
    requires MeaningOf(data) == Message(sequence, Motion(id))
    ensures IsMotionFrame(data, sequence, c) && c.commandId == id
  {
    ParseFrameAgreesWithDecode(data);
    var f := Decode(data).value;
    DecodeInvertsEncode(f, data);
    c := DecodeMotion(f.payload).value;
    MotionCodec(c, f.payload);
  }

  lemma MotionFrameMeans(data: seq<byte>, sequence: u16, c: MotionCommand)
    requires IsMotionFrame(data, sequence, c)
    ensures MeaningOf(data) == Message(sequence, Motion(c.commandId))
  {
    var p := EncodeMotion(c).value;
    MotionCodec(c, p);
    DecodeInvertsEncode(AnyFrame.Frame(ValidatedMotionCommand, sequence, p), data);
    ParseFrameAgreesWithDecode(data);
    assert p[..16] == c.commandId;
  }
}
