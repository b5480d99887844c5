/** Typed payloads: each decoder accepts exactly what the encoder produces, and inverts it. */
module Messages {
  import opened Bytes
  import opened Folds

  datatype ProtocolError =
    | FieldRange | JointCount | DuplicateJoint | Truncated | LengthMismatch | UnknownEnum

  const MAX_JOINTS := 8

  predicate FitsU16(v: int) { 0 <= v < 0x1_0000 }

  predicate FitsI16(v: int) { -0x8000 <= v < 0x8000 }

  predicate FitsByte(v: int) { 0 <= v < 0x100 }

  predicate FitsU32(v: int) { 0 <= v < 0x1_0000_0000 }

  // ---- Enumerations

  datatype DeviceSource = Host | Glove | Gateway | Robot
  {
    function Code(): byte {
      match this case Host => 1 case Glove => 2 case Gateway => 3 case Robot => 4
    }
  }

  function SourceOf(code: byte): (s: Option<DeviceSource>)
    ensures forall d: DeviceSource :: s == Some(d) <==> code == d.Code()
  {
    match code
    case 1 => Some(Host) case 2 => Some(Glove) case 3 => Some(Gateway) case 4 => Some(Robot)
    case _ => None
  }

  datatype WireState =
    | Boot | SelfTest | Calibrating | Idle | Armed | Executing | Degraded | Fault | EmergencyStopped | Shutdown
  {
    function Code(): byte {
      match this
      case Boot => 1 case SelfTest => 2 case Calibrating => 3 case Idle => 4 case Armed => 5
      case Executing => 6 case Degraded => 7 case Fault => 8 case EmergencyStopped => 9 case Shutdown => 10
    }
  }

  function StateOf(code: byte): (s: Option<WireState>)
    ensures forall w: WireState :: s == Some(w) <==> code == w.Code()
  {
    match code
    case 1 => Some(Boot) case 2 => Some(SelfTest) case 3 => Some(Calibrating) case 4 => Some(Idle)
    case 5 => Some(Armed) case 6 => Some(Executing) case 7 => Some(Degraded) case 8 => Some(Fault)
    case 9 => Some(EmergencyStopped) case 10 => Some(Shutdown)
    case _ => None
  }

  datatype EstopReason = Manual | Watchdog | Safety | Communication
  {
    function Code(): byte {
      match this case Manual => 1 case Watchdog => 2 case Safety => 3 case Communication => 4
    }
  }

  function ReasonOf(code: byte): (s: Option<EstopReason>)
    ensures forall r: EstopReason :: s == Some(r) <==> code == r.Code()
  {
    match code
    case 1 => Some(Manual) case 2 => Some(Watchdog) case 3 => Some(Safety) case 4 => Some(Communication)
    case _ => None
  }

  datatype AckStatus = AckOk | Rejected | Stale | Invalid
  {
    function Code(): byte {
      match this case AckOk => 0 case Rejected => 1 case Stale => 2 case Invalid => 3
    }
  }

  function StatusOf(code: byte): (s: Option<AckStatus>)
    ensures forall a: AckStatus :: s == Some(a) <==> code == a.Code()
  {
    match code
    case 0 => Some(AckOk) case 1 => Some(Rejected) case 2 => Some(Stale) case 3 => Some(Invalid)
    case _ => None
  }

  // ---- Heartbeat, emergency stop, acknowledgement

  datatype Heartbeat = Heartbeat(source: DeviceSource, uptimeMs: int, state: WireState)
  {
    function Encode(): Result<seq<byte>, ProtocolError> {
      if !FitsU32(uptimeMs) then Err(FieldRange)
      else Ok([source.Code()] + WriteU32(uptimeMs) + [state.Code()])
    }
  }

  function DecodeHeartbeat(p: seq<byte>): Result<Heartbeat, ProtocolError> {
    if |p| != 6 then Err(LengthMismatch)
    else if SourceOf(p[0]).None? || StateOf(p[5]).None? then Err(UnknownEnum)
    else Ok(Heartbeat(SourceOf(p[0]).value, ReadU32(p, 1), StateOf(p[5]).value))
  }

  lemma HeartbeatCodec(h: Heartbeat, p: seq<byte>)
    ensures DecodeHeartbeat(p) == Ok(h) <==> h.Encode() == Ok(p)
  {
    if |p| == 6 {
      if FitsU32(h.uptimeMs) {
        U32RoundTrip(h.uptimeMs, p, 1);
        var e := h.Encode().value;
        assert e[1..5] == WriteU32(h.uptimeMs) && e[0] == h.source.Code() && e[5] == h.state.Code();
        assert p == [p[0]] + p[1..5] + [p[5]];
      }
    }
  }

  datatype EmergencyStop = EmergencyStop(source: DeviceSource, reason: EstopReason)
  {
    function Encode(): seq<byte> {
      [source.Code(), reason.Code()]
    }
  }

  function DecodeEmergencyStop(p: seq<byte>): Result<EmergencyStop, ProtocolError> {
    if |p| != 2 then Err(LengthMismatch)
    else if SourceOf(p[0]).None? || ReasonOf(p[1]).None? then Err(UnknownEnum)
    else Ok(EmergencyStop(SourceOf(p[0]).value, ReasonOf(p[1]).value))
  }

  lemma EmergencyStopCodec(e: EmergencyStop, p: seq<byte>)
    ensures DecodeEmergencyStop(p) == Ok(e) <==> e.Encode() == p
  {
    if |p| == 2 {
      assert p == [p[0], p[1]];
      assert e.Encode()[0] == e.source.Code() && e.Encode()[1] == e.reason.Code();
    }
  }

  datatype Acknowledgement = Acknowledgement(sequence: int, status: AckStatus)
  {
    function Encode(): Result<seq<byte>, ProtocolError> {
      if !FitsU16(sequence) then Err(FieldRange) else Ok(WriteU16(sequence) + [status.Code()])
    }
  }

  function DecodeAcknowledgement(p: seq<byte>): Result<Acknowledgement, ProtocolError> {
    if |p| != 3 then Err(LengthMismatch)
    else if StatusOf(p[2]).None? then Err(UnknownEnum)
    else Ok(Acknowledgement(ReadU16(p, 0), StatusOf(p[2]).value))
  }

  lemma AcknowledgementCodec(a: Acknowledgement, p: seq<byte>)
    ensures DecodeAcknowledgement(p) == Ok(a) <==> a.Encode() == Ok(p)
  {
    if |p| == 3 && FitsU16(a.sequence) {
      U16RoundTrip(a.sequence, p, 0);
      var e := a.Encode().value;
      assert e[..2] == WriteU16(a.sequence) && e[2] == a.status.Code();
      assert p == p[0..2] + [p[2]];
    }
  }

  // ---- Motion command

  type CommandId = id: seq<byte> | |id| == 16
    witness [0, 0, 0, 0, 0, 0, 0, 0, 0, 0, 0, 0, 0, 0, 0, 0]

  datatype JointTarget = JointTarget(jointId: int, targetCdeg: int)

  /** Mode is left out: POSITION (1) is the only mode there is. */
  datatype MotionCommand = MotionCommand(
    commandId: CommandId, ttlMs: int, targets: seq<JointTarget>, maxVelocity: int, maxAcceleration: int)

  const POSITION_MODE: byte := 1

  predicate DistinctIds(targets: seq<JointTarget>) {
    forall i, j :: 0 <= i < j < |targets| ==> targets[i].jointId != targets[j].jointId
  }

  predicate TargetFits(t: JointTarget) {
    FitsByte(t.jointId) && FitsI16(t.targetCdeg)
  }

  function TargetBytes(t: JointTarget): seq<byte> {
    if TargetFits(t) then [t.jointId as byte] + WriteU16(ToUnsigned(t.targetCdeg)) else []
  }

  function AllTargetBytes(targets: seq<JointTarget>): seq<byte> {
    FlatMap<JointTarget, byte>(TargetBytes, targets)
  }

  predicate Positive16(v: int) { 1 <= v < 0x1_0000 }

  /** What encode raises, in its order of checks; None when it succeeds. */
  function MotionFault(c: MotionCommand): Option<ProtocolError> {
    if !Positive16(c.ttlMs) || !Positive16(c.maxVelocity) || !Positive16(c.maxAcceleration) then Some(FieldRange)
    else if !(1 <= |c.targets| <= MAX_JOINTS) then Some(JointCount)
    else if !DistinctIds(c.targets) then Some(DuplicateJoint)
    else if exists t :: t in c.targets && !TargetFits(t) then Some(FieldRange)
    else None
  }

  function MotionBytes(c: MotionCommand): seq<byte>
    requires MotionFault(c).None?
  {
    c.commandId + WriteU16(c.ttlMs) + [POSITION_MODE, |c.targets|] + AllTargetBytes(c.targets)
    + WriteU16(c.maxVelocity) + WriteU16(c.maxAcceleration)
  }

  function EncodeMotion(c: MotionCommand): Result<seq<byte>, ProtocolError> {
    match MotionFault(c)
    case Some(e) => Err(e)
    case None => Ok(MotionBytes(c))
  }

  function TargetAt(p: seq<byte>, at: nat): JointTarget
    requires at + 3 <= |p|
  {
    JointTarget(p[at], ToSigned(ReadU16(p, at + 1)))
  }

  function TargetsAt(p: seq<byte>, count: nat): (ts: seq<JointTarget>)
    requires 20 + 3 * count <= |p|
    ensures |ts| == count
  {
    seq(count, i requires 0 <= i < count => TargetAt(p, 20 + 3 * i))
  }

  function JointCountAt(p: seq<byte>): nat
    requires |p| >= 20
  {
    p[19]
  }

  function RawMotion(p: seq<byte>): MotionCommand
    requires |p| >= 20 && |p| == 24 + 3 * JointCountAt(p)
  {
    var n := JointCountAt(p);
    MotionCommand(p[..16], ReadU16(p, 16), TargetsAt(p, n), ReadU16(p, 20 + 3 * n), ReadU16(p, 22 + 3 * n))
  }

  function DecodeMotion(p: seq<byte>): Result<MotionCommand, ProtocolError> {
    if |p| < 27 then Err(Truncated)
    else if !(1 <= JointCountAt(p) <= MAX_JOINTS) then Err(JointCount)
    else if |p| != 24 + 3 * JointCountAt(p) then Err(LengthMismatch)
    else if p[18] != POSITION_MODE then Err(UnknownEnum)
    else
      match MotionFault(RawMotion(p))
      case Some(e) => Err(e)
      case None => Ok(RawMotion(p))
  }

  lemma TargetCodec(t: JointTarget, p: seq<byte>, at: nat)
    requires at + 3 <= |p| && TargetFits(t)
    ensures |TargetBytes(t)| == 3
    ensures p[at..at + 3] == TargetBytes(t) <==> TargetAt(p, at) == t
  {
    U16RoundTrip(ToUnsigned(t.targetCdeg), p, at + 1);
    assert p[at..at + 3] == [p[at]] + p[at + 1..at + 3];
    if p[at..at + 3] == TargetBytes(t) {
      assert p[at..at + 3][1..] == TargetBytes(t)[1..] == WriteU16(ToUnsigned(t.targetCdeg));
    }
  }

  /** Where the fields of an encoded command are. */
  lemma MotionLayout(c: MotionCommand, p: seq<byte>)
    requires MotionFault(c).None? && |p| == 24 + 3 * |c.targets|
    ensures |MotionBytes(c)| == |p|
    ensures p == MotionBytes(c) <==>
      && p[..16] == c.commandId && ReadU16(p, 16) == c.ttlMs && p[18] == POSITION_MODE
      && p[19] == |c.targets| && TargetsAt(p, |c.targets|) == c.targets
      && ReadU16(p, 20 + 3 * |c.targets|) == c.maxVelocity
      && ReadU16(p, 22 + 3 * |c.targets|) == c.maxAcceleration
  {
    var n := |c.targets|;
    var middle := p[20..20 + 3 * n];
    TargetsLayout(c.targets, p);
    U16RoundTrip(c.ttlMs, p, 16);
    U16RoundTrip(c.maxVelocity, p, 20 + 3 * n);
    U16RoundTrip(c.maxAcceleration, p, 22 + 3 * n);
    MotionParts(c);
    assert p == p[..16] + p[16..18] + [p[18], p[19]] + middle + p[20 + 3 * n..22 + 3 * n] + p[22 + 3 * n..24 + 3 * n];
  }

  /** The pieces of an encoded command. */
  lemma MotionParts(c: MotionCommand)
    requires MotionFault(c).None? && |AllTargetBytes(c.targets)| == 3 * |c.targets|
    ensures var m, n := MotionBytes(c), |c.targets|;
      && |m| == 24 + 3 * n && m[..16] == c.commandId && m[16..18] == WriteU16(c.ttlMs)
      && m[18] == POSITION_MODE && m[19] == n && m[20..20 + 3 * n] == AllTargetBytes(c.targets)
      && m[20 + 3 * n..22 + 3 * n] == WriteU16(c.maxVelocity)
      && m[22 + 3 * n..24 + 3 * n] == WriteU16(c.maxAcceleration)
  {
  }

  lemma TargetsLayout(ts: seq<JointTarget>, p: seq<byte>)
    requires 20 + 3 * |ts| <= |p| && forall t :: t in ts ==> TargetFits(t)
    ensures |AllTargetBytes(ts)| == 3 * |ts|
    ensures p[20..20 + 3 * |ts|] == AllTargetBytes(ts) <==> TargetsAt(p, |ts|) == ts
  {
    FlatMapSlices<JointTarget, byte>(TargetBytes, ts, 3);
    if TargetsAt(p, |ts|) == ts {
      TargetsAsBytes(ts, p);
    }
    if p[20..20 + 3 * |ts|] == AllTargetBytes(ts) {
      BytesAsTargets(ts, p);
    }
  }

  lemma TargetsAsBytes(ts: seq<JointTarget>, p: seq<byte>)
    requires 20 + 3 * |ts| <= |p| && (forall t :: t in ts ==> TargetFits(t)) && TargetsAt(p, |ts|) == ts
    ensures p[20..20 + 3 * |ts|] == AllTargetBytes(ts)
  {
    var middle := p[20..20 + 3 * |ts|];
    forall i | 0 <= i < |ts|
      ensures 0 <= i * 3 <= i * 3 + 3 <= |middle| && middle[i * 3..i * 3 + 3] == TargetBytes(ts[i])
    {
      assert TargetsAt(p, |ts|)[i] == ts[i];
      SliceIsTarget(ts[i], p, middle, i);
    }
    FlatMapFromSlices<JointTarget, byte>(TargetBytes, ts, 3, middle);
  }

  lemma BytesAsTargets(ts: seq<JointTarget>, p: seq<byte>)
    requires 20 + 3 * |ts| <= |p| && (forall t :: t in ts ==> TargetFits(t))
    requires p[20..20 + 3 * |ts|] == AllTargetBytes(ts)
    ensures TargetsAt(p, |ts|) == ts
  {
    FlatMapSlices<JointTarget, byte>(TargetBytes, ts, 3);
    forall i | 0 <= i < |ts|
      ensures TargetsAt(p, |ts|)[i] == ts[i]
    {
      SliceIsTarget(ts[i], p, p[20..20 + 3 * |ts|], i);
    }
  }

  lemma SliceIsTarget(t: JointTarget, p: seq<byte>, middle: seq<byte>, i: nat)
    requires TargetFits(t) && 3 * i + 3 <= |middle| && 20 + |middle| <= |p| && middle == p[20..20 + |middle|]
    ensures middle[i * 3..i * 3 + 3] == TargetBytes(t) <==> TargetAt(p, 20 + 3 * i) == t
  {
    SliceOfSlice(p, 20, 20 + |middle|, 3 * i, 3 * i + 3);
    TargetCodec(t, p, 20 + 3 * i);
  }

  lemma MotionCodec(c: MotionCommand, p: seq<byte>)
    ensures DecodeMotion(p) == Ok(c) <==> EncodeMotion(c) == Ok(p)
  {
    if |p| >= 27 && |p| == 24 + 3 * |c.targets| && MotionFault(c).None? {
      MotionLayout(c, p);
    } else if MotionFault(c).None? {
      FlatMapSlices<JointTarget, byte>(TargetBytes, c.targets, 3);
    }
  }

  // ---- The loops

  method EncodeMotionCommand(c: MotionCommand) returns (r: Result<seq<byte>, ProtocolError>)
    ensures r == EncodeMotion(c)
  {
    if !Positive16(c.ttlMs) || !Positive16(c.maxVelocity) || !Positive16(c.maxAcceleration) {
      return Err(FieldRange);
    }
    if !(1 <= |c.targets| <= MAX_JOINTS) {
      return Err(JointCount);
    }
    if !DistinctIds(c.targets) {
      return Err(DuplicateJoint);
    }
    ghost var head := c.commandId + WriteU16(c.ttlMs) + [POSITION_MODE, |c.targets|];
    var payload: seq<byte> := c.commandId + WriteU16(c.ttlMs) + [POSITION_MODE, |c.targets|];
    for i := 0 to |c.targets|
      invariant payload == head + AllTargetBytes(c.targets[..i])
      invariant forall t :: t in c.targets[..i] ==> TargetFits(t)
    {
      var t := c.targets[i];
      if !TargetFits(t) {
        assert t in c.targets;
        return Err(FieldRange);
      }
      ghost var before := payload;
      payload := payload + [t.jointId] + WriteU16(ToUnsigned(t.targetCdeg));
      assert payload == before + TargetBytes(t);
      assert c.targets[..i + 1] == c.targets[..i] + [t];
      FlatMapConcat<JointTarget, byte>(TargetBytes, c.targets[..i], [t]);
      FlatMapOne<JointTarget, byte>(TargetBytes, t);
      assert payload == head + (AllTargetBytes(c.targets[..i]) + TargetBytes(t));
    }
    assert c.targets[..|c.targets|] == c.targets;
    assert MotionFault(c).None?;
    r := Ok(payload + WriteU16(c.maxVelocity) + WriteU16(c.maxAcceleration));
  }

  method DecodeMotionCommand(p: seq<byte>) returns (r: Result<MotionCommand, ProtocolError>)
    ensures r == DecodeMotion(p)
  {
    if |p| < 27 {
      return Err(Truncated);
    }
    var count := JointCountAt(p);
    if !(1 <= count <= MAX_JOINTS) {
      return Err(JointCount);
    }
    if |p| != 24 + 3 * count {
      return Err(LengthMismatch);
    }
    if p[18] != POSITION_MODE {
      return Err(UnknownEnum);
    }
    var offset := 20;
    var targets: seq<JointTarget> := [];
    for i := 0 to count
      invariant offset == 20 + 3 * i
      invariant |targets| == i && forall k :: 0 <= k < i ==> targets[k] == TargetAt(p, 20 + 3 * k)
    {
      targets := targets + [TargetAt(p, offset)];
      offset := offset + 3;
    }
    assert targets == TargetsAt(p, count);
    var decoded := MotionCommand(p[..16], ReadU16(p, 16), targets, ReadU16(p, offset), ReadU16(p, offset + 2));
    var encoded := EncodeMotionCommand(decoded);
    r := if encoded.Err? then Err(encoded.error) else Ok(decoded);
  }

  // ---- Firmware

  /** The payloads the firmware admits: the host's, without the reserved joint id 0. */
  predicate MotionAdmitted(p: seq<byte>) {
    DecodeMotion(p).Ok? && forall t :: t in DecodeMotion(p).value.targets ==> t.jointId != 0
  }

  lemma RawTargetsFit(p: seq<byte>)
    requires |p| >= 20 && |p| == 24 + 3 * JointCountAt(p)
    ensures forall t :: t in RawMotion(p).targets ==> TargetFits(t)
  {
  }

  function IdAt(p: seq<byte>, i: nat): byte
    requires 20 + 3 * i < |p|
  {
    p[20 + 3 * i]
  }

  /** Joint ids of the first n targets are non-zero and pairwise different. */
  predicate IdsGood(p: seq<byte>, n: nat)
    requires 20 + 3 * n <= |p|
  {
    && (forall i :: 0 <= i < n ==> IdAt(p, i) != 0)
    && (forall i, j :: 0 <= i < j < n ==> IdAt(p, i) != IdAt(p, j))
  }

  lemma AdmittedMeans(p: seq<byte>)
    requires |p| >= 27 && 1 <= JointCountAt(p) <= MAX_JOINTS && |p| == 24 + 3 * JointCountAt(p)
    ensures MotionAdmitted(p) <==>
      && ReadU16(p, 16) != 0 && p[18] == POSITION_MODE && IdsGood(p, JointCountAt(p))
      && ReadU16(p, |p| - 4) != 0 && ReadU16(p, |p| - 2) != 0
  {
    var n := JointCountAt(p);
    var ts := TargetsAt(p, n);
    RawTargetsFit(p);
    assert forall i :: 0 <= i < n ==> ts[i].jointId == IdAt(p, i);
    assert (forall t :: t in ts ==> t.jointId != 0) <==> (forall i :: 0 <= i < n ==> ts[i].jointId != 0);
  }

  method ValidateMotionPayload(payload: seq<byte>) returns (valid: bool)
    ensures valid <==> MotionAdmitted(payload)
  {
    if |payload| < 27 {
      return false;
    }
    var ttlMs := ReadU16(payload, 16);
    var count := JointCountAt(payload);
    if ttlMs == 0 || payload[18] != POSITION_MODE || count == 0 || count > MAX_JOINTS {
      return false;
    }
    if |payload| != 24 + count * 3 {
      return false;
    }
    AdmittedMeans(payload);
    var good := ValidateIds(payload, count);
    valid := good && ReadU16(payload, 20 + 3 * count) > 0 && ReadU16(payload, 22 + 3 * count) > 0;
  }

  /** The loop over the joint ids: each must be non-zero and new. */
  method ValidateIds(payload: seq<byte>, count: nat) returns (good: bool)
    requires 20 + 3 * count <= |payload|
    ensures good <==> IdsGood(payload, count)
  {
    var seen := new bool[256](_ => false);
    var offset := 20;
    for i := 0 to count
      invariant offset == 20 + 3 * i
      invariant IdsGood(payload, i)
      invariant forall id: byte :: seen[id] <==> exists k :: 0 <= k < i && IdAt(payload, k) == id
    {
      var jointId := payload[offset];
      assert jointId == IdAt(payload, i);
      if jointId == 0 || seen[jointId] {
        assert !IdsGood(payload, count);
        return false;
      }
      seen[jointId] := true;
      offset := offset + 3;
    }
    good := true;
  }
}
