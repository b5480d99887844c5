/** The simulation runtime: a behaviour is planned, authorized, sent and carried out until the twin is idle again. */
module SimulationRuntime {
  import opened Bytes
  import opened Numbers
  import opened RobotModel
  import opened Framing
  import M = Messages
  import opened DigitalTwin
  import opened TwinRuns
  import opened Lifecycle
  import E = Eligibility
  import D = Dynamics
  import opened Supervisor
  import Telemetry
  import Trajectory
  import opened MotionPlanning
  import opened Authorizations
  import opened EndToEnd
  import opened Device
  import opened Gateway
  import opened ReferenceArm
  import opened Settling

  datatype RuntimeError =
    | NoGoal | PlanFailed | SafetyRejected(violations: seq<E.Violation>) | GatewayFailed | NotSettled

  datatype Report = Report(steps: nat, heartbeatAck: M.AckStatus, motionAck: M.AckStatus)

  // ---- One request with its acknowledgement delivered

  method Exchange(gateway: RobotGateway, device: DigitalTwinProtocolDevice, messageType: MessageType,
                  payload: seq<byte>)
    returns (r: Result<Receipt, RequestError>)
    requires gateway.Valid() && device.Valid() && |payload| <= MAX_PAYLOAD
    modifies gateway, device, device.twin
    ensures gateway.Valid() && device.Valid()
    ensures var f := AnyFrame.Frame(messageType, old(gateway.sequence), payload);
      && device.twin.View() == AfterRequest(device.twin.model, old(device.twin.View()), f)
      && (r.Ok? <==> Dispatched(device.twin.model, old(device.twin.View()), f).Ok?)
      && (r.Ok? ==> r.value == Receipt(f.sequence, messageType, M.AckOk))
  {
    var number := gateway.sequence;
    var frame := AnyFrame.Frame(messageType, number, payload);
    ghost var ok := Dispatched(device.twin.model, device.twin.View(), frame).Ok?;
    ghost var waiting := Advanced(gateway.View()).(sent := gateway.sentCount + 1);
    ghost var answered := device.responseSequence;
    var answer := device.ServeOnce(frame);
    FinishedWithAnswer(waiting, number, messageType, number, ok, answered);
    var sent, result := gateway.Request(messageType, payload, true, true, GotFrame(answer));
    r := result;
  }

  // ---- Why every stage of an authorized behaviour succeeds

  predicate Reportable(t: Twin) {
    ClockFits(t.uptimeMs) && CurrentsFit(t.currents)
  }

  /** At rest on target in a pose of the hull: how every motion request finds the twin. */
  predicate Posed(t: Twin) {
    Shaped(REFERENCE, t) && AtRest(t) && InHull(t.positions) && t.positions == t.targets && Reportable(t)
  }

  /** Between operations: at rest on target in a pose of the hull, and stopped exactly if the supervisor is latched. */
  predicate Calm(t: Twin, s: Snapshot) {
    && Posed(t)
    && (t.state.Idle? || t.state.EmergencyStopped?) && (t.state.EmergencyStopped? <==> s.latched)
    && Unstopped(s)
  }

  lemma HullPlan(start: Joints, target: Joints, root: real -> real)
    requires InHull(start) && InHull(target)
    ensures REFERENCE.Valid() && REFERENCE.WithinLimits(start) && REFERENCE.WithinLimits(target)
    ensures var d := Trajectory.Minimum(REFERENCE, start, target, root);
      AcceptedPlan(REFERENCE, start, target, root, d, Trajectory.Steps(d, STEP))
  {
    ReferenceIsValid();
    HullFits(start);
    HullFits(target);
    Trajectory.MinimumIsPositive(REFERENCE, start, target, root);
  }

  /** What an approval carries. */
  predicate GrantsGoal(a: Authorization, goal: Joints) {
    && a.targets == Nums(goal) && |a.id| == 16
    && a.commandTtlMs == Fin(250.0) && a.maxVelocity == Fin(35.0) && a.maxAcceleration == Fin(90.0)
  }

  predicate ApprovesGoal(a: Authorization, cue: Cue, style: Style) {
    GrantsGoal(a, Goal(cue, style))
  }

  lemma ApprovedGoalIsEncodable(a: Authorization, cue: Cue, style: Style)
    requires ApprovesGoal(a, cue, style)
    ensures Encodable(a, Ids(REFERENCE))
  {
    forall n | n in a.targets
      ensures JointConvertible(a, Ids(REFERENCE), n)
    {
      GoalIsConvertible(cue, style, n);
    }
    PolicyIsConvertible(250.0, 1, 250);
    PolicyIsConvertible(35.0, SCALE, 3500);
    PolicyIsConvertible(90.0, SCALE, 9000);
  }

  lemma PolicyIsConvertible(x: real, scale: int, n: int)
    requires x * scale as real == n as real && 1 <= n <= 0xFFFF
    ensures Convertible(Fin(x), scale, 1, 0xFFFF)
  {
    var r := ExactProtocolInteger(Fin(x), scale, 1, 0xFFFF);
    assert Exactly(Fin(x), scale, n, 1, 0xFFFF);
  }

  lemma ReferenceIdsAreGood()
    ensures GoodMapping(Ids(REFERENCE))
  {
    ReferenceIsValid();
    ModelIdsAreGood(REFERENCE);
  }

  lemma FourTargets(a: Authorization, cue: Cue, style: Style)
    requires ApprovesGoal(a, cue, style)
    ensures |a.targets| == 4
  {
    FourJoints();
    assert a.targets.Keys == REFERENCE.joints.Keys;
    assert |a.targets| == |a.targets.Keys|;
    assert |REFERENCE.joints| == |REFERENCE.joints.Keys|;
  }

  lemma GoalIsConvertible(cue: Cue, style: Style, n: string)
    requires n in REFERENCE.joints
    ensures Convertible(Fin(Goal(cue, style)[n]), SCALE, -0x8000, 0x7FFF)
  {
    GoalAt(cue, style, n);
    RoundedGoalsAreExact(Unrounded(cue, style, n));
  }

  lemma ApprovedGoalIsWithin(a: Authorization, cue: Cue, style: Style)
    requires ApprovesGoal(a, cue, style)
    ensures AuthorizedWithin(REFERENCE, a)
  {
    GoalsAreInHull(cue, style);
    HullFits(Goal(cue, style));
  }

  /** The twin accepts the command made from an approval, and is then ready to move to the goal. */
  lemma GoalIsAccepted(t: Twin, a: Authorization, cue: Cue, style: Style, c: M.MotionCommand)
    requires REFERENCE.Valid() && Posed(t) && ApprovesGoal(a, cue, style) && Says(c, a, Ids(REFERENCE))
    ensures Accepted(REFERENCE, t, c).Ok? && MovesTo(Accepted(REFERENCE, t, c).value, Goal(cue, style))
  {
    ApprovedGoalIsWithin(a, cue, style);
    HullFits(t.targets);
    TwinTakesOver(REFERENCE, t, c, a);
    AcceptedKeepsTheRest(REFERENCE, t, c);
    GoalTakenOver(t, Accepted(REFERENCE, t, c).value, a, cue, style);
  }

  predicate MovesTo(t: Twin, goal: Joints) {
    ReadyToMove(t) && t.targets == goal && Reportable(t)
  }

  lemma DispatchesMotion(model: Model, t: Twin, c: M.MotionCommand, sequence: u16)
    requires model.Identified() && M.MotionFault(c).None? && |M.MotionBytes(c)| <= MAX_PAYLOAD
    requires Accepted(model, t, c).Ok?
    ensures var f := AnyFrame.Frame(ValidatedMotionCommand, sequence, M.MotionBytes(c));
      Dispatched(model, t, f).Ok? && AfterRequest(model, t, f) == Accepted(model, t, c).value
  {
    M.MotionCodec(c, M.MotionBytes(c));
  }

  lemma AcceptedKeepsTheRest(model: Model, t: Twin, c: M.MotionCommand)
    requires model.Identified() && Accepted(model, t, c).Ok?
    ensures var u := Accepted(model, t, c).value; u.currents == t.currents && u.uptimeMs == t.uptimeMs
  {
  }

  lemma GoalTakenOver(t: Twin, u: Twin, a: Authorization, cue: Cue, style: Style)
    requires Posed(t) && ApprovesGoal(a, cue, style) && AuthorizedWithin(REFERENCE, a) && TakesOver(REFERENCE, t, u, a)
    requires u.currents == t.currents && u.uptimeMs == t.uptimeMs
    ensures MovesTo(u, Goal(cue, style))
  {
    GoalsAreInHull(cue, style);
    TargetsAreGoal(t, u, a, Goal(cue, style));
  }

  lemma TargetsAreGoal(t: Twin, u: Twin, a: Authorization, goal: Joints)
    requires Shaped(REFERENCE, t) && AuthorizedWithin(REFERENCE, a) && TakesOver(REFERENCE, t, u, a)
    requires a.targets == Nums(goal) && goal.Keys == REFERENCE.joints.Keys
    ensures u.targets == goal
  {
    forall n | n in REFERENCE.joints
      ensures u.targets[n] == goal[n]
    {
      assert n in a.targets && a.targets[n] == Fin(goal[n]);
    }
  }

  // ---- Telemetry between operations

  lemma JointReportFits(t: Twin, n: string)
    requires REFERENCE.Valid() && Posed(t) && n in REFERENCE.joints
    ensures Telemetry.ReportFits(ReportOf(REFERENCE, t, n))
  {
    HullInCentidegrees(n, t.positions[n]);
    RoundingStaysWithin(t.positions[n], LowCdeg(n), HighCdeg(n));
    assert t.velocities[n] * 100.0 == 0.0;
  }

  /** Whatever is reported between operations has a wire form, which the host decodes to the same report. */
  lemma ReportIsEncodable(t: Twin, supplyMv: int, flags: int)
    requires REFERENCE.Valid() && Posed(t) && M.FitsU16(supplyMv) && M.FitsByte(flags)
    ensures var report := Reported(REFERENCE, t, supplyMv, flags);
      var p := Telemetry.EncodeTelemetry(report);
      p.Ok? && Telemetry.DecodeTelemetry(p.value) == Ok(report)
  {
    var report := Reported(REFERENCE, t, supplyMv, flags);
    JointReportsFit(t, supplyMv, flags);
    DistinctReported(t, supplyMv, flags);
    Telemetry.TelemetryCodec(report, Telemetry.TelemetryBytes(report));
  }

  lemma JointReportsFit(t: Twin, supplyMv: int, flags: int)
    requires REFERENCE.Valid() && Posed(t)
    ensures forall j :: j in Reported(REFERENCE, t, supplyMv, flags).joints ==> Telemetry.ReportFits(j)
  {
    var joints := Reported(REFERENCE, t, supplyMv, flags).joints;
    forall i | 0 <= i < |joints|
      ensures Telemetry.ReportFits(joints[i])
    {
      assert REFERENCE.names[i] in REFERENCE.names;
      JointReportFits(t, REFERENCE.names[i]);
    }
  }

  lemma DistinctReported(t: Twin, supplyMv: int, flags: int)
    requires REFERENCE.Valid() && Shaped(REFERENCE, t)
    ensures Telemetry.DistinctReports(Reported(REFERENCE, t, supplyMv, flags).joints)
    ensures |Reported(REFERENCE, t, supplyMv, flags).joints| == 4
  {
    var names := REFERENCE.names;
    forall i, j | 0 <= i < j < |names|
      ensures names[i] in REFERENCE.joints && names[j] in REFERENCE.joints
      ensures REFERENCE.joints[names[i]].protocolId != REFERENCE.joints[names[j]].protocolId
    {
      assert names[i] in names && names[j] in names && names[i] != names[j];
    }
  }

  // ---- The runtime

  const SUPPLY_MV := 6000

  const LIFECYCLE_POLICY: LifecyclePolicy := LifecyclePolicy(Fin(500.0), true)

  function HeartbeatBytes(uptimeMs: int): (p: seq<byte>)
    requires ClockFits(uptimeMs)
    ensures |p| == 6
  {
    M.Heartbeat(M.Host, uptimeMs, M.WireState.Armed).Encode().value
  }

  lemma HeartbeatIsServed(t: Twin, sequence: u16)
    requires REFERENCE.Valid() && ClockFits(t.uptimeMs)
    ensures Dispatched(REFERENCE, t, AnyFrame.Frame(Heartbeat, sequence, HeartbeatBytes(t.uptimeMs))) == Ok(t)
  {
    M.HeartbeatCodec(M.Heartbeat(M.Host, t.uptimeMs, M.WireState.Armed), HeartbeatBytes(t.uptimeMs));
  }

  lemma StopIsServed(t: Twin, sequence: u16)
    requires REFERENCE.Valid()
    ensures var p := M.EmergencyStop(M.Host, M.Manual).Encode();
      |p| == 2 && Dispatched(REFERENCE, t, AnyFrame.Frame(Estop, sequence, p)) == Ok(Stopped(REFERENCE, t))
  {
    M.EmergencyStopCodec(M.EmergencyStop(M.Host, M.Manual), M.EmergencyStop(M.Host, M.Manual).Encode());
  }

  lemma StoppedIsCalm(t: Twin, s: Snapshot)
    requires Calm(t, s)
    ensures Calm(Stopped(REFERENCE, t), Latch(s, SoftwareEstop))
  {
  }

  lemma SettledIsCalm(ready: Twin, t: Twin, s: Snapshot)
    requires ReadyToMove(ready) && SameOrders(REFERENCE, ready, t) && Settled(t) && t.state.Idle? && Reportable(t)
    requires Unstopped(s) && !s.latched
    ensures Calm(t, s)
  {
  }

  /** The supervisor is told that no stop input is active and that the heartbeat is 10 ms old. */
  lemma InformedStaysUnstopped(s: Snapshot, c: E.Candidate, d: Dynamics.MotionDynamics)
    requires Unstopped(s) && !c.estopActive && d.heartbeatAgeMs == Fin(10.0)
    ensures Unstopped(Informed(s, c, d, LIFECYCLE_POLICY.heartbeatTimeoutMs))
    ensures Informed(s, c, d, LIFECYCLE_POLICY.heartbeatTimeoutMs).latched == s.latched
  {
  }

  /** reset_estop: both sides, but only if the twin is stopped. */
  function ResetBoth(t: Twin, s: Snapshot): (Twin, Snapshot, bool) {
    if !t.state.EmergencyStopped? then (t, s, true)
    else
      var observed := Observe(s, Fin(0.0), LIFECYCLE_POLICY.heartbeatTimeoutMs);
      (Restarted(t), Reset(observed), Denials(observed) == [])
  }

  /**
   For any twin and supervisor, the reset reports success and leaves nothing stopped if and only if both are stopped
   or neither is, the watchdog being armed and the physical stop released in the first case.
   */
  lemma ResetAgreesExactly(t: Twin, s: Snapshot)
    ensures var (u, r, cleared) := ResetBoth(t, s);
      cleared && !u.state.EmergencyStopped? && !r.latched <==>
        (t.state.EmergencyStopped? <==> s.latched) && (t.state.EmergencyStopped? ==> Unstopped(s))
  {
  }

  /** From any state between operations the reset succeeds and leaves nothing stopped. */
  lemma ResetSucceeds(t: Twin, s: Snapshot)
    requires Calm(t, s)
    ensures var (u, r, cleared) := ResetBoth(t, s);
      cleared && Calm(u, r) && u.state.Idle? && !r.latched
  {
  }

  /**
   The reset takes no lock. Between the two halves of a stop - the twin is stopped, the supervisor not yet
   latched - it finds no latch to clear; the latch set afterwards then outlives every further reset, which
   sees an idle twin, reports success and does nothing.
   */
  lemma InterleavedResetStrandsTheLatch(t: Twin, s: Snapshot)
    requires Calm(t, s) && t.state.Idle?
    ensures var (u, r, cleared) := ResetBoth(Stopped(REFERENCE, t), s);
      var late := Latch(r, SoftwareEstop);
      && !cleared && u.state.Idle? && late.latched && !Calm(u, late)
      && ResetBoth(u, late) == (u, late, true)
  {
  }

  /** The simulation's safety envelope for the reference arm. */
  function ArmEnvelope(box: E.WorkspaceBounds): E.Envelope {
    EnvelopeWith(REFERENCE.joints, box, 35.0, 90.0)
  }

  lemma ArmEnvelopeIsTheModels(box: E.WorkspaceBounds)
    ensures REFERENCE.Valid() && ArmEnvelope(box) == SimulationEnvelope(REFERENCE, box)
    ensures SameTimeout(ArmEnvelope(box), LIFECYCLE_POLICY)
  {
    StrictestLimits();
  }

  lemma StartsCalm()
    requires REFERENCE.Valid()
    ensures Calm(AtHome(REFERENCE), Arm(FRESH))
  {
    HomeIsInHull();
  }

  /** The supervisor's verdict on the planned motion to a pose of the hull. */
  lemma VerdictOnGoal(start: Joints, goal: Joints, root: real -> real, pose: E.Point, box: E.WorkspaceBounds,
                      s: Snapshot)
    returns (plan: Trajectory.JointTrajectory)
    requires InHull(start) && InHull(goal) && IsRoot(root) && s.armed
    ensures REFERENCE.Valid() && REFERENCE.WithinLimits(start) && REFERENCE.WithinLimits(goal)
    ensures var d := Trajectory.Minimum(REFERENCE, start, goal, root);
      && d > 0.0
      && plan == Trajectory.Planned(start, goal, d, Trajectory.Steps(d, STEP)) && plan.samples != []
    ensures Safe(s, ArmEnvelope(box), TerminalCandidate(goal, pose, E.Armed, false),
                 TerminalDynamics(plan, Fin(0.0), Fin(10.0)))
       <==> !s.latched && box.Contains(pose)
  {
    HullPlan(start, goal, root);
    ArmEnvelopeIsTheModels(box);
    var d := Trajectory.Minimum(REFERENCE, start, goal, root);
    plan := Trajectory.Planned(start, goal, d, Trajectory.Steps(d, STEP));
    PlannedMotionIsSafe(REFERENCE, start, goal, root, d, Trajectory.Steps(d, STEP), pose, box, s);
  }

  /** Idle in this pose with nothing to do, as switched on. */
  predicate StartsAt(t: Twin, pose: Joints) {
    && t.positions == t.targets == pose && AtRest(t) && t.state.Idle? && t.uptimeMs == 0
    && t.velocityLimit == 35.0 && t.accelerationLimit == 90.0
  }

  lemma HomeIsStart(t: Twin)
    requires REFERENCE.Valid() && t == AtHome(REFERENCE)
    ensures StartsAt(t, REFERENCE.Home())
  {
    StrictestLimits();
  }

  method BuildTwin() returns (twin: DigitalTwinRobot)
    ensures fresh(twin) && twin.Valid() && twin.model == REFERENCE && twin.supplyMv == SUPPLY_MV
    ensures StartsAt(twin.View(), twin.model.Home()) && Calm(twin.View(), Arm(FRESH))
  {
    ReferenceIsValid();
    StartsCalm();
    HomeIsStart(AtHome(REFERENCE));
    twin := new DigitalTwinRobot(REFERENCE, SUPPLY_MV);
  }

  method BuildSimulationSupervisor(box: E.WorkspaceBounds) returns (supervisor: MotionSafetySupervisor)
    ensures REFERENCE.Valid() && supervisor.Valid() && fresh(supervisor) && fresh(supervisor.lifecycle)
    ensures supervisor.envelope == ArmEnvelope(box) && supervisor.lifecycle.policy == LIFECYCLE_POLICY
    ensures supervisor.lifecycle.snapshot == Arm(FRESH)
  {
    ArmEnvelopeIsTheModels(box);
    supervisor := ArmedSupervisor(ArmEnvelope(box), LIFECYCLE_POLICY);
  }

  method ArmedSupervisor(envelope: E.Envelope, policy: LifecyclePolicy) returns (supervisor: MotionSafetySupervisor)
    requires policy.Valid() && SameTimeout(envelope, policy)
    ensures supervisor.Valid() && fresh(supervisor) && fresh(supervisor.lifecycle)
    ensures supervisor.envelope == envelope && supervisor.lifecycle.policy == policy
    ensures supervisor.lifecycle.snapshot == Arm(FRESH)
  {
    var lifecycle := new SafetyLifecycleController(policy);
    supervisor := new MotionSafetySupervisor(envelope, lifecycle);
    lifecycle.ArmWatchdog();
  }

  method Judge(supervisor: MotionSafetySupervisor, c: E.Candidate, d: D.MotionDynamics, id: M.CommandId)
    returns (r: SafetyResult)
    requires supervisor.Valid()
    modifies supervisor.lifecycle
    ensures supervisor.Valid()
    ensures supervisor.lifecycle.snapshot
         == Informed(old(supervisor.lifecycle.snapshot), c, d, supervisor.lifecycle.policy.heartbeatTimeoutMs)
    ensures r.Approved() <==> Safe(old(supervisor.lifecycle.snapshot), supervisor.envelope, c, d)
    ensures r.Approved() ==>
      var a, p := r.authorization.value, supervisor.envelope.policy.value;
      && a.targets == c.targets && a.id == id && a.commandTtlMs == p.commandTtlMs
      && a.maxVelocity == p.maxVelocity && a.maxAcceleration == p.maxAcceleration
  {
    SafeExactly(supervisor.lifecycle.snapshot, supervisor.envelope, c, d);
    r := supervisor.Evaluate(c, d, id);
  }

  /** Plans the motion to a pose of the hull and has it judged. */
  method Authorize(supervisor: MotionSafetySupervisor, box: E.WorkspaceBounds, start: Joints, goal: Joints,
                   forward: Joints -> E.Point, root: real -> real, id: M.CommandId)
    returns (r: SafetyResult)
    requires REFERENCE.Valid() && supervisor.Valid() && supervisor.envelope == ArmEnvelope(box)
    requires supervisor.lifecycle.policy == LIFECYCLE_POLICY
    requires Unstopped(supervisor.lifecycle.snapshot) && InHull(start) && InHull(goal) && IsRoot(root)
    modifies supervisor.lifecycle
    ensures supervisor.Valid() && Unstopped(supervisor.lifecycle.snapshot)
    ensures supervisor.lifecycle.snapshot.latched == old(supervisor.lifecycle.snapshot.latched)
    ensures r.Approved() <==> !old(supervisor.lifecycle.snapshot.latched) && box.Contains(forward(goal))
    ensures r.Approved() ==> GrantsGoal(r.authorization.value, goal) && r.authorization.value.id == id
  {
    ghost var plan := VerdictOnGoal(start, goal, root, forward(goal), box, supervisor.lifecycle.snapshot);
    var planned := Trajectory.Generate(REFERENCE, start, goal, root, STEP, None);
    assert planned == Ok(plan);
    var candidate := TerminalCandidate(goal, forward(goal), E.Armed, false);
    var dynamics := TerminalDynamics(planned.value, Fin(0.0), Fin(10.0));
    InformedStaysUnstopped(supervisor.lifecycle.snapshot, candidate, dynamics);
    ArmEnvelopeIsTheModels(box);
    r := Judge(supervisor, candidate, dynamics, id);
  }

  /** The watchdog armed and the physical stop released. */
  predicate Unstopped(s: Snapshot) {
    s.armed && !s.physicalActive
  }

  /** The payload of the motion request for an authorization of a goal; making it never fails. */
  method MotionPayload(a: Authorization, cue: Cue, style: Style)
    returns (r: Result<seq<byte>, M.ProtocolError>, ghost c: M.MotionCommand)
    requires ApprovesGoal(a, cue, style)
    ensures Says(c, a, Ids(REFERENCE)) && M.MotionFault(c).None?
    ensures r == Ok(M.MotionBytes(c)) && |r.value| <= MAX_PAYLOAD
  {
    ReferenceIdsAreGood();
    ApprovedGoalIsEncodable(a, cue, style);
    FourTargets(a, cue, style);
    var command := EncodeAuthorization(a, Ids(REFERENCE));
    c := command.value;
    SaidIsEncodable(c, a, Ids(REFERENCE));
    r := M.EncodeMotionCommand(command.value);
  }

  method SendHeartbeat(gateway: RobotGateway, device: DigitalTwinProtocolDevice)
    returns (r: Result<Receipt, RequestError>)
    requires REFERENCE.Valid() && gateway.Valid() && device.Valid() && device.twin.model == REFERENCE
    requires ClockFits(device.twin.uptimeMs)
    modifies gateway, device, device.twin
    ensures gateway.Valid() && device.Valid() && r.Ok? && r.value.status.AckOk?
    ensures device.twin.View() == old(device.twin.View())
  {
    HeartbeatIsServed(device.twin.View(), gateway.sequence);
    r := Exchange(gateway, device, Heartbeat, HeartbeatBytes(device.twin.uptimeMs));
  }

  method SendCommand(gateway: RobotGateway, device: DigitalTwinProtocolDevice, payload: seq<byte>,
                     ghost c: M.MotionCommand)
    returns (r: Result<Receipt, RequestError>)
    requires REFERENCE.Valid() && gateway.Valid() && device.Valid() && device.twin.model == REFERENCE
    requires M.MotionFault(c).None? && payload == M.MotionBytes(c) && |payload| <= MAX_PAYLOAD
    requires Accepted(REFERENCE, device.twin.View(), c).Ok?
    modifies gateway, device, device.twin
    ensures gateway.Valid() && device.Valid() && r.Ok? && r.value.status.AckOk?
    ensures device.twin.View() == Accepted(REFERENCE, old(device.twin.View()), c).value
  {
    DispatchesMotion(REFERENCE, device.twin.View(), c, gateway.sequence);
    r := Exchange(gateway, device, ValidatedMotionCommand, payload);
  }

  /** The motion request for an authorization of a goal, with its acknowledgement. */
  method SendAuthorization(gateway: RobotGateway, device: DigitalTwinProtocolDevice, a: Authorization, cue: Cue,
                           style: Style)
    returns (r: Result<Receipt, RequestError>)
    requires REFERENCE.Valid() && gateway.Valid() && device.Valid() && device.twin.model == REFERENCE
    requires Posed(device.twin.View()) && ApprovesGoal(a, cue, style)
    modifies gateway, device, device.twin
    ensures gateway.Valid() && device.Valid() && r.Ok? && r.value.status.AckOk?
    ensures MovesTo(device.twin.View(), Goal(cue, style))
  {
    var payload, c := MotionPayload(a, cue, style);
    GoalIsAccepted(device.twin.View(), a, cue, style, c);
    r := SendCommand(gateway, device, payload.value, c);
  }

  class SimulationRuntime {
    const twin: DigitalTwinRobot
    const gateway: RobotGateway
    const device: DigitalTwinProtocolDevice
    const supervisor: MotionSafetySupervisor
    const forward: Joints -> E.Point
    const box: E.WorkspaceBounds
    const root: real -> real

    ghost predicate Valid()
      reads this, twin, gateway, device, supervisor, supervisor.lifecycle
    {
      && twin.Valid() && twin.model == REFERENCE && twin.supplyMv == SUPPLY_MV
      && device.twin == twin && device.Valid() && gateway.Valid()
      && supervisor.Valid() && supervisor.envelope == ArmEnvelope(box)
      && supervisor.lifecycle.policy == LIFECYCLE_POLICY && IsRoot(root)
      && Calm(twin.View(), supervisor.lifecycle.snapshot)
    }

    constructor (forward: Joints -> E.Point, box: E.WorkspaceBounds, root: real -> real)
      requires IsRoot(root)
      ensures Valid() && StartsAt(twin.View(), twin.model.Home()) && supervisor.lifecycle.snapshot == Arm(FRESH)
    {
      var judge := BuildSimulationSupervisor(box);
      var robot := BuildTwin();
      twin, supervisor := robot, judge;
      gateway := new RobotGateway();
      device := new DigitalTwinProtocolDevice(robot);
      this.forward, this.box, this.root := forward, box, root;
    }

    /** The state report; it can always be sent. */
    method ReportTelemetry() returns (report: Telemetry.RobotTelemetry)
      requires Valid()
      ensures report == Reported(REFERENCE, twin.View(), SUPPLY_MV, 0)
      ensures Telemetry.EncodeTelemetry(report).Ok?
    {
      ReferenceIsValid();
      ReportIsEncodable(twin.View(), SUPPLY_MV, 0);
      report := twin.Report(0);
    }

    /** Sends the stop, and latches the supervisor once it is acknowledged, as it always is. */
    method EmergencyStop() returns (r: Result<Receipt, RequestError>)
      requires Valid()
      modifies gateway, device, twin, supervisor.lifecycle
      ensures Valid() && r.Ok? && twin.state.EmergencyStopped? && supervisor.lifecycle.snapshot.latched
      ensures twin.positions == old(twin.positions)
    {
      ReferenceIsValid();
      StopIsServed(twin.View(), gateway.sequence);
      StoppedIsCalm(twin.View(), supervisor.lifecycle.snapshot);
      r := Exchange(gateway, device, Estop, M.EmergencyStop(M.Host, M.Manual).Encode());
      supervisor.lifecycle.TriggerSoftwareEstop();
    }

    /** Always leaves the twin idle and the supervisor unlatched. */
    method ResetEmergencyStop() returns (cleared: bool)
      requires Valid()
      modifies twin, supervisor.lifecycle
      ensures Valid() && cleared && twin.state.Idle? && !supervisor.lifecycle.snapshot.latched
      ensures (twin.View(), supervisor.lifecycle.snapshot, cleared)
           == ResetBoth(old(twin.View()), old(supervisor.lifecycle.snapshot))
    {
      ResetSucceeds(twin.View(), supervisor.lifecycle.snapshot);
      if !twin.state.EmergencyStopped? {
        return true;
      }
      twin.ResetEstop();
      supervisor.lifecycle.ObserveHeartbeatAge(Fin(0.0));
      var denials;
      cleared, denials := supervisor.lifecycle.RequestManualReset();
    }

    /**
     One behaviour from request to rest. It succeeds exactly if there is a pose for the cue, nothing is
     stopped and the pose's hand position is in the workspace box; then the twin is idle on that pose after
     at most 1251 steps. Otherwise the twin has not changed. The other errors do not occur.
     */
    method ExecuteBehavior(cue: Cue, style: Style, id: M.CommandId) returns (r: Result<Report, RuntimeError>)
      requires Valid()
      modifies gateway, device, twin, supervisor.lifecycle
      ensures Valid() && supervisor.lifecycle.snapshot.latched == old(supervisor.lifecycle.snapshot.latched)
      ensures r.Ok? <==>
        !cue.NoCue? && !old(supervisor.lifecycle.snapshot.latched) && box.Contains(forward(Goal(cue, style)))
      ensures r.Ok? ==>
        && twin.state.Idle? && twin.positions == Goal(cue, style) && 0 < r.value.steps <= ENOUGH_STEPS
        && r.value.heartbeatAck.AckOk? && r.value.motionAck.AckOk?
      ensures r.Err? ==>
        (if cue.NoCue? then r.error.NoGoal? else r.error.SafetyRejected?) && twin.View() == old(twin.View())
    {
      if cue.NoCue? {
        return Err(NoGoal);
      }
      var goal := Goal(cue, style);
      GoalsAreInHull(cue, style);
      var safety := Authorize(supervisor, box, twin.positions, goal, forward, root, id);
      if !safety.Approved() {
        return Err(SafetyRejected(safety.violations));
      }
      var heartbeat := SendHeartbeat(gateway, device);
      if heartbeat.Err? {
        return Err(GatewayFailed);
      }
      var motion := SendAuthorization(gateway, device, safety.authorization.value, cue, style);
      if motion.Err? {
        return Err(GatewayFailed);
      }
      ghost var ready := twin.View();
      var steps := Settle(twin, root);
      if !twin.state.Idle? {
        return Err(NotSettled);
      }
      SettledIsCalm(ready, twin.View(), supervisor.lifecycle.snapshot);
      return Ok(Report(steps, heartbeat.value.status, motion.value.status));
    }
  }
}
