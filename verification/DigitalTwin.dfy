/** The multi-joint digital twin: commands, emergency stop, and the step over all joints. */
module DigitalTwin {
  import opened Bytes
  import opened RobotModel
  import opened Servo
  import opened Messages
  import opened Telemetry

  datatype TwinError = UnknownJoint | OutsideModel | BadStep

  const MAX_UPTIME: int := 0xFFFF_FFFF

  datatype Twin = Twin(
    positions: Joints, velocities: Joints, targets: Joints, currents: map<string, int>,
    uptimeMs: int, state: WireState, velocityLimit: real, accelerationLimit: real)

  /** Exactly the model's joints. */
  predicate Shaped(model: Model, t: Twin) {
    t.positions.Keys == t.velocities.Keys == t.targets.Keys == t.currents.Keys == model.joints.Keys
  }

  /** The same value for every joint. */
  function Uniform<V>(model: Model, value: V): map<string, V> {
    map n | n in model.joints :: value
  }

  function AtHome(model: Model): Twin
    requires model.Valid()
  {
    Twin(model.Home(), Uniform(model, 0.0), model.Home(), Uniform(model, 80),
         0, Idle, model.StrictestVelocity(), model.StrictestAcceleration())
  }

  // ---- Commands

  function NameAmong(model: Model, id: int, names: seq<string>): (name: Option<string>)
    requires forall n :: n in names ==> n in model.joints
    ensures name.Some? ==> name.value in names && model.joints[name.value].protocolId == id
    ensures name.None? ==> forall n :: n in names ==> model.joints[n].protocolId != id
  {
    if names == [] then None
    else if model.joints[names[0]].protocolId == id then Some(names[0])
    else NameAmong(model, id, names[1..])
  }

  function NameOf(model: Model, id: int): (name: Option<string>)
    requires model.Identified()
    ensures forall n :: name == Some(n) <==> n in model.joints && model.joints[n].protocolId == id
  {
    NameAmong(model, id, model.names)
  }

  function Degrees(centidegrees: int): real {
    centidegrees as real / 100.0
  }

  function Retargeted(model: Model, targets: Joints, commanded: seq<JointTarget>): Result<Joints, TwinError>
    requires model.Identified()
  {
    if commanded == [] then Ok(targets)
    else
      var last := commanded[|commanded| - 1];
      match Retargeted(model, targets, commanded[..|commanded| - 1])
      case Err(e) => Err(e)
      case Ok(some) =>
        match NameOf(model, last.jointId)
        case None => Err(UnknownJoint)
        case Some(name) => Ok(some[name := Degrees(last.targetCdeg)])
  }

  function Accepted(model: Model, t: Twin, c: MotionCommand): Result<Twin, TwinError>
    requires model.Identified()
  {
    match Retargeted(model, t.targets, c.targets)
    case Err(e) => Err(e)
    case Ok(targets) =>
      if !model.WithinLimits(targets) then Err(OutsideModel)
      else Ok(t.(targets := targets, state := Executing,
                 velocityLimit := Degrees(c.maxVelocity), accelerationLimit := Degrees(c.maxAcceleration)))
  }

  function Stopped(model: Model, t: Twin): Twin {
    t.(targets := t.positions, velocities := Uniform(model, 0.0), state := EmergencyStopped)
  }

  function Restarted(t: Twin): Twin {
    if t.state.EmergencyStopped? then t.(state := Idle) else t
  }

  /** Some commanded id is this joint's. */
  predicate Mentions(model: Model, commanded: seq<JointTarget>, n: string)
    requires n in model.joints
  {
    exists i :: 0 <= i < |commanded| && commanded[i].jointId == model.joints[n].protocolId
  }

  predicate AllKnown(model: Model, commanded: seq<JointTarget>)
    requires model.Identified()
  {
    forall i :: 0 <= i < |commanded| ==> NameOf(model, commanded[i].jointId).Some?
  }

  /** r has the commanded goals, and the old targets elsewhere. */
  predicate SetsExactly(model: Model, targets: Joints, commanded: seq<JointTarget>, r: Joints)
    requires model.Identified()
  {
    && targets.Keys == r.Keys == model.joints.Keys && AllKnown(model, commanded)
    && (forall i :: 0 <= i < |commanded| ==>
          r[NameOf(model, commanded[i].jointId).value] == Degrees(commanded[i].targetCdeg))
    && (forall n :: n in model.joints && !Mentions(model, commanded, n) ==> r[n] == targets[n])
  }

  lemma SetTarget(model: Model, targets: Joints, commanded: seq<JointTarget>, r: Joints, i: nat, n: string)
    requires model.Identified() && SetsExactly(model, targets, commanded, r) && i < |commanded| && n in model.joints
    requires commanded[i].jointId == model.joints[n].protocolId
    ensures r[n] == Degrees(commanded[i].targetCdeg)
  {
    assert NameOf(model, commanded[i].jointId) == Some(n);
  }

  /** The loop sets exactly the commanded joints, and fails exactly on an unknown id. */
  lemma {:induction false} RetargetedMeans(model: Model, targets: Joints, commanded: seq<JointTarget>)
    requires model.Identified() && targets.Keys == model.joints.Keys && DistinctIds(commanded)
    ensures Retargeted(model, targets, commanded).Ok? <==> AllKnown(model, commanded)
    ensures Retargeted(model, targets, commanded).Ok? ==>
      SetsExactly(model, targets, commanded, Retargeted(model, targets, commanded).value)
  {
    if commanded != [] {
      var before, last := commanded[..|commanded| - 1], commanded[|commanded| - 1];
      assert commanded == before + [last];
      RetargetedMeans(model, targets, before);
      KnownBefore(model, before, last);
      if AllKnown(model, commanded) {
        SetsOneMore(model, targets, before, last, Retargeted(model, targets, before).value);
      }
    }
  }

  lemma KnownBefore(model: Model, before: seq<JointTarget>, last: JointTarget)
    requires model.Identified()
    ensures AllKnown(model, before + [last]) <==> AllKnown(model, before) && NameOf(model, last.jointId).Some?
  {
    var all := before + [last];
    assert all[|before|] == last;
    assert forall i :: 0 <= i < |before| ==> all[i] == before[i];
  }

  /** One more distinct target. */
  lemma SetsOneMore(model: Model, targets: Joints, before: seq<JointTarget>, last: JointTarget, r: Joints)
    requires model.Identified() && DistinctIds(before + [last]) && AllKnown(model, before + [last])
    requires SetsExactly(model, targets, before, r)
    ensures NameOf(model, last.jointId).Some?
    ensures SetsExactly(model, targets, before + [last],
                        r[NameOf(model, last.jointId).value := Degrees(last.targetCdeg)])
  {
    KnownBefore(model, before, last);
    UnmentionedBefore(model, before, last);
    var all, name := before + [last], NameOf(model, last.jointId).value;
    forall i | 0 <= i < |all|
      ensures r[name := Degrees(last.targetCdeg)][NameOf(model, all[i].jointId).value] == Degrees(all[i].targetCdeg)
    {
      if i < |before| {
        assert all[i] == before[i] && all[|before|] == last;
        assert NameOf(model, all[i].jointId) != Some(name);
      }
    }
  }

  lemma UnmentionedBefore(model: Model, before: seq<JointTarget>, last: JointTarget)
    requires model.Identified()
    ensures forall n :: n in model.joints && !Mentions(model, before + [last], n) ==>
      !Mentions(model, before, n) && NameOf(model, last.jointId) != Some(n)
  {
    var all := before + [last];
    assert all[|before|] == last;
    assert forall i :: 0 <= i < |before| ==> all[i] == before[i];
  }

  // ---- Steps

  function LimitsOf(joint: JointSpec, velocity: real, acceleration: real, dt: real): Limits {
    Limits(Min(joint.maxVelocity, velocity), Min(joint.maxAcceleration, acceleration), dt)
  }

  function LimitsFor(model: Model, t: Twin, dt: real, n: string): Limits
    requires n in model.joints
  {
    LimitsOf(model.joints[n], t.velocityLimit, t.accelerationLimit, dt)
  }

  function AxisOf(t: Twin, n: string): Axis
    requires n in t.positions && n in t.velocities
  {
    Axis(t.positions[n], t.velocities[n])
  }

  function JointStep(model: Model, t: Twin, dt: real, law: ControlLaw, n: string): AxisStep
    requires Shaped(model, t) && n in model.joints
  {
    law(AxisOf(t, n), t.targets[n], LimitsFor(model, t, dt, n))
  }

  function Elapsed(uptimeMs: int, dt: real): int {
    var later := uptimeMs + RoundHalfEven(dt * 1000.0);
    if later < MAX_UPTIME then later else MAX_UPTIME
  }

  function AllSteps(model: Model, t: Twin, dt: real, law: ControlLaw): map<string, AxisStep>
    requires Shaped(model, t)
  {
    map n | n in model.joints :: JointStep(model, t, dt, law, n)
  }

  predicate AnyMoving(steps: map<string, AxisStep>, names: seq<string>) {
    if names == [] then false
    else
      var last := names[|names| - 1];
      (last in steps && steps[last].moving) || AnyMoving(steps, names[..|names| - 1])
  }

  lemma {:induction false} NoneMoving(steps: map<string, AxisStep>, names: seq<string>)
    ensures AnyMoving(steps, names) <==> exists n :: n in names && n in steps && steps[n].moving
  {
    if names != [] {
      NoneMoving(steps, names[..|names| - 1]);
      assert names == names[..|names| - 1] + [names[|names| - 1]];
    }
  }

  function Positions(steps: map<string, AxisStep>): Joints {
    map n | n in steps :: steps[n].axis.position
  }

  function Velocities(steps: map<string, AxisStep>): Joints {
    map n | n in steps :: steps[n].axis.velocity
  }

  function Currents(steps: map<string, AxisStep>): map<string, int> {
    map n | n in steps :: steps[n].currentMa
  }

  function Stepped(model: Model, t: Twin, dt: real, law: ControlLaw): (u: Twin)
    requires Shaped(model, t)
    ensures Shaped(model, u)
  {
    var uptimeMs := Elapsed(t.uptimeMs, dt);
    if t.state.EmergencyStopped? then t.(uptimeMs := uptimeMs, currents := Uniform(model, 60))
    else Moved(t, AllSteps(model, t, dt, law), uptimeMs, model.names)
  }

  function Moved(t: Twin, steps: map<string, AxisStep>, uptimeMs: int, names: seq<string>): Twin {
    t.(positions := Positions(steps), velocities := Velocities(steps), currents := Currents(steps),
       uptimeMs := uptimeMs, state := if AnyMoving(steps, names) then Executing else Idle)
  }

  // ---- Telemetry

  function ReportOf(model: Model, t: Twin, n: string): JointReport
    requires Shaped(model, t) && n in model.joints
  {
    JointReport(model.joints[n].protocolId, RoundHalfEven(t.positions[n] * 100.0),
                RoundHalfEven(t.velocities[n] * 100.0), t.currents[n])
  }

  /** The state report, joints in the model's order. */
  function Reported(model: Model, t: Twin, supplyMv: int, flags: int): RobotTelemetry
    requires Shaped(model, t) && forall n :: n in model.names ==> n in model.joints
  {
    RobotTelemetry(t.uptimeMs, t.state, flags, supplyMv,
                   seq(|model.names|, i requires 0 <= i < |model.names| =>
                     assert model.names[i] in model.names; ReportOf(model, t, model.names[i])))
  }

  // ---- The class

  /** The new entries for the joints done so far, the old ones elsewhere. */
  function Overlaid<V>(before: map<string, V>, after: map<string, V>, done: seq<string>): map<string, V>
    requires before.Keys == after.Keys
  {
    map n | n in before :: if n in done then after[n] else before[n]
  }

  lemma OverlayOne<V>(before: map<string, V>, after: map<string, V>, names: seq<string>, i: nat)
    requires before.Keys == after.Keys && i < |names| && names[i] in after
    ensures Overlaid(before, after, names[..i])[names[i] := after[names[i]]] == Overlaid(before, after, names[..i + 1])
  {
    assert names[..i + 1] == names[..i] + [names[i]];
  }

  lemma OverlayEnds<V>(before: map<string, V>, after: map<string, V>, names: seq<string>)
    requires before.Keys == after.Keys && forall n :: n in after ==> n in names
    ensures Overlaid(before, after, names[..0]) == before
    ensures Overlaid(before, after, names[..|names|]) == after
  {
    assert names[..|names|] == names;
  }

  method Retarget(model: Model, targets: Joints, commanded: seq<JointTarget>) returns (r: Result<Joints, TwinError>)
    requires model.Identified()
    ensures r == Retargeted(model, targets, commanded)
  {
    var updated := targets;
    for i := 0 to |commanded|
      invariant Retargeted(model, targets, commanded[..i]) == Ok(updated)
    {
      var target := commanded[i];
      RetargetOne(model, targets, commanded, i);
      var name := NameOf(model, target.jointId);
      if name.None? {
        return Err(UnknownJoint);
      }
      updated := updated[name.value := Degrees(target.targetCdeg)];
    }
    assert commanded[..|commanded|] == commanded;
    return Ok(updated);
  }

  class DigitalTwinRobot {
    const model: GoodModel
    const supplyMv: int
    var positions: Joints
    var velocities: Joints
    var targets: Joints
    var currents: map<string, int>
    var uptimeMs: int
    var state: WireState
    var commandVelocityLimit: real
    var commandAccelerationLimit: real

    function View(): Twin
      reads this
    {
      Twin(positions, velocities, targets, currents, uptimeMs, state, commandVelocityLimit, commandAccelerationLimit)
    }

    predicate Valid()
      reads this
    {
      Shaped(model, View())
    }

    constructor (model: GoodModel, supplyMv: int := 6000)
      requires 1 <= supplyMv <= 65535
      ensures Valid() && this.model == model && this.supplyMv == supplyMv && View() == AtHome(model)
    {
      this.model, this.supplyMv := model, supplyMv;
      positions, targets := model.Home(), model.Home();
      velocities := Uniform(model, 0.0);
      currents := Uniform(model, 80);
      uptimeMs, state := 0, Idle;
      commandVelocityLimit, commandAccelerationLimit := model.StrictestVelocity(), model.StrictestAcceleration();
    }

    method Accept(command: MotionCommand) returns (r: Result<(), TwinError>)
      requires Valid()
      modifies this
      ensures Valid()
      ensures match Accepted(model, old(View()), command)
              case Ok(t) => r == Ok(()) && View() == t
              case Err(e) => r == Err(e) && View() == old(View())
    {
      var updated := Retarget(model, targets, command.targets);
      if updated.Err? {
        return Err(updated.error);
      }
      if !model.WithinLimits(updated.value) {
        return Err(OutsideModel);
      }
      targets := updated.value;
      commandVelocityLimit := Degrees(command.maxVelocity);
      commandAccelerationLimit := Degrees(command.maxAcceleration);
      state := Executing;
      return Ok(());
    }

    method Estop()
      requires Valid()
      modifies this
      ensures Valid() && View() == Stopped(model, old(View()))
    {
      targets := positions;
      velocities := Uniform(model, 0.0);
      state := EmergencyStopped;
    }

    method ResetEstop()
      requires Valid()
      modifies this
      ensures Valid() && View() == Restarted(old(View()))
    {
      if state.EmergencyStopped? {
        state := Idle;
      }
    }

    method Report(flags: int) returns (report: RobotTelemetry)
      requires Valid()
      ensures report == Reported(model, View(), supplyMv, flags)
    {
      var joints: seq<JointReport> := [];
      ghost var whole := Reported(model, View(), supplyMv, flags).joints;
      for i := 0 to |model.names|
        invariant joints == whole[..i]
      {
        var name := model.names[i];
        assert name in model.names;
        assert whole[i] == ReportOf(model, View(), name);
        joints := joints + [JointReport(model.joints[name].protocolId, RoundHalfEven(positions[name] * 100.0),
                                        RoundHalfEven(velocities[name] * 100.0), currents[name])];
      }
      report := RobotTelemetry(uptimeMs, state, flags, supplyMv, joints);
    }

    method Step(dt: real, root: real -> real) returns (r: Result<Twin, TwinError>)
      requires Valid()
      modifies this
      ensures Valid()
      ensures dt <= 0.0 ==> r == Err(BadStep) && View() == old(View())
      ensures dt > 0.0 ==> View() == Stepped(model, old(View()), dt, ServoLaw(root)) && r == Ok(View())
    {
      if dt <= 0.0 {
        return Err(BadStep);
      }
      ghost var before := View();
      uptimeMs := Elapsed(uptimeMs, dt);
      if state.EmergencyStopped? {
        currents := Uniform(model, 60);
        return Ok(View());
      }
      ClockDoesNotMatter(model, before, dt, ServoLaw(root), uptimeMs);
      StepMoving(dt, ServoLaw(root));
      return Ok(View());
    }

    /** The part of a step that an emergency stop skips. */
    method StepMoving(dt: real, law: ControlLaw)
      requires Valid()
      modifies this
      ensures Valid() && View() == Moved(old(View()), AllSteps(model, old(View()), dt, law), old(uptimeMs), model.names)
    {
      ghost var before := View();
      var moving := MoveAll(dt, law);
      ghost var moved := View();
      LoopDone(model, before, moved, dt, law, moving);
      state := if moving then Executing else Idle;
      assert View() == moved.(state := state);
    }

    /** The loop over the joints. */
    method MoveAll(dt: real, law: ControlLaw) returns (moving: bool)
      requires Valid()
      modifies this
      ensures var steps := AllSteps(model, old(View()), dt, law);
        && View() == Halfway(old(View()), steps, model.names[..|model.names|])
        && moving == AnyMoving(steps, model.names[..|model.names|])
    {
      ghost var before := View();
      ghost var steps := AllSteps(model, before, dt, law);
      NothingMoved(before, steps, model.names);
      moving := false;
      for i := 0 to |model.names|
        invariant View() == Halfway(before, steps, model.names[..i])
        invariant moving == AnyMoving(steps, model.names[..i])
      {
        var name := model.names[i];
        LoopBody(model, before, View(), dt, law, i);
        var moves := MoveJoint(name, dt, law);
        moving := moving || moves;
      }
    }

    /** The body of the loop. */
    method MoveJoint(name: string, dt: real, law: ControlLaw) returns (moves: bool)
      requires Valid() && name in model.joints
      modifies this
      ensures var step := JointStep(model, old(View()), dt, law, name);
        && moves == step.moving
        && View() == WithJoint(old(View()), name, step)
    {
      var limits := LimitsOf(model.joints[name], commandVelocityLimit, commandAccelerationLimit, dt);
      var step := law(Axis(positions[name], velocities[name]), targets[name], limits);
      positions := positions[name := step.axis.position];
      velocities := velocities[name := step.axis.velocity];
      currents := currents[name := step.currentMa];
      moves := step.moving;
    }
  }

  function WithJoint(t: Twin, name: string, step: AxisStep): Twin {
    t.(positions := t.positions[name := step.axis.position], velocities := t.velocities[name := step.axis.velocity],
       currents := t.currents[name := step.currentMa])
  }

  lemma StepsAreShaped(model: Model, t: Twin, dt: real, law: ControlLaw)
    requires Shaped(model, t)
    ensures var steps := AllSteps(model, t, dt, law);
      Positions(steps).Keys == Velocities(steps).Keys == Currents(steps).Keys == steps.Keys == model.joints.Keys
  {
  }

  /** Only these joints have been moved so far. */
  function Halfway(t: Twin, steps: map<string, AxisStep>, done: seq<string>): Twin
    requires t.positions.Keys == t.velocities.Keys == t.currents.Keys == steps.Keys
  {
    t.(positions := Overlaid(t.positions, Positions(steps), done),
       velocities := Overlaid(t.velocities, Velocities(steps), done),
       currents := Overlaid(t.currents, Currents(steps), done))
  }

  lemma ClockDoesNotMatter(model: Model, t: Twin, dt: real, law: ControlLaw, uptimeMs: int)
    requires Shaped(model, t)
    ensures AllSteps(model, t.(uptimeMs := uptimeMs), dt, law) == AllSteps(model, t, dt, law)
  {
  }

  lemma NothingMoved(t: Twin, steps: map<string, AxisStep>, names: seq<string>)
    requires t.positions.Keys == t.velocities.Keys == t.currents.Keys == steps.Keys
    ensures Halfway(t, steps, names[..0]) == t && !AnyMoving(steps, names[..0])
  {
  }

  /** One pass of the loop takes the joints moved so far one further. */
  lemma LoopBody(model: GoodModel, t: Twin, u: Twin, dt: real, law: ControlLaw, i: nat)
    requires Shaped(model, t) && i < |model.names| && u == Halfway(t, AllSteps(model, t, dt, law), model.names[..i])
    ensures Shaped(model, u) && model.names[i] in model.joints
    ensures var steps, step := AllSteps(model, t, dt, law), JointStep(model, u, dt, law, model.names[i]);
      && WithJoint(u, model.names[i], step) == Halfway(t, steps, model.names[..i + 1])
      && (AnyMoving(steps, model.names[..i + 1]) <==> AnyMoving(steps, model.names[..i]) || step.moving)
  {
    NextName(model, i);
    NotYetMoved(model, t, dt, law, model.names[..i], model.names[i]);
    HalfwayOne(t, AllSteps(model, t, dt, law), model.names, i);
  }

  /** The end of the loop and the new state make up the step. */
  lemma LoopDone(model: Model, t: Twin, u: Twin, dt: real, law: ControlLaw, moving: bool)
    requires Shaped(model, t) && forall n :: n in model.joints ==> n in model.names
    requires var steps := AllSteps(model, t, dt, law);
      && u == Halfway(t, steps, model.names[..|model.names|])
      && moving == AnyMoving(steps, model.names[..|model.names|])
    ensures u.(state := if moving then Executing else Idle)
         == Moved(t, AllSteps(model, t, dt, law), t.uptimeMs, model.names)
    ensures Shaped(model, u.(state := if moving then Executing else Idle))
  {
    var names := model.names;
    HalfwayEnds(t, AllSteps(model, t, dt, law), names);
    StepsAreShaped(model, t, dt, law);
    assert names[..|names|] == names;
  }

  lemma NextName(model: GoodModel, i: nat)
    requires i < |model.names|
    ensures model.names[i] in model.joints && model.names[i] !in model.names[..i]
  {
    assert model.names[i] in model.names;
  }

  lemma HalfwayEnds(t: Twin, steps: map<string, AxisStep>, names: seq<string>)
    requires t.positions.Keys == t.velocities.Keys == t.currents.Keys == steps.Keys
    requires forall n :: n in steps ==> n in names
    ensures Halfway(t, steps, names[..0]) == t
    ensures Halfway(t, steps, names[..|names|])
         == t.(positions := Positions(steps), velocities := Velocities(steps), currents := Currents(steps))
  {
    OverlayEnds(t.positions, Positions(steps), names);
    OverlayEnds(t.velocities, Velocities(steps), names);
    OverlayEnds(t.currents, Currents(steps), names);
  }

  lemma NotYetMoved(model: Model, t: Twin, dt: real, law: ControlLaw, done: seq<string>, name: string)
    requires Shaped(model, t) && name in model.joints && name !in done
    ensures var half := Halfway(t, AllSteps(model, t, dt, law), done);
      Shaped(model, half) && JointStep(model, half, dt, law, name) == JointStep(model, t, dt, law, name)
  {
  }

  lemma HalfwayOne(t: Twin, steps: map<string, AxisStep>, names: seq<string>, i: nat)
    requires t.positions.Keys == t.velocities.Keys == t.currents.Keys == steps.Keys
    requires i < |names| && names[i] in steps
    ensures WithJoint(Halfway(t, steps, names[..i]), names[i], steps[names[i]]) == Halfway(t, steps, names[..i + 1])
    ensures AnyMoving(steps, names[..i + 1]) <==> AnyMoving(steps, names[..i]) || steps[names[i]].moving
  {
    OverlayOne(t.positions, Positions(steps), names, i);
    OverlayOne(t.velocities, Velocities(steps), names, i);
    OverlayOne(t.currents, Currents(steps), names, i);
    assert names[..i + 1][..i] == names[..i];
  }

  lemma RetargetOne(model: Model, targets: Joints, commanded: seq<JointTarget>, i: nat)
    requires model.Identified() && i < |commanded| && Retargeted(model, targets, commanded[..i]).Ok?
    ensures var r := Retargeted(model, targets, commanded[..i + 1]);
      match NameOf(model, commanded[i].jointId)
      case None => r == Err(UnknownJoint) && Retargeted(model, targets, commanded) == r
      case Some(name) =>
        r == Ok(Retargeted(model, targets, commanded[..i]).value[name := Degrees(commanded[i].targetCdeg)])
  {
    assert commanded[..i + 1][..i] == commanded[..i];
    if NameOf(model, commanded[i].jointId).None? {
      ErrorStays(model, targets, commanded, i + 1);
    }
  }

  lemma {:induction false} ErrorStays(model: Model, targets: Joints, commanded: seq<JointTarget>, i: nat)
    requires model.Identified() && i <= |commanded| && Retargeted(model, targets, commanded[..i]).Err?
    ensures Retargeted(model, targets, commanded) == Retargeted(model, targets, commanded[..i])
  {
    if i == |commanded| {
      assert commanded[..i] == commanded;
    } else {
      var before := commanded[..|commanded| - 1];
      assert before[..i] == commanded[..i];
      ErrorStays(model, targets, before, i);
    }
  }
}
