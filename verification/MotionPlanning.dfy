/** From a planned trajectory to the safety kernel: what the simulation supervisor says of a planned motion. */
module MotionPlanning {
  import opened Bytes
  import opened Numbers
  import opened RobotModel
  import opened Trajectory
  import opened TrajectoryBounds
  import opened Lifecycle
  import opened Eligibility
  import opened Dynamics
  import opened Supervisor

  function Nums(joints: Joints): map<string, Num> {
    map n | n in joints :: Fin(joints[n])
  }

  /** The verified-by-construction envelope of the simulation; `box` is the workspace estimate. */
  function SimulationEnvelope(model: Model, box: WorkspaceBounds): Envelope
    requires model.Valid()
  {
    EnvelopeWith(model.joints, box, model.StrictestVelocity(), model.StrictestAcceleration())
  }

  function EnvelopeWith(joints: map<string, JointSpec>, box: WorkspaceBounds, v: real, a: real): Envelope {
    Envelope(map n | n in joints :: ConstraintFor(joints[n]), box, {Armed}, true, true,
             Some(MotionPolicy(Fin(250.0), Fin(500.0), Fin(v), Fin(a))))
  }

  function ConstraintFor(joint: JointSpec): JointConstraint {
    JointConstraint(Some(Fin(joint.lowerDeg)), Some(Fin(joint.upperDeg)), Some(Fin(joint.homeDeg)), true)
  }

  /** The safety inputs a plan hands over: its goal, and the rates of its last sample. */
  function TerminalCandidate(target: Joints, pose: Point, state: SystemState, estopActive: bool): Candidate {
    Candidate(state, estopActive, Nums(target), Some(pose))
  }

  function TerminalDynamics(plan: JointTrajectory, commandAgeMs: Num, heartbeatAgeMs: Num): MotionDynamics
    requires plan.samples != []
  {
    var end := plan.samples[|plan.samples| - 1];
    MotionDynamics(commandAgeMs, heartbeatAgeMs, Nums(end.velocities), Nums(end.accelerations))
  }

  /** An accepted plan: within limits at both ends, of a duration the generator accepts. */
  predicate AcceptedPlan(model: Model, start: Joints, target: Joints, root: real -> real, d: real, steps: nat) {
    && model.Valid() && model.WithinLimits(start) && model.WithinLimits(target)
    && d + SLACK >= Minimum(model, start, target, root) && d > 0.0 && steps > 0
  }

  lemma LastSample(model: Model, start: Joints, target: Joints, root: real -> real, d: real, steps: nat)
    requires AcceptedPlan(model, start, target, root, d, steps)
    ensures var plan := Planned(start, target, d, steps);
      && |plan.samples| == steps + 1
      && plan.samples[steps].velocities.Keys == plan.samples[steps].accelerations.Keys == model.joints.Keys
  {
  }

  lemma RatesAreBounded(c: Candidate, rates: Joints, limit: real)
    requires forall n :: n in c.targets ==> n in rates && Abs(rates[n]) < limit
    ensures Bounded(c, Nums(rates), Fin(limit))
  {
  }

  /** The rate checks never reject the last sample of an accepted plan. */
  lemma PlansPassRateChecks(model: Model, start: Joints, target: Joints, root: real -> real, d: real, steps: nat,
                            c: Candidate)
    requires AcceptedPlan(model, start, target, root, d, steps) && IsRoot(root) && c.targets == Nums(target)
    ensures var end := Planned(start, target, d, steps).samples[steps];
      && Bounded(c, Nums(end.velocities), Fin(model.StrictestVelocity()))
      && Bounded(c, Nums(end.accelerations), Fin(model.StrictestAcceleration()))
  {
    LastSample(model, start, target, root, d, steps);
    var end := Planned(start, target, d, steps).samples[steps];
    forall n | n in target
      ensures Abs(end.velocities[n]) < model.StrictestVelocity()
      ensures Abs(end.accelerations[n]) < model.StrictestAcceleration()
    {
      TrajectoryWithinLimits(model, start, target, root, d, steps, steps, n);
    }
    RatesAreBounded(c, end.velocities, model.StrictestVelocity());
    RatesAreBounded(c, end.accelerations, model.StrictestAcceleration());
  }

  /** Ordered limits that the goal respects. */
  predicate GoalFits(joints: map<string, JointSpec>, target: Joints) {
    && target.Keys == joints.Keys
    && forall n :: n in joints ==>
         && joints[n].lowerDeg < joints[n].homeDeg < joints[n].upperDeg
         && joints[n].lowerDeg <= target[n] <= joints[n].upperDeg
  }

  lemma LimitsAreConstraints(model: Model, target: Joints)
    requires model.Valid() && model.WithinLimits(target)
    ensures GoalFits(model.joints, target)
    ensures target != map[]
  {
    assert model.names[0] in model.joints;
  }

  lemma GoalIsPermitted(joints: map<string, JointSpec>, target: Joints, pose: Point, box: WorkspaceBounds, v: real,
                        a: real)
    requires GoalFits(joints, target) && target != map[]
    ensures Permitted(EnvelopeWith(joints, box, v, a), TerminalCandidate(target, pose, Armed, false))
       <==> box.Contains(pose)
  {
    var c := TerminalCandidate(target, pose, Armed, false);
    var n :| n in target;
    assert n in c.targets;
  }

  lemma PolicyIsMet(joints: map<string, JointSpec>, c: Candidate, d: MotionDynamics, box: WorkspaceBounds, v: real,
                    a: real)
    requires v > 0.0 && a > 0.0 && d.commandAgeMs == Fin(0.0) && d.heartbeatAgeMs == Fin(10.0)
    requires d.velocities.Keys == d.accelerations.Keys == joints.Keys
    requires Bounded(c, d.velocities, Fin(v)) && Bounded(c, d.accelerations, Fin(a))
    ensures var e := EnvelopeWith(joints, box, v, a);
      e.policy.value.Valid() && WithinPolicy(e, e.policy.value, c, d)
  {
  }

  /** In the simulation a planned motion is authorized unless the lifecycle or the workspace box is against it. */
  lemma PlannedMotionIsSafe(model: Model, start: Joints, target: Joints, root: real -> real, d: real, steps: nat,
                            pose: Point, box: WorkspaceBounds, s: Snapshot)
    requires AcceptedPlan(model, start, target, root, d, steps) && IsRoot(root)
    ensures Safe(s, SimulationEnvelope(model, box), TerminalCandidate(target, pose, Armed, false),
                 TerminalDynamics(Planned(start, target, d, steps), Fin(0.0), Fin(10.0)))
       <==> !s.latched && s.armed && box.Contains(pose)
  {
    var c := TerminalCandidate(target, pose, Armed, false);
    var plan := Planned(start, target, d, steps);
    LastSample(model, start, target, root, d, steps);
    PlansPassRateChecks(model, start, target, root, d, steps, c);
    LimitsAreConstraints(model, target);
    Verdict(model.joints, target, plan, pose, box, model.StrictestVelocity(), model.StrictestAcceleration(), s);
  }

  lemma Verdict(joints: map<string, JointSpec>, target: Joints, plan: JointTrajectory, pose: Point,
                box: WorkspaceBounds,
                v: real, a: real, s: Snapshot)
    requires GoalFits(joints, target) && target != map[] && v > 0.0 && a > 0.0 && plan.samples != []
    requires var d := TerminalDynamics(plan, Fin(0.0), Fin(10.0));
             var c := TerminalCandidate(target, pose, Armed, false);
      && d.velocities.Keys == d.accelerations.Keys == joints.Keys
      && Bounded(c, d.velocities, Fin(v)) && Bounded(c, d.accelerations, Fin(a))
    ensures Safe(s, EnvelopeWith(joints, box, v, a), TerminalCandidate(target, pose, Armed, false),
                 TerminalDynamics(plan, Fin(0.0), Fin(10.0)))
       <==> !s.latched && s.armed && box.Contains(pose)
  {
    GoalIsPermitted(joints, target, pose, box, v, a);
    PolicyIsMet(joints, TerminalCandidate(target, pose, Armed, false), TerminalDynamics(plan, Fin(0.0), Fin(10.0)),
                box, v, a);
  }
}
