/** Runs of the digital twin: it settles on its targets without leaving the joint limits. */
module TwinRuns {
  import opened RobotModel
  import opened Servo
  import opened Messages
  import opened DigitalTwin

  /** A twin that can be stepped: the model's joints, and positive limits. */
  predicate Sturdy(model: Model, t: Twin) {
    model.Valid() && Shaped(model, t) && t.velocityLimit > 0.0 && t.accelerationLimit > 0.0
  }

  predicate AtRest(t: Twin) {
    forall n :: n in t.velocities ==> t.velocities[n] == 0.0
  }

  /** At rest, exactly on target. */
  predicate Settled(t: Twin) {
    AtRest(t) && t.positions == t.targets
  }

  // ---- What one step does

  /** What stepping never changes: the joints, the targets, the limits, and whether the twin is stopped. */
  predicate SameOrders(model: Model, t: Twin, u: Twin) {
    && Shaped(model, u) && u.targets == t.targets
    && u.velocityLimit == t.velocityLimit && u.accelerationLimit == t.accelerationLimit
    && (u.state.EmergencyStopped? <==> t.state.EmergencyStopped?)
  }

  predicate JointMoved(model: Model, t: Twin, u: Twin, dt: real, law: ControlLaw, n: string)
    requires Shaped(model, t) && Shaped(model, u) && n in model.joints
  {
    AxisOf(u, n) == JointStep(model, t, dt, law, n).axis
  }

  predicate Still(model: Model, t: Twin, dt: real, law: ControlLaw)
    requires Shaped(model, t)
  {
    forall n :: n in model.joints ==> !JointStep(model, t, dt, law, n).moving
  }

  /** u is t one step later, clock and currents aside. */
  predicate StepTo(model: Model, t: Twin, u: Twin, dt: real, law: ControlLaw) {
    && Shaped(model, t) && SameOrders(model, t, u)
    && (t.state.EmergencyStopped? ==> u.positions == t.positions && u.velocities == t.velocities)
    && (!t.state.EmergencyStopped? ==>
          && (forall n :: n in model.joints ==> JointMoved(model, t, u, dt, law, n))
          && u.state == if Still(model, t, dt, law) then Idle else Executing)
  }

  lemma SteppedIsStep(model: Model, t: Twin, dt: real, law: ControlLaw)
    requires Shaped(model, t) && (forall n :: n in model.joints <==> n in model.names)
    ensures StepTo(model, t, Stepped(model, t, dt, law), dt, law)
  {
    var steps := AllSteps(model, t, dt, law);
    NoneMoving(steps, model.names);
    assert forall n :: n in model.joints ==> steps[n] == JointStep(model, t, dt, law, n);
  }

  // ---- Runs

  predicate StepAt(model: Model, run: seq<Twin>, dt: real, law: ControlLaw, i: nat)
    requires i + 1 < |run|
  {
    StepTo(model, run[i], run[i + 1], dt, law)
  }

  predicate Run(model: Model, run: seq<Twin>, dt: real, law: ControlLaw) {
    |run| > 0 && Shaped(model, run[0]) && forall i :: 0 <= i < |run| - 1 ==> StepAt(model, run, dt, law, i)
  }

  lemma {:induction false} OrdersKept(model: Model, run: seq<Twin>, dt: real, law: ControlLaw, k: nat)
    requires Run(model, run, dt, law) && k < |run|
    ensures SameOrders(model, run[0], run[k])
  {
    if k > 0 {
      OrdersKept(model, run, dt, law, k - 1);
      assert StepAt(model, run, dt, law, k - 1);
    }
  }

  /** An emergency-stopped twin does not move, whatever its target. */
  lemma {:induction false} StoppedStays(model: Model, run: seq<Twin>, dt: real, law: ControlLaw, k: nat)
    requires Run(model, run, dt, law) && k < |run| && run[0].state.EmergencyStopped?
    ensures run[k].state.EmergencyStopped?
    ensures run[k].positions == run[0].positions && run[k].velocities == run[0].velocities
  {
    if k > 0 {
      StoppedStays(model, run, dt, law, k - 1);
      assert StepAt(model, run, dt, law, k - 1);
    }
  }

  predicate OnItsOwn(model: Model, run: seq<Twin>, dt: real, law: ControlLaw, k: nat, n: string)
    requires k < |run| && Shaped(model, run[0]) && Shaped(model, run[k]) && n in model.joints
  {
    AxisOf(run[k], n) == Along(law, AxisOf(run[0], n), run[0].targets[n], LimitsFor(model, run[0], dt, n), k)
  }

  /** Joints do not influence each other. */
  lemma {:induction false} JointsAreIndependent(model: Model, run: seq<Twin>, dt: real, law: ControlLaw, k: nat,
                                                n: string)
    requires Run(model, run, dt, law) && k < |run| && n in model.joints && !run[0].state.EmergencyStopped?
    ensures Shaped(model, run[k]) && OnItsOwn(model, run, dt, law, k, n)
  {
    OrdersKept(model, run, dt, law, k);
    if k > 0 {
      OrdersKept(model, run, dt, law, k - 1);
      JointsAreIndependent(model, run, dt, law, k - 1, n);
      OneMoreStep(model, run, dt, law, k, n);
    }
  }

  lemma OneMoreStep(model: Model, run: seq<Twin>, dt: real, law: ControlLaw, k: nat, n: string)
    requires Run(model, run, dt, law) && 0 < k < |run| && n in model.joints && !run[0].state.EmergencyStopped?
    requires SameOrders(model, run[0], run[k - 1]) && SameOrders(model, run[0], run[k])
    requires OnItsOwn(model, run, dt, law, k - 1, n)
    ensures OnItsOwn(model, run, dt, law, k, n)
  {
    assert StepAt(model, run, dt, law, k - 1);
    assert JointMoved(model, run[k - 1], run[k], dt, law, n);
  }

  // ---- Idle means settled

  /** What the servo law does of a joint that is not moving, and of one at rest on its target. */
  ghost predicate StopsOnTarget(law: ControlLaw) {
    && (forall a, target, limits :: !law(a, target, limits).moving ==> Resting(law(a, target, limits).axis, target))
    && (forall a, target, limits :: Resting(a, target) ==> law(a, target, limits) == AxisStep(a, false, 80))
  }

  lemma ServoStopsOnTarget(root: real -> real)
    ensures StopsOnTarget(ServoLaw(root))
  {
    var law := ServoLaw(root);
    forall a: Axis, target: real, limits: Limits
      ensures law(a, target, limits) == StepAxis(a, target, limits, root)
    {
      LawIsStep(a, target, limits, root);
    }
    forall a, target, limits | Resting(a, target)
      ensures law(a, target, limits) == AxisStep(a, false, 80)
    {
      RestingStays(a, target, limits, root);
    }
  }

  /** A step that ends idle leaves every joint at rest, exactly on target. */
  lemma IdleMeansSettled(model: Model, t: Twin, u: Twin, dt: real, law: ControlLaw)
    requires StopsOnTarget(law) && StepTo(model, t, u, dt, law) && u.state.Idle?
    ensures Settled(u)
  {
    assert Still(model, t, dt, law);
    forall n | n in model.joints
      ensures u.positions[n] == u.targets[n] && u.velocities[n] == 0.0
    {
      StillJoint(model, t, u, dt, law, n);
    }
  }

  lemma StillJoint(model: Model, t: Twin, u: Twin, dt: real, law: ControlLaw, n: string)
    requires StopsOnTarget(law) && Shaped(model, t) && Shaped(model, u) && n in model.joints
    requires JointMoved(model, t, u, dt, law, n) && !JointStep(model, t, dt, law, n).moving
    ensures Resting(AxisOf(u, n), t.targets[n])
  {
    assert Resting(JointStep(model, t, dt, law, n).axis, t.targets[n]);
  }

  /** A settled twin is idle after one more step. */
  lemma SettledIsIdle(model: Model, t: Twin, u: Twin, dt: real, law: ControlLaw)
    requires StopsOnTarget(law) && StepTo(model, t, u, dt, law) && !t.state.EmergencyStopped? && Settled(t)
    ensures u.state.Idle?
  {
    forall n | n in model.joints
      ensures !JointStep(model, t, dt, law, n).moving
    {
      assert Resting(AxisOf(t, n), t.targets[n]);
    }
  }

  // ---- From rest

  lemma LimitsAreValid(model: Model, t: Twin, dt: real, n: string)
    requires Sturdy(model, t) && dt > 0.0 && n in model.joints
    ensures LimitsFor(model, t, dt, n).Valid()
  {
  }

  /** From rest, every joint is always between where it started and its target ... */
  lemma StaysBetween(model: Model, run: seq<Twin>, dt: real, root: real -> real, k: nat, n: string)
    requires Run(model, run, dt, ServoLaw(root)) && k < |run| && n in model.joints
    requires Sturdy(model, run[0]) && IsRoot(root) && dt > 0.0 && AtRest(run[0])
    ensures Shaped(model, run[k]) && Between(run[k].positions[n], run[0].positions[n], run[0].targets[n])
  {
    var t := run[0];
    if t.state.EmergencyStopped? {
      OrdersKept(model, run, dt, ServoLaw(root), k);
      StoppedStays(model, run, dt, ServoLaw(root), k);
    } else {
      JointsAreIndependent(model, run, dt, ServoLaw(root), k, n);
      LimitsAreValid(model, t, dt, n);
      StaysOnCourse(AxisOf(t, n), t.targets[n], LimitsFor(model, t, dt, n), root, k);
    }
  }

  /** ... hence within its limits. */
  lemma StaysWithinLimits(model: Model, run: seq<Twin>, dt: real, root: real -> real, k: nat)
    requires Run(model, run, dt, ServoLaw(root)) && k < |run|
    requires Sturdy(model, run[0]) && IsRoot(root) && dt > 0.0 && AtRest(run[0])
    requires model.WithinLimits(run[0].positions) && model.WithinLimits(run[0].targets)
    ensures model.WithinLimits(run[k].positions)
  {
    OrdersKept(model, run, dt, ServoLaw(root), k);
    forall n | n in model.joints
      ensures model.joints[n].lowerDeg <= run[k].positions[n] <= model.joints[n].upperDeg
    {
      StaysBetween(model, run, dt, root, k, n);
    }
  }

  /** k strides are enough for every joint. */
  predicate EnoughSteps(model: Model, t: Twin, dt: real, k: nat)
    requires Shaped(model, t)
  {
    forall n :: n in model.joints ==>
      Covers(k, LimitsFor(model, t, dt, n), Abs(t.targets[n] - t.positions[n]))
  }

  lemma JointSettles(model: Model, run: seq<Twin>, dt: real, root: real -> real, k: nat, n: string)
    requires Run(model, run, dt, ServoLaw(root)) && k < |run| && n in model.joints && IsRoot(root)
    requires LimitsFor(model, run[0], dt, n).Valid() && EnoughSteps(model, run[0], dt, k)
    requires AtRest(run[0]) && !run[0].state.EmergencyStopped?
    ensures Shaped(model, run[k]) && Resting(AxisOf(run[k], n), run[0].targets[n])
  {
    JointsAreIndependent(model, run, dt, ServoLaw(root), k, n);
    Settles(AxisOf(run[0], n), run[0].targets[n], LimitsFor(model, run[0], dt, n), root, k);
  }

  lemma RestThenIdle(model: Model, s: Twin, u: Twin, dt: real, law: ControlLaw)
    requires StopsOnTarget(law) && StepTo(model, s, u, dt, law) && !s.state.EmergencyStopped?
    requires forall n :: n in model.joints ==> Resting(AxisOf(s, n), s.targets[n])
    ensures u.state.Idle? && Settled(u)
  {
    assert forall n :: n in model.joints ==> AxisOf(s, n) == Axis(s.targets[n], 0.0);
    SettledIsIdle(model, s, u, dt, law);
    IdleMeansSettled(model, s, u, dt, law);
  }

  lemma AllRest(model: Model, run: seq<Twin>, dt: real, root: real -> real, k: nat)
    requires Run(model, run, dt, ServoLaw(root)) && k < |run| && IsRoot(root) && dt > 0.0
    requires Sturdy(model, run[0]) && AtRest(run[0]) && !run[0].state.EmergencyStopped?
    requires EnoughSteps(model, run[0], dt, k)
    ensures SameOrders(model, run[0], run[k])
    ensures forall n :: n in model.joints ==> Resting(AxisOf(run[k], n), run[0].targets[n])
  {
    OrdersKept(model, run, dt, ServoLaw(root), k);
    forall n | n in model.joints
      ensures Resting(AxisOf(run[k], n), run[0].targets[n])
    {
      LimitsAreValid(model, run[0], dt, n);
      JointSettles(model, run, dt, root, k, n);
    }
  }

  /** From rest, the twin is idle and exactly on target once every joint had the strides it needs, and one step. */
  lemma TwinSettles(model: Model, run: seq<Twin>, dt: real, root: real -> real, k: nat)
    requires Run(model, run, dt, ServoLaw(root)) && k + 1 < |run| && IsRoot(root) && dt > 0.0
    requires Sturdy(model, run[0]) && AtRest(run[0]) && !run[0].state.EmergencyStopped?
    requires EnoughSteps(model, run[0], dt, k)
    ensures run[k + 1].state.Idle? && Settled(run[k + 1]) && run[k + 1].targets == run[0].targets
  {
    AllRest(model, run, dt, root, k);
    OrdersKept(model, run, dt, ServoLaw(root), k + 1);
    ServoStopsOnTarget(root);
    assert StepAt(model, run, dt, ServoLaw(root), k);
    RestThenIdle(model, run[k], run[k + 1], dt, ServoLaw(root));
  }
}
