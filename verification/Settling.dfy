/** The loop that steps the reference arm until it is idle, and why 1251 steps are always enough. */
module Settling {
  import opened RobotModel
  import opened Servo
  import opened DigitalTwin
  import opened TwinRuns
  import opened ReferenceArm

  const MAX_STEPS: nat := 5000
  const ENOUGH_STEPS: nat := 1251

  predicate ReadyToMove(t: Twin) {
    && Shaped(REFERENCE, t) && t.state.Executing? && AtRest(t) && InHull(t.positions) && InHull(t.targets)
    && t.velocityLimit == 35.0 && t.accelerationLimit == 90.0
  }

  lemma ReadyIsEnough(t: Twin)
    requires ReadyToMove(t)
    ensures Sturdy(REFERENCE, t) && EnoughSteps(REFERENCE, t, STEP, ENOUGH_STEPS - 1)
  {
    ReferenceIsValid();
    GripperIsSlowest();
    forall n | n in REFERENCE.joints
      ensures Covers(1250, LimitsFor(REFERENCE, t, STEP, n), Abs(t.targets[n] - t.positions[n]))
    {
      StrideOfReference(REFERENCE.joints[n]);
      HullIsNarrow(n, t.targets[n], t.positions[n]);
      CoversLess(1250, LimitsFor(REFERENCE, t, STEP, n), 45.0, Abs(t.targets[n] - t.positions[n]));
    }
  }

  lemma CoversLess(k: nat, limits: Limits, far: real, near: real)
    requires Covers(k, limits, far) && near <= far
    ensures Covers(k, limits, near)
  {
  }

  /** After 1251 steps at the latest the twin is idle. */
  lemma IdleInTime(run: seq<Twin>, root: real -> real)
    requires Run(REFERENCE, run, STEP, ServoLaw(root)) && IsRoot(root) && ReadyToMove(run[0])
    ensures |run| == ENOUGH_STEPS + 1 ==> run[ENOUGH_STEPS].state.Idle?
  {
    if |run| == ENOUGH_STEPS + 1 {
      ReadyIsEnough(run[0]);
      TwinSettles(REFERENCE, run, STEP, root, ENOUGH_STEPS - 1);
    }
  }

  lemma Extended(run: seq<Twin>, u: Twin, root: real -> real)
    requires Run(REFERENCE, run, STEP, ServoLaw(root)) && StepTo(REFERENCE, run[|run| - 1], u, STEP, ServoLaw(root))
    ensures Run(REFERENCE, run + [u], STEP, ServoLaw(root))
  {
    var more := run + [u];
    forall i | 0 <= i < |more| - 1
      ensures StepAt(REFERENCE, more, STEP, ServoLaw(root), i)
    {
      assert more[i] == run[i];
      if i < |run| - 1 {
        assert StepAt(REFERENCE, run, STEP, ServoLaw(root), i);
      }
    }
  }

  /** The next state continues the run, and is settled if it is idle. */
  lemma Continues(run: seq<Twin>, root: real -> real)
    requires Run(REFERENCE, run, STEP, ServoLaw(root)) && run[0].state.Executing?
    ensures Shaped(REFERENCE, run[|run| - 1])
    ensures var u := Stepped(REFERENCE, run[|run| - 1], STEP, ServoLaw(root));
      && Run(REFERENCE, run + [u], STEP, ServoLaw(root))
      && SameOrders(REFERENCE, run[0], u) && (u.state.Idle? ==> Settled(u))
  {
    var t := run[|run| - 1];
    OrdersKept(REFERENCE, run, STEP, ServoLaw(root), |run| - 1);
    ReferenceIsValid();
    SteppedIsStep(REFERENCE, t, STEP, ServoLaw(root));
    var u := Stepped(REFERENCE, t, STEP, ServoLaw(root));
    Extended(run, u, root);
    ServoStopsOnTarget(root);
    if u.state.Idle? {
      IdleMeansSettled(REFERENCE, t, u, STEP, ServoLaw(root));
    }
  }

  predicate ClockFits(uptimeMs: int) {
    0 <= uptimeMs <= MAX_UPTIME
  }

  /** Simulated currents are between 0 and 1200 mA. */
  predicate CurrentsFit(currents: map<string, int>) {
    forall n :: n in currents ==> 0 <= currents[n] <= 1200
  }

  lemma AxisCurrentInRange(a: Axis, target: real, limits: Limits, root: real -> real)
    ensures 0 <= StepAxis(a, target, limits, root).currentMa <= 1200
  {
  }

  lemma CurrentsStayInRange(t: Twin, root: real -> real)
    requires Shaped(REFERENCE, t) && !t.state.EmergencyStopped?
    ensures CurrentsFit(Stepped(REFERENCE, t, STEP, ServoLaw(root)).currents)
  {
    forall n | n in REFERENCE.joints
      ensures 0 <= JointStep(REFERENCE, t, STEP, ServoLaw(root), n).currentMa <= 1200
    {
      LawIsStep(AxisOf(t, n), t.targets[n], LimitsFor(REFERENCE, t, STEP, n), root);
      AxisCurrentInRange(AxisOf(t, n), t.targets[n], LimitsFor(REFERENCE, t, STEP, n), root);
    }
  }

  lemma ClockStaysInRange(uptimeMs: int)
    requires ClockFits(uptimeMs)
    ensures ClockFits(Elapsed(uptimeMs, STEP))
  {
    assert RoundHalfEven(20.0) == 20;
  }

  /** The loop so far: `run` leads from start to t in this many steps, and t is settled if it is idle. */
  ghost predicate OnTheWay(start: Twin, run: seq<Twin>, steps: nat, t: Twin, root: real -> real) {
    && Run(REFERENCE, run, STEP, ServoLaw(root)) && run[0] == start && |run| == steps + 1 && run[steps] == t
    && steps <= ENOUGH_STEPS && (steps == ENOUGH_STEPS ==> t.state.Idle?)
    && SameOrders(REFERENCE, start, t) && (steps > 0 && t.state.Idle? ==> Settled(t))
    && ClockFits(t.uptimeMs) && CurrentsFit(t.currents)
  }

  lemma OneStepFurther(start: Twin, run: seq<Twin>, steps: nat, t: Twin, root: real -> real)
    requires OnTheWay(start, run, steps, t, root) && !t.state.Idle? && ReadyToMove(start) && IsRoot(root)
    ensures steps < ENOUGH_STEPS
    ensures var u := Stepped(REFERENCE, t, STEP, ServoLaw(root));
      OnTheWay(start, run + [u], steps + 1, u, root)
  {
    Continues(run, root);
    ClockStaysInRange(t.uptimeMs);
    CurrentsStayInRange(t, root);
    var u := Stepped(REFERENCE, t, STEP, ServoLaw(root));
    IdleInTime(run + [u], root);
  }

  /** Steps the twin until it is idle: within 1251 steps, at rest on its targets. */
  method Settle(twin: DigitalTwinRobot, root: real -> real) returns (steps: nat)
    requires twin.Valid() && twin.model == REFERENCE && IsRoot(root) && ReadyToMove(twin.View())
    requires ClockFits(twin.uptimeMs) && CurrentsFit(twin.currents)
    modifies twin
    ensures twin.Valid() && ClockFits(twin.uptimeMs) && CurrentsFit(twin.currents) && 0 < steps <= ENOUGH_STEPS
    ensures twin.state.Idle? && Settled(twin.View()) && SameOrders(REFERENCE, old(twin.View()), twin.View())
  {
    steps := 0;
    ghost var start := twin.View();
    ghost var run := [start];
    while !twin.state.Idle? && steps < MAX_STEPS
      invariant twin.Valid() && OnTheWay(start, run, steps, twin.View(), root)
      decreases MAX_STEPS - steps
    {
      OneStepFurther(start, run, steps, twin.View(), root);
      var stepped := twin.Step(STEP, root);
      steps := steps + 1;
      run := run + [twin.View()];
    }
  }
}
