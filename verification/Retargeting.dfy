/** Commands to a moving twin: exactly when none of its joints leaves its limits. */
module Retargeting {
  import opened RobotModel
  import opened Servo
  import opened Messages
  import opened DigitalTwin
  import opened TwinRuns
  import opened Overrun

  /** However long it is stepped, the twin keeps its joint limits. */
  ghost predicate KeepsLimits(model: Model, t: Twin, dt: real, root: real -> real) {
    forall run: seq<Twin>, k: nat :: Run(model, run, dt, ServoLaw(root)) && k < |run| && run[0] == t ==>
      model.WithinLimits(run[k].positions)
  }

  /** The farthest position that joint n will visit is within its limits. */
  predicate ReachesInside(model: Model, t: Twin, dt: real, n: string)
    requires Shaped(model, t) && n in model.joints && LimitsFor(model, t, dt, n).MaxDelta() > 0.0
  {
    var farthest := Farthest(AxisOf(t, n), t.targets[n], LimitsFor(model, t, dt, n));
    Inside(model.joints[n].lowerDeg, farthest, model.joints[n].upperDeg)
  }

  /** Joint n on its own keeps its limits. */
  ghost predicate JointKeeps(model: Model, t: Twin, dt: real, root: real -> real, n: string)
    requires Shaped(model, t) && n in model.joints
  {
    StaysInside(AxisOf(t, n), t.targets[n], LimitsFor(model, t, dt, n), root,
                model.joints[n].lowerDeg, model.joints[n].upperDeg)
  }

  // ---- Runs of every length exist

  lemma {:induction false} RunExists(model: Model, t: Twin, dt: real, law: ControlLaw, k: nat) returns (run: seq<Twin>)
    requires model.Valid() && Shaped(model, t)
    ensures Run(model, run, dt, law) && |run| == k + 1 && run[0] == t
  {
    if k == 0 {
      run := [t];
    } else {
      var before := RunExists(model, t, dt, law, k - 1);
      OrdersKept(model, before, dt, law, k - 1);
      SteppedIsStep(model, before[k - 1], dt, law);
      run := before + [Stepped(model, before[k - 1], dt, law)];
      RunGrows(model, before, run[k], dt, law);
    }
  }

  lemma RunGrows(model: Model, before: seq<Twin>, u: Twin, dt: real, law: ControlLaw)
    requires Run(model, before, dt, law) && StepTo(model, before[|before| - 1], u, dt, law)
    ensures Run(model, before + [u], dt, law)
  {
    var run := before + [u];
    forall i | 0 <= i < |run| - 1
      ensures StepAt(model, run, dt, law, i)
    {
      if i < |before| - 1 {
        assert StepAt(model, before, dt, law, i);
      }
    }
  }

  // ---- Joint by joint

  lemma JointsDecide(model: Model, t: Twin, dt: real, root: real -> real)
    requires model.Valid() && Shaped(model, t) && !t.state.EmergencyStopped?
    ensures KeepsLimits(model, t, dt, root) <==> forall n :: n in model.joints ==> JointKeeps(model, t, dt, root, n)
  {
    if KeepsLimits(model, t, dt, root) {
      forall n | n in model.joints
        ensures JointKeeps(model, t, dt, root, n)
      {
        TwinThenJoint(model, t, dt, root, n);
      }
    }
    if forall n :: n in model.joints ==> JointKeeps(model, t, dt, root, n) {
      forall run: seq<Twin>, k: nat | Run(model, run, dt, ServoLaw(root)) && k < |run| && run[0] == t
        ensures model.WithinLimits(run[k].positions)
      {
        JointsThenTwin(model, run, dt, root, k);
      }
    }
  }

  lemma TwinThenJoint(model: Model, t: Twin, dt: real, root: real -> real, n: string)
    requires model.Valid() && Shaped(model, t) && !t.state.EmergencyStopped? && n in model.joints
    requires KeepsLimits(model, t, dt, root)
    ensures JointKeeps(model, t, dt, root, n)
  {
    forall k: nat
      ensures Inside(model.joints[n].lowerDeg,
                     Along(ServoLaw(root), AxisOf(t, n), t.targets[n], LimitsFor(model, t, dt, n), k).position,
                     model.joints[n].upperDeg)
    {
      var run := RunExists(model, t, dt, ServoLaw(root), k);
      JointsAreIndependent(model, run, dt, ServoLaw(root), k, n);
      assert model.WithinLimits(run[k].positions);
    }
  }

  lemma JointsThenTwin(model: Model, run: seq<Twin>, dt: real, root: real -> real, k: nat)
    requires Run(model, run, dt, ServoLaw(root)) && k < |run| && !run[0].state.EmergencyStopped?
    requires forall n :: n in model.joints ==> JointKeeps(model, run[0], dt, root, n)
    ensures model.WithinLimits(run[k].positions)
  {
    OrdersKept(model, run, dt, ServoLaw(root), k);
    forall n | n in model.joints
      ensures model.joints[n].lowerDeg <= run[k].positions[n] <= model.joints[n].upperDeg
    {
      JointsAreIndependent(model, run, dt, ServoLaw(root), k, n);
      assert JointKeeps(model, run[0], dt, root, n);
      assert Inside(model.joints[n].lowerDeg,
                    Along(ServoLaw(root), AxisOf(run[0], n), run[0].targets[n],
                          LimitsFor(model, run[0], dt, n), k).position,
                    model.joints[n].upperDeg);
    }
  }

  lemma JointExactly(model: Model, t: Twin, dt: real, root: real -> real, n: string)
    requires Sturdy(model, t) && IsRoot(root) && dt > 0.0 && model.WithinLimits(t.targets) && n in model.joints
    ensures LimitsFor(model, t, dt, n).MaxDelta() > 0.0
    ensures JointKeeps(model, t, dt, root, n) <==> ReachesInside(model, t, dt, n)
  {
    LimitsAreValid(model, t, dt, n);
    StaysInsideExactly(AxisOf(t, n), t.targets[n], LimitsFor(model, t, dt, n), root,
                       model.joints[n].lowerDeg, model.joints[n].upperDeg);
  }

  /**
   Whatever its speed, a twin with targets within the limits never leaves them if and only if for every joint the
   farthest position it will visit - a finite sum over its present distance and speed - is within them.
   */
  lemma KeepsLimitsExactly(model: Model, t: Twin, dt: real, root: real -> real)
    requires Sturdy(model, t) && IsRoot(root) && dt > 0.0 && model.WithinLimits(t.targets) && !t.state.EmergencyStopped?
    ensures forall n :: n in model.joints ==> LimitsFor(model, t, dt, n).MaxDelta() > 0.0
    ensures KeepsLimits(model, t, dt, root) <==> forall n :: n in model.joints ==> ReachesInside(model, t, dt, n)
  {
    JointsDecide(model, t, dt, root);
    forall n | n in model.joints
      ensures LimitsFor(model, t, dt, n).MaxDelta() > 0.0
      ensures JointKeeps(model, t, dt, root, n) <==> ReachesInside(model, t, dt, n)
    {
      JointExactly(model, t, dt, root, n);
    }
  }

  lemma AcceptedIsSturdy(model: Model, t: Twin, c: MotionCommand)
    requires model.Valid() && Shaped(model, t) && Accepted(model, t, c).Ok?
    requires c.maxVelocity > 0 && c.maxAcceleration > 0
    ensures var u := Accepted(model, t, c).value;
      Sturdy(model, u) && model.WithinLimits(u.targets) && !u.state.EmergencyStopped?
  {
  }

  /** So accepting a command is harmless, however the twin is moving, exactly if no joint overruns its limits. */
  lemma AcceptIsSafeExactly(model: Model, t: Twin, c: MotionCommand, dt: real, root: real -> real)
    requires model.Valid() && Shaped(model, t) && IsRoot(root) && dt > 0.0
    requires c.maxVelocity > 0 && c.maxAcceleration > 0 && Accepted(model, t, c).Ok?
    ensures var u := Accepted(model, t, c).value;
      && Shaped(model, u) && (forall n :: n in model.joints ==> LimitsFor(model, u, dt, n).MaxDelta() > 0.0)
      && (KeepsLimits(model, u, dt, root) <==> forall n :: n in model.joints ==> ReachesInside(model, u, dt, n))
  {
    AcceptedIsSturdy(model, t, c);
    KeepsLimitsExactly(model, Accepted(model, t, c).value, dt, root);
  }
}
