/** Runs of the digital twin with commands, stops and resets: how long a stopped twin stays stopped, and where. */
module TwinStops {
  import opened RobotModel
  import opened Servo
  import opened Messages
  import opened DigitalTwin
  import opened TwinRuns

  datatype Event = Command(command: MotionCommand) | Stop | Restart | Tick(dt: real)

  /**
   u is t after the event, clock and currents aside. A refused command and a step that is not positive change nothing.
   */
  predicate StepsTo(model: Model, t: Twin, e: Event, u: Twin, law: ControlLaw)
    requires model.Identified()
  {
    Shaped(model, t) && Shaped(model, u) &&
    match e
    case Command(c) => u == if Accepted(model, t, c).Ok? then Accepted(model, t, c).value else t
    case Stop => u == Stopped(model, t)
    case Restart => u == Restarted(t)
    case Tick(dt) => if dt <= 0.0 then u == t else StepTo(model, t, u, dt, law)
  }

  predicate StepsAt(model: Model, history: seq<Twin>, run: seq<Event>, law: ControlLaw, i: nat)
    requires model.Identified() && i < |run| && i + 1 < |history|
  {
    StepsTo(model, history[i], run[i], history[i + 1], law)
  }

  /** The twin before each event of the run, and after the last one. */
  predicate Lived(model: Model, history: seq<Twin>, run: seq<Event>, law: ControlLaw) {
    && model.Identified() && |history| == |run| + 1
    && forall i :: 0 <= i < |run| ==> StepsAt(model, history, run, law, i)
  }

  predicate Takes(model: Model, t: Twin, e: Event)
    requires model.Identified()
  {
    e.Command? && Accepted(model, t, e.command).Ok?
  }

  predicate Frees(model: Model, t: Twin, e: Event)
    requires model.Identified()
  {
    e.Restart? || Takes(model, t, e)
  }

  // ---- How long it stays stopped

  lemma StateStep(model: Model, t: Twin, e: Event, u: Twin, law: ControlLaw)
    requires model.Identified() && StepsTo(model, t, e, u, law)
    ensures e.Stop? ==> u.state.EmergencyStopped?
    ensures !e.Stop? ==> (u.state.EmergencyStopped? <==> t.state.EmergencyStopped? && !Frees(model, t, e))
  {
  }

  lemma StateStepAt(model: Model, history: seq<Twin>, run: seq<Event>, law: ControlLaw, i: nat)
    requires Lived(model, history, run, law) && i < |run|
    ensures run[i].Stop? ==> history[i + 1].state.EmergencyStopped?
    ensures !run[i].Stop? ==>
      (history[i + 1].state.EmergencyStopped? <==>
         history[i].state.EmergencyStopped? && !Frees(model, history[i], run[i]))
  {
    assert StepsAt(model, history, run, law, i);
    StateStep(model, history[i], run[i], history[i + 1], law);
  }

  /**
   Since the last stop, the twin is still stopped if and only if there was no reset and no accepted command:
   a command is accepted in the stopped state, and ends it.
   */
  lemma {:induction false} StoppedExactly(model: Model, history: seq<Twin>, run: seq<Event>, law: ControlLaw,
                                          i: nat, k: nat)
    requires Lived(model, history, run, law) && i < k <= |run|
    requires run[i].Stop? && forall r :: i < r < k ==> !run[r].Stop?
    ensures history[k].state.EmergencyStopped? <==> forall r :: i < r < k ==> !Frees(model, history[r], run[r])
    decreases k
  {
    StateStepAt(model, history, run, law, k - 1);
    if k - 1 > i {
      StoppedExactly(model, history, run, law, i, k - 1);
    }
  }

  // ---- Where it stays

  /** At rest in this pose, with nowhere to go. */
  predicate Parked(t: Twin, pose: Joints) {
    t.positions == t.targets == pose && AtRest(t)
  }

  lemma ParkedTick(model: Model, t: Twin, u: Twin, dt: real, root: real -> real, pose: Joints)
    requires StepTo(model, t, u, dt, ServoLaw(root)) && Parked(t, pose)
    ensures Parked(u, pose)
  {
    if !t.state.EmergencyStopped? {
      forall n | n in model.joints
        ensures u.positions[n] == pose[n] && u.velocities[n] == 0.0
      {
        ParkedJoint(model, t, u, dt, root, n);
      }
    }
  }

  lemma ParkedJoint(model: Model, t: Twin, u: Twin, dt: real, root: real -> real, n: string)
    requires Shaped(model, t) && Shaped(model, u) && n in model.joints && JointMoved(model, t, u, dt, ServoLaw(root), n)
    requires Resting(AxisOf(t, n), t.targets[n])
    ensures Resting(AxisOf(u, n), t.targets[n])
  {
    LawIsStep(AxisOf(t, n), t.targets[n], LimitsFor(model, t, dt, n), root);
    RestingStays(AxisOf(t, n), t.targets[n], LimitsFor(model, t, dt, n), root);
  }

  lemma ParkedStep(model: Model, t: Twin, e: Event, u: Twin, root: real -> real, pose: Joints)
    requires model.Identified() && StepsTo(model, t, e, u, ServoLaw(root)) && Parked(t, pose) && !Takes(model, t, e)
    ensures Parked(u, pose)
  {
    if e.Tick? && e.dt > 0.0 {
      ParkedTick(model, t, u, e.dt, root, pose);
    }
  }

  lemma ParkedStepAt(model: Model, history: seq<Twin>, run: seq<Event>, root: real -> real, i: nat, pose: Joints)
    requires Lived(model, history, run, ServoLaw(root)) && i < |run|
    requires Parked(history[i], pose) && !Takes(model, history[i], run[i])
    ensures Parked(history[i + 1], pose)
  {
    assert StepsAt(model, history, run, ServoLaw(root), i);
    ParkedStep(model, history[i], run[i], history[i + 1], root, pose);
  }

  lemma StopParks(model: Model, history: seq<Twin>, run: seq<Event>, law: ControlLaw, i: nat)
    requires Lived(model, history, run, law) && i < |run| && run[i].Stop?
    ensures Parked(history[i + 1], history[i].positions)
  {
    assert StepsAt(model, history, run, law, i);
  }

  /**
   After a stop no joint moves until a command is accepted, whatever steps, resets, further stops and refused
   commands come: a reset alone sets nothing in motion.
   */
  lemma {:induction false} StoppedTwinWaits(model: Model, history: seq<Twin>, run: seq<Event>, root: real -> real,
                                            i: nat, k: nat)
    requires Lived(model, history, run, ServoLaw(root)) && i < k <= |run| && run[i].Stop?
    requires forall r :: i < r < k ==> !Takes(model, history[r], run[r])
    ensures Parked(history[k], history[i].positions)
    decreases k
  {
    if k - 1 > i {
      StoppedTwinWaits(model, history, run, root, i, k - 1);
      ParkedStepAt(model, history, run, root, k - 1, history[i].positions);
    } else {
      StopParks(model, history, run, ServoLaw(root), i);
    }
  }
}
