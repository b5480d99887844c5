/**
 Runs of the simulation runtime in which operations interleave. Behaviours and stops take the execution lock,
 a reset does not, so it can fall between the two halves of a stop.
 */
module RuntimeStops {
  import opened Bytes
  import opened Numbers
  import opened RobotModel
  import opened Servo
  import opened Messages
  import opened DigitalTwin
  import opened Lifecycle
  import opened SimulationRuntime

  /** Who holds the execution lock. */
  datatype Holder = Nobody | Stopper | Mover

  datatype World = World(twin: Twin, supervisor: Snapshot, holder: Holder)

  datatype Event =
    | StopTwin                 // a stop takes the lock, and the device serves the stop request
    | LatchSupervisor          // the stop is acknowledged; the supervisor latches and the lock is released
    | StopFails                // its acknowledgement is not credited: the lock is released, nothing is latched
    | Judge(fits: bool)        // a behaviour takes the lock and is judged: it keeps the lock if approved
    | Serve(twin: Twin)        // its commands and steps take the twin somewhere
    | Finish                   // it releases the lock
    | ResetCall                // reset_estop, at any time

  /** An approval needs, among other things, that the supervisor is not latched. */
  predicate Approves(s: Snapshot, fits: bool) {
    !s.latched && fits
  }

  /** The supervisor is told that no stop input is active and that the heartbeat is 10 ms old. */
  function Told(s: Snapshot): Snapshot {
    Observe(SetPhysical(s, false), Fin(10.0), LIFECYCLE_POLICY.heartbeatTimeoutMs)
  }

  predicate Enabled(w: World, e: Event) {
    match e
    case StopTwin => w.holder.Nobody?
    case LatchSupervisor => w.holder.Stopper?
    case StopFails => w.holder.Stopper?
    case Judge(_) => w.holder.Nobody?
    case Serve(u) => w.holder.Mover? && (u.state.EmergencyStopped? ==> w.twin.state.EmergencyStopped?)
    case Finish => w.holder.Mover?
    case ResetCall => true
  }

  function Step(model: Model, w: World, e: Event): World {
    match e
    case StopTwin => w.(twin := Stopped(model, w.twin), holder := Stopper)
    case LatchSupervisor => w.(supervisor := Latch(w.supervisor, SoftwareEstop), holder := Nobody)
    case StopFails => w.(holder := Nobody)
    case Judge(fits) =>
      w.(supervisor := Told(w.supervisor), holder := if Approves(w.supervisor, fits) then Mover else Nobody)
    case Serve(u) => w.(twin := u)
    case Finish => w.(holder := Nobody)
    case ResetCall => var (t, s, _) := ResetBoth(w.twin, w.supervisor); w.(twin := t, supervisor := s)
  }

  /** Neither an accepted command nor a step ever puts the twin into the stopped state. */
  lemma ServingNeverStops(model: Model, t: Twin, c: MotionCommand, dt: real, law: ControlLaw)
    requires model.Identified() && Shaped(model, t)
    ensures Accepted(model, t, c).Ok? ==> !Accepted(model, t, c).value.state.EmergencyStopped?
    ensures Stepped(model, t, dt, law).state.EmergencyStopped? <==> t.state.EmergencyStopped?
  {
  }

  function State(model: Model, w: World, run: seq<Event>, i: nat): World
    requires i <= |run|
  {
    if i == 0 then w else Step(model, State(model, w, run, i - 1), run[i - 1])
  }

  predicate EnabledAt(model: Model, w: World, run: seq<Event>, i: nat)
    requires i < |run|
  {
    Enabled(State(model, w, run, i), run[i])
  }

  /** A run that the lock allows. */
  predicate Possible(model: Model, w: World, run: seq<Event>) {
    forall i :: 0 <= i < |run| ==> EnabledAt(model, w, run, i)
  }

  /** Both sides are stopped, or neither is. */
  predicate Agree(w: World) {
    w.twin.state.EmergencyStopped? <==> w.supervisor.latched
  }

  predicate Start(w: World) {
    Agree(w) && Unstopped(w.supervisor) && w.holder.Nobody?
  }

  // ---- The last stop before an event

  /** The last StopTwin among the first i events. */
  function LastStop(run: seq<Event>, i: nat): (a: Option<nat>)
    requires i <= |run|
    ensures a.Some? ==> a.value < i
  {
    if i == 0 then None else if run[i - 1].StopTwin? then Some(i - 1) else LastStop(run, i - 1)
  }

  /** The last LatchSupervisor among the first i events. */
  function LastLatch(run: seq<Event>, i: nat): (b: Option<nat>)
    requires i <= |run|
    ensures b.Some? ==> b.value < i
  {
    if i == 0 then None else if run[i - 1].LatchSupervisor? then Some(i - 1) else LastLatch(run, i - 1)
  }

  predicate ResetBetween(run: seq<Event>, a: nat, b: nat)
    requires b <= |run|
  {
    exists r :: a < r < b && run[r].ResetCall?
  }

  /** A reset, or a behaviour that takes the twin out of the stopped state or keeps it out. */
  predicate Frees(e: Event) {
    e.ResetCall? || (e.Serve? && !e.twin.state.EmergencyStopped?)
  }

  predicate FreedBetween(run: seq<Event>, a: nat, b: nat)
    requires b <= |run|
  {
    exists r :: a < r < b && Frees(run[r])
  }

  /** The supervisor was latched when the last stop before event i began. */
  predicate LatchedBefore(model: Model, w: World, run: seq<Event>, i: nat)
    requires i <= |run|
  {
    var a := LastStop(run, i);
    a.Some? && State(model, w, run, a.value).supervisor.latched
  }

  /** The last stop was acknowledged, but a reset fell between its halves. */
  predicate Split(run: seq<Event>, i: nat)
    requires i <= |run|
  {
    var a, b := LastStop(run, i), LastLatch(run, i);
    a.Some? && b.Some? && a.value < b.value && ResetBetween(run, a.value, b.value)
  }

  /** The last stop failed, with the supervisor not latched before, and nothing has freed the twin since. */
  predicate Abandoned(run: seq<Event>, i: nat, latchedBefore: bool)
    requires i <= |run|
  {
    var a, b := LastStop(run, i), LastLatch(run, i);
    a.Some? && (b.None? || b.value < a.value) && !latchedBefore && !FreedBetween(run, a.value, i)
  }

  /** What holds before event i. */
  predicate Tracks(w: World, run: seq<Event>, i: nat, latchedBefore: bool)
    requires i <= |run|
  {
    && Unstopped(w.supervisor)
    && if w.holder.Stopper? then StopUnderWay(w, run, i, latchedBefore)
       else
         && (Agree(w) <==> !Split(run, i) && !Abandoned(run, i, latchedBefore))
         && (Split(run, i) ==> !w.twin.state.EmergencyStopped?)
         && (Abandoned(run, i, latchedBefore) ==> w.twin.state.EmergencyStopped?)
         && (w.holder.Mover? ==> !w.supervisor.latched)
  }

  /** The twin is stopped, and the supervisor still latched if it was, until a reset undoes both. */
  predicate StopUnderWay(w: World, run: seq<Event>, i: nat, latchedBefore: bool)
    requires i <= |run|
  {
    var a, b := LastStop(run, i), LastLatch(run, i);
    && a.Some? && (b.None? || b.value < a.value)
    && (FreedBetween(run, a.value, i) <==> ResetBetween(run, a.value, i))
    && (w.twin.state.EmergencyStopped? <==> !ResetBetween(run, a.value, i))
    && (w.supervisor.latched <==> latchedBefore && !ResetBetween(run, a.value, i))
  }

  lemma HalvesStep(run: seq<Event>, i: nat)
    requires i < |run|
    ensures LastStop(run, i + 1) == if run[i].StopTwin? then Some(i) else LastStop(run, i)
    ensures LastLatch(run, i + 1) == if run[i].LatchSupervisor? then Some(i) else LastLatch(run, i)
  {
  }

  lemma BetweenStep(run: seq<Event>, a: nat, i: nat)
    requires a < i < |run|
    ensures ResetBetween(run, a, i + 1) <==> ResetBetween(run, a, i) || run[i].ResetCall?
    ensures FreedBetween(run, a, i + 1) <==> FreedBetween(run, a, i) || Frees(run[i])
  {
  }

  /** An event that begins or ends a stop. */
  lemma StopStep(model: Model, w: World, run: seq<Event>, i: nat, latchedBefore: bool)
    requires i < |run| && Tracks(w, run, i, latchedBefore) && Enabled(w, run[i])
    requires run[i].StopTwin? || run[i].LatchSupervisor? || run[i].StopFails?
    ensures Tracks(Step(model, w, run[i]), run, i + 1, if run[i].StopTwin? then w.supervisor.latched else latchedBefore)
  {
    HalvesStep(run, i);
    if w.holder.Stopper? {
      BetweenStep(run, LastStop(run, i).value, i);
    }
  }

  /** Any other event. */
  lemma OtherStep(model: Model, w: World, run: seq<Event>, i: nat, latchedBefore: bool)
    requires i < |run| && Tracks(w, run, i, latchedBefore) && Enabled(w, run[i])
    requires !(run[i].StopTwin? || run[i].LatchSupervisor? || run[i].StopFails?)
    ensures Tracks(Step(model, w, run[i]), run, i + 1, latchedBefore)
  {
    HalvesStep(run, i);
    if LastStop(run, i).Some? {
      BetweenStep(run, LastStop(run, i).value, i);
    }
  }

  lemma {:induction false} EveryWorldIsTracked(model: Model, w: World, run: seq<Event>, i: nat)
    requires i <= |run| && Possible(model, w, run) && Start(w)
    ensures Tracks(State(model, w, run, i), run, i, LatchedBefore(model, w, run, i))
    decreases i
  {
    if i > 0 {
      EveryWorldIsTracked(model, w, run, i - 1);
      TrackNext(model, w, run, i - 1);
    }
  }

  lemma TrackNext(model: Model, w: World, run: seq<Event>, i: nat)
    requires i < |run| && Possible(model, w, run)
    requires Tracks(State(model, w, run, i), run, i, LatchedBefore(model, w, run, i))
    ensures Tracks(State(model, w, run, i + 1), run, i + 1, LatchedBefore(model, w, run, i + 1))
  {
    assert EnabledAt(model, w, run, i);
    HalvesStep(run, i);
    if run[i].StopTwin? || run[i].LatchSupervisor? || run[i].StopFails? {
      StopStep(model, State(model, w, run, i), run, i, LatchedBefore(model, w, run, i));
    } else {
      OtherStep(model, State(model, w, run, i), run, i, LatchedBefore(model, w, run, i));
    }
  }

  /** The last stop left the two sides alike, or what came after it made them so. */
  predicate InStep(model: Model, w: World, run: seq<Event>, i: nat)
    requires i <= |run|
  {
    !Split(run, i) && !Abandoned(run, i, LatchedBefore(model, w, run, i))
  }

  /**
   Whenever no stop is under way, twin and supervisor disagree in two cases only. Either the last stop was
   acknowledged and a reset fell between its halves: then the twin is free under a latched supervisor, whatever
   resets and behaviours follow. Or the last stop failed, the supervisor not having been latched before: then the
   twin is stopped under a supervisor that permits motion, until a reset or the next behaviour frees it.
   */
  lemma AgreeExactly(model: Model, w: World, run: seq<Event>, i: nat)
    requires i <= |run| && Possible(model, w, run) && Start(w)
    requires !State(model, w, run, i).holder.Stopper?
    ensures var now := State(model, w, run, i);
      && (Agree(now) <==> InStep(model, w, run, i))
      && (Split(run, i) ==> !now.twin.state.EmergencyStopped? && now.supervisor.latched)
      && (Abandoned(run, i, LatchedBefore(model, w, run, i)) ==>
            now.twin.state.EmergencyStopped? && !now.supervisor.latched)
  {
    EveryWorldIsTracked(model, w, run, i);
  }

  /** A reset between operations leaves nothing stopped, and says so, exactly under the same condition. */
  lemma ResetWorksExactly(model: Model, w: World, run: seq<Event>, i: nat)
    requires i <= |run| && Possible(model, w, run) && Start(w)
    requires !State(model, w, run, i).holder.Stopper?
    ensures var now := State(model, w, run, i);
      var (t, s, cleared) := ResetBoth(now.twin, now.supervisor);
      cleared && !t.state.EmergencyStopped? && !s.latched <==> InStep(model, w, run, i)
  {
    EveryWorldIsTracked(model, w, run, i);
    var now := State(model, w, run, i);
    ResetAgreesExactly(now.twin, now.supervisor);
  }

  /** A stop that fails is undone by the next approved behaviour, without any reset. */
  lemma FailedStopIsUndone(model: Model, w: World, u: Twin)
    requires Start(w) && !w.supervisor.latched && !u.state.EmergencyStopped?
    ensures var run := [StopTwin, StopFails, Judge(true), Serve(u)];
      && Possible(model, w, run)
      && State(model, w, run, 2).twin.state.EmergencyStopped? && !State(model, w, run, 2).supervisor.latched
      && State(model, w, run, 4).twin == u && Agree(State(model, w, run, 4))
  {
    var run := [StopTwin, StopFails, Judge(true), Serve(u)];
    var w1 := Step(model, w, StopTwin);
    var w2 := Step(model, w1, StopFails);
    var w3 := Step(model, w2, Judge(true));
    assert State(model, w, run, 0) == w;
    assert State(model, w, run, 1) == w1;
    assert State(model, w, run, 2) == w2;
    assert State(model, w, run, 3) == w3;
    forall i | 0 <= i < |run|
      ensures EnabledAt(model, w, run, i)
    {
    }
  }
}
