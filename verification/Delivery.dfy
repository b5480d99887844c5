/** From an authorization to the pose it names: gateway, wire, device and plant joined. */
module Delivery {
  import opened Bytes
  import opened Numbers
  import opened RobotModel
  import opened Servo
  import opened Framing
  import opened Stream
  import opened Messages
  import opened DigitalTwin
  import opened TwinRuns
  import opened Supervisor
  import opened Authorizations
  import opened EndToEnd
  import opened Device

  /** A frame as the gateway makes it of an authorization, under any sequence number. */
  ghost predicate CarriesAuthorization(model: Model, a: Authorization, f: Frame) {
    && f.messageType.ValidatedMotionCommand?
    && exists c :: Says(c, a, Ids(model)) && MotionFault(c).None? && f.payload == MotionBytes(c)
  }

  lemma DispatchesCommand(model: Model, t: Twin, c: MotionCommand, f: Frame)
    requires model.Identified() && f.messageType.ValidatedMotionCommand? && DecodeMotion(f.payload) == Ok(c)
    requires Accepted(model, t, c).Ok?
    ensures Dispatched(model, t, f).Ok? && AfterRequest(model, t, f) == Accepted(model, t, c).value
  {
  }

  /** The device carries out such a frame: the twin has the authorized angles as targets, and the authorized limits. */
  lemma ServedTakesOver(model: Model, t: Twin, a: Authorization, f: Frame)
    requires model.Identified() && Shaped(model, t) && model.WithinLimits(t.targets)
    requires AuthorizedWithin(model, a) && CarriesAuthorization(model, a, f)
    ensures Dispatched(model, t, f).Ok? && TakesOver(model, t, AfterRequest(model, t, f), a)
  {
    var c :| Says(c, a, Ids(model)) && MotionFault(c).None? && f.payload == MotionBytes(c);
    MotionCodec(c, f.payload);
    TwinTakesOver(model, t, c, a);
    DispatchesCommand(model, t, c, f);
  }

  /** However the gateway's bytes are cut on the way, the device finds the one frame and carries it out. */
  lemma AuthorizationReachesTwin(model: Model, t: Twin, a: Authorization, f: Frame, chunks: seq<seq<byte>>, limit: nat)
    requires model.Identified() && Shaped(model, t) && model.WithinLimits(t.targets)
    requires AuthorizedWithin(model, a) && CarriesAuthorization(model, a, f)
    requires Join(chunks) == Encode(f) && NoOverflow([], chunks, limit) && WireSize(f) <= limit
    ensures FramesOf(FeedAll([], chunks, limit).segments) == [f]
    ensures Dispatched(model, t, f).Ok? && TakesOver(model, t, AfterRequest(model, t, f), a)
  {
    OneFrame(f, chunks, limit);
    ServedTakesOver(model, t, a, f);
  }

  /** The twin goes at the pace authorized, which is more than none. */
  lemma PaceIsPositive(model: Model, t: Twin, u: Twin, a: Authorization, f: Frame)
    requires Shaped(model, t) && AuthorizedWithin(model, a) && TakesOver(model, t, u, a)
    requires CarriesAuthorization(model, a, f)
    ensures u.velocityLimit > 0.0 && u.accelerationLimit > 0.0
  {
    var c :| Says(c, a, Ids(model)) && MotionFault(c).None? && f.payload == MotionBytes(c);
    DegreesExact(a.maxVelocity, c.maxVelocity, 1, 0xFFFF);
    DegreesExact(a.maxAcceleration, c.maxAcceleration, 1, 0xFFFF);
  }

  /** Every joint has the authorized angle, or the target it had before. */
  predicate Obeys(model: Model, t: Twin, u: Twin, a: Authorization)
    requires Shaped(model, t)
  {
    && u.positions.Keys == model.joints.Keys
    && forall n :: n in model.joints ==> Fin(u.positions[n]) == NewAngle(t.targets, a, n)
  }

  lemma SettledObeys(model: Model, t: Twin, u: Twin, v: Twin, a: Authorization)
    requires Shaped(model, t) && AuthorizedWithin(model, a) && TakesOver(model, t, u, a)
    requires v.positions == v.targets == u.targets
    ensures Obeys(model, t, v, a)
  {
  }

  lemma TakenOverFits(model: Model, t: Twin, u: Twin, a: Authorization)
    requires Shaped(model, t) && AuthorizedWithin(model, a) && TakesOver(model, t, u, a)
    requires model.WithinLimits(t.targets)
    ensures model.WithinLimits(u.targets)
  {
    forall n | n in model.joints
      ensures model.joints[n].lowerDeg <= u.targets[n] <= model.joints[n].upperDeg
    {
      assert Fin(u.targets[n]) == NewAngle(t.targets, a, n);
    }
  }

  /**
   From an authorization to the pose: a twin at rest that is served the gateway's frame is, after as many steps as the
   farthest joint has strides to make and one more, idle exactly on the authorized angles, every other joint on the
   target it had; and it is within its limits all the way.
   */
  lemma AuthorizationIsCarriedOut(model: Model, t: Twin, a: Authorization, f: Frame, run: seq<Twin>, dt: real,
                                  root: real -> real, k: nat)
    requires model.Valid() && Shaped(model, t) && AtRest(t) && dt > 0.0 && IsRoot(root)
    requires model.WithinLimits(t.positions) && model.WithinLimits(t.targets)
    requires AuthorizedWithin(model, a) && CarriesAuthorization(model, a, f)
    requires Run(model, run, dt, ServoLaw(root)) && k + 1 < |run| && run[0] == AfterRequest(model, t, f)
    requires EnoughSteps(model, run[0], dt, k)
    ensures run[k + 1].state.Idle? && Obeys(model, t, run[k + 1], a)
    ensures forall i :: 0 <= i < |run| ==> model.WithinLimits(run[i].positions)
  {
    var u := run[0];
    ServedTakesOver(model, t, a, f);
    PaceIsPositive(model, t, u, a, f);
    TakenOverFits(model, t, u, a);
    TwinSettles(model, run, dt, root, k);
    SettledObeys(model, t, u, run[k + 1], a);
    forall i | 0 <= i < |run|
      ensures model.WithinLimits(run[i].positions)
    {
      StaysWithinLimits(model, run, dt, root, i);
    }
  }
}
