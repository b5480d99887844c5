/** The simulated robot in plain numbers: its steps, the commands it takes, its reports and its answers. */
module TwinMeaning {
  import opened Bytes
  import opened Framing
  import opened RobotModel
  import opened Servo
  import opened ServoMeaning
  import opened DigitalTwin
  import opened TwinRuns
  import opened Device
  import M = Messages
  import T = Telemetry

  // ---- Steps

  /** The clock advances by dt seconds, to the nearest millisecond, and stays at the largest 32-bit number. */
  predicate ClockAfter(before: int, after: int, dt: real) {
    && after <= 4294967295
    && (Nearest(dt * 1000.0, after - before)
        || (after == 4294967295 && dt * 1000.0 >= (after - before) as real - 0.5))
  }

  lemma ClockMeans(before: int, dt: real)
    ensures ClockAfter(before, Elapsed(before, dt), dt)
  {
    RoundingIsNearest(dt * 1000.0, RoundHalfEven(dt * 1000.0));
  }

  /** The stricter of the joint's limits and the command's hold for joint n. */
  ghost predicate JointRule(model: Model, t: Twin, u: Twin, dt: real, n: string)
    requires Shaped(model, t) && Shaped(model, u) && n in model.joints
  {
    var joint, a := model.joints[n], AxisOf(t, n);
    StepRule(a, t.targets[n], Min(joint.maxVelocity, t.velocityLimit), Min(joint.maxAcceleration, t.accelerationLimit),
             dt, AxisStep(AxisOf(u, n), !Arrived(a, t.targets[n]), u.currents[n]))
  }

  ghost predicate AllArrived(model: Model, t: Twin)
    requires Shaped(model, t)
  {
    forall n :: n in model.joints ==> Arrived(AxisOf(t, n), t.targets[n])
  }

  /** A stopped twin keeps its pose and draws 60 mA a joint; else each joint follows its rule, Idle once all arrived. */
  lemma TwinStepMeans(model: Model, t: Twin, dt: real, root: real -> real, u: Twin)
    requires Sturdy(model, t) && dt > 0.0 && IsRoot(root) && u == Stepped(model, t, dt, ServoLaw(root))
    ensures Shaped(model, u) && ClockAfter(t.uptimeMs, u.uptimeMs, dt)
    ensures u.targets == t.targets && u.velocityLimit == t.velocityLimit && u.accelerationLimit == t.accelerationLimit
    ensures t.state.EmergencyStopped? ==>
      && u.positions == t.positions && u.velocities == t.velocities && u.state == t.state
      && forall n :: n in model.joints ==> u.currents[n] == 60
    ensures !t.state.EmergencyStopped? ==>
      && (u.state == if AllArrived(model, t) then M.Idle else M.Executing)
      && forall n :: n in model.joints ==> JointRule(model, t, u, dt, n)
  {
    ClockMeans(t.uptimeMs, dt);
    SteppedIsStep(model, t, dt, ServoLaw(root));
    if !t.state.EmergencyStopped? {
      forall n | n in model.joints
        ensures JointRule(model, t, u, dt, n)
        ensures JointStep(model, t, dt, ServoLaw(root), n).moving <==> !Arrived(AxisOf(t, n), t.targets[n])
      {
        JointMeans(model, t, u, dt, root, n);
      }
    }
  }

  lemma JointMeans(model: Model, t: Twin, u: Twin, dt: real, root: real -> real, n: string)
    requires Sturdy(model, t) && dt > 0.0 && IsRoot(root) && n in model.joints && !t.state.EmergencyStopped?
    requires u == Stepped(model, t, dt, ServoLaw(root))
    ensures JointRule(model, t, u, dt, n)
    ensures JointStep(model, t, dt, ServoLaw(root), n).moving <==> !Arrived(AxisOf(t, n), t.targets[n])
  {
    StepMeans(AxisOf(t, n), t.targets[n], LimitsFor(model, t, dt, n), root);
  }

  // ---- Commands

  /** After the command this joint would be within its limits. */
  ghost predicate FitsJoint(model: Model, t: Twin, commanded: seq<M.JointTarget>, n: string)
    requires Shaped(model, t) && n in model.joints
  {
    && (forall i :: 0 <= i < |commanded| && commanded[i].jointId == model.joints[n].protocolId ==>
          model.joints[n].lowerDeg * 100.0 <= commanded[i].targetCdeg as real <= model.joints[n].upperDeg * 100.0)
    && (!Mentions(model, commanded, n) ==> model.joints[n].lowerDeg <= t.targets[n] <= model.joints[n].upperDeg)
  }

  ghost predicate HasJoint(model: Model, id: int) {
    exists n :: n in model.joints && model.joints[n].protocolId == id
  }

  ghost predicate Takes(model: Model, t: Twin, c: M.MotionCommand)
    requires Shaped(model, t)
  {
    && (forall i :: 0 <= i < |c.targets| ==> HasJoint(model, c.targets[i].jointId))
    && (forall n :: n in model.joints ==> FitsJoint(model, t, c.targets, n))
  }

  /** The commanded joints aim there, in hundredths, and the others where they did. */
  ghost predicate Aimed(model: Model, t: Twin, commanded: seq<M.JointTarget>, r: Joints) {
    && r.Keys == t.targets.Keys == model.joints.Keys
    && (forall n, i ::
          (n in model.joints && 0 <= i < |commanded| && commanded[i].jointId == model.joints[n].protocolId)
            ==> r[n] * 100.0 == commanded[i].targetCdeg as real)
    && (forall n :: n in model.joints && !Mentions(model, commanded, n) ==> r[n] == t.targets[n])
  }

  /** The twin under command c: these goals, and nothing else but the state and the limits changed. */
  ghost predicate Commanded(model: Model, t: Twin, c: M.MotionCommand, u: Twin) {
    && u == t.(targets := u.targets, state := M.Executing, velocityLimit := u.velocityLimit,
               accelerationLimit := u.accelerationLimit)
    && u.velocityLimit * 100.0 == c.maxVelocity as real && u.accelerationLimit * 100.0 == c.maxAcceleration as real
    && Aimed(model, t, c.targets, u.targets)
  }

  /** A command is taken exactly if every id is a joint's and every joint would be within its limits. */
  lemma AcceptedMeans(model: Model, t: Twin, c: M.MotionCommand)
    requires model.Identified() && Shaped(model, t) && M.DistinctIds(c.targets)
    ensures Accepted(model, t, c).Ok? <==> Takes(model, t, c)
    ensures Accepted(model, t, c).Ok? ==> Commanded(model, t, c, Accepted(model, t, c).value)
  {
    TargetsMean(model, t, c.targets);
    var r := Retargeted(model, t.targets, c.targets);
    if r.Ok? {
      CommandedTo(model, t, c, r.value);
    }
  }

  lemma TargetsMean(model: Model, t: Twin, commanded: seq<M.JointTarget>)
    requires model.Identified() && Shaped(model, t) && M.DistinctIds(commanded)
    ensures var r := Retargeted(model, t.targets, commanded);
      && (r.Ok? <==> forall i :: 0 <= i < |commanded| ==> HasJoint(model, commanded[i].jointId))
      && (r.Ok? ==>
            && Aimed(model, t, commanded, r.value)
            && (model.WithinLimits(r.value) <==> forall n :: n in model.joints ==> FitsJoint(model, t, commanded, n)))
  {
    RetargetedMeans(model, t.targets, commanded);
    KnownMeans(model, commanded);
    var r := Retargeted(model, t.targets, commanded);
    if r.Ok? {
      GoalsMeans(model, t, commanded, r.value);
      WithinMeans(model, t, commanded, r.value);
    }
  }

  lemma CommandedTo(model: Model, t: Twin, c: M.MotionCommand, r: Joints)
    requires Shaped(model, t) && Aimed(model, t, c.targets, r)
    ensures Commanded(model, t, c, t.(targets := r, state := M.Executing, velocityLimit := Degrees(c.maxVelocity),
                                       accelerationLimit := Degrees(c.maxAcceleration)))
  {
  }

  lemma KnownMeans(model: Model, commanded: seq<M.JointTarget>)
    requires model.Identified()
    ensures AllKnown(model, commanded) <==> forall i :: 0 <= i < |commanded| ==> HasJoint(model, commanded[i].jointId)
  {
    forall i | 0 <= i < |commanded|
      ensures NameOf(model, commanded[i].jointId).Some? <==> HasJoint(model, commanded[i].jointId)
    {
      NameMeans(model, commanded[i].jointId);
    }
  }

  lemma NameMeans(model: Model, id: int)
    requires model.Identified()
    ensures NameOf(model, id).Some? <==> HasJoint(model, id)
  {
    var name := NameOf(model, id);
    if name.Some? {
      assert name == Some(name.value);
    }
    if HasJoint(model, id) {
      var n :| n in model.joints && model.joints[n].protocolId == id;
      assert name == Some(n);
    }
  }

  lemma GoalsMeans(model: Model, t: Twin, commanded: seq<M.JointTarget>, r: Joints)
    requires model.Identified() && SetsExactly(model, t.targets, commanded, r)
    ensures Aimed(model, t, commanded, r)
  {
    forall n, i | n in model.joints && 0 <= i < |commanded| && commanded[i].jointId == model.joints[n].protocolId
      ensures r[n] * 100.0 == commanded[i].targetCdeg as real
    {
      SetTarget(model, t.targets, commanded, r, i, n);
    }
  }

  lemma WithinMeans(model: Model, t: Twin, commanded: seq<M.JointTarget>, r: Joints)
    requires Shaped(model, t) && Aimed(model, t, commanded, r)
    ensures model.WithinLimits(r) <==> forall n :: n in model.joints ==> FitsJoint(model, t, commanded, n)
  {
    forall n | n in model.joints
      ensures FitsJoint(model, t, commanded, n) <==> model.joints[n].lowerDeg <= r[n] <= model.joints[n].upperDeg
    {
      FitsMeans(model, t, commanded, r, n);
    }
  }

  lemma FitsMeans(model: Model, t: Twin, commanded: seq<M.JointTarget>, r: Joints, n: string)
    requires Shaped(model, t) && Aimed(model, t, commanded, r) && n in model.joints
    ensures FitsJoint(model, t, commanded, n) <==> model.joints[n].lowerDeg <= r[n] <= model.joints[n].upperDeg
  {
    if Mentions(model, commanded, n) {
      var i :| 0 <= i < |commanded| && commanded[i].jointId == model.joints[n].protocolId;
      assert r[n] * 100.0 == commanded[i].targetCdeg as real;
    }
  }

  // ---- Reports

  /** The entry tells the joint's id, its position and velocity to the nearest hundredth, and its current. */
  predicate TellsOf(model: Model, t: Twin, n: string, e: T.JointReport)
    requires Shaped(model, t) && n in model.joints
  {
    && e.jointId == model.joints[n].protocolId && e.currentMa == t.currents[n]
    && Nearest(t.positions[n] * 100.0, e.positionCdeg) && Nearest(t.velocities[n] * 100.0, e.velocityCdegS)
  }

  lemma ReportMeans(model: Model, t: Twin, supplyMv: int, flags: int)
    requires model.Identified() && Shaped(model, t)
    ensures var r := Reported(model, t, supplyMv, flags);
      && r.uptimeMs == t.uptimeMs && r.state == t.state && r.flags == flags && r.supplyMv == supplyMv
      && |r.joints| == |model.names|
      && forall i :: 0 <= i < |model.names| ==>
           model.names[i] in model.joints && TellsOf(model, t, model.names[i], r.joints[i])
  {
    var r := Reported(model, t, supplyMv, flags);
    forall i | 0 <= i < |model.names|
      ensures model.names[i] in model.joints && TellsOf(model, t, model.names[i], r.joints[i])
    {
      assert model.names[i] in model.names;
      EntryMeans(model, t, model.names[i], r.joints[i]);
    }
  }

  lemma EntryMeans(model: Model, t: Twin, n: string, e: T.JointReport)
    requires Shaped(model, t) && n in model.joints && e == ReportOf(model, t, n)
    ensures TellsOf(model, t, n, e)
  {
    RoundingIsNearest(t.positions[n] * 100.0, RoundHalfEven(t.positions[n] * 100.0));
    RoundingIsNearest(t.velocities[n] * 100.0, RoundHalfEven(t.velocities[n] * 100.0));
  }

  // ---- Requests

  /** The request is well formed and the twin can do it. */
  ghost predicate CanServe(model: Model, t: Twin, f: Frame)
    requires Shaped(model, t)
  {
    match f.messageType
    case Heartbeat => M.DecodeHeartbeat(f.payload).Ok?
    case Estop => M.DecodeEmergencyStop(f.payload).Ok?
    case ValidatedMotionCommand => M.DecodeMotion(f.payload).Ok? && Takes(model, t, M.DecodeMotion(f.payload).value)
    case _ => false
  }

  /** The twin after serving it: as commanded, or stopped where it is; a heartbeat and a refusal leave it as it was. */
  ghost predicate Served(model: Model, t: Twin, f: Frame, u: Twin)
    requires Shaped(model, t)
  {
    if !CanServe(model, t, f) || f.messageType.Heartbeat? then u == t
    else if f.messageType.Estop? then
      && u == t.(targets := t.positions, velocities := u.velocities, state := M.EmergencyStopped)
      && u.velocities.Keys == model.joints.Keys && AtRest(u)
    else Commanded(model, t, M.DecodeMotion(f.payload).value, u)
  }

  lemma ServedExactly(model: Model, t: Twin, f: Frame)
    requires model.Identified() && Shaped(model, t)
    ensures Dispatched(model, t, f).Ok? <==> CanServe(model, t, f)
    ensures Served(model, t, f, AfterRequest(model, t, f))
  {
    if f.messageType.ValidatedMotionCommand? && M.DecodeMotion(f.payload).Ok? {
      var c := M.DecodeMotion(f.payload).value;
      M.MotionCodec(c, f.payload);
      AcceptedMeans(model, t, c);
    }
  }

  /** The device's answer, as the host reads it: OK in an ACK under the request's number exactly if it was served. */
  lemma AnswerIsTrue(model: Model, t: Twin, f: Frame, number: u16)
    requires model.Identified() && Shaped(model, t)
    ensures var a := Answer(f.sequence, Dispatched(model, t, f).Ok?, number);
      && a.sequence == number
      && a.messageType == (if CanServe(model, t, f) then Ack else Nack)
      && M.DecodeAcknowledgement(a.payload)
      == Ok(M.Acknowledgement(f.sequence, if CanServe(model, t, f) then M.AckOk else M.Invalid))
  {
    ServedExactly(model, t, f);
    AnswerSays(f.sequence, CanServe(model, t, f), number);
  }
}
