/** From an authorization, over the wire, to the twin's targets: nothing is rounded, lost or touched on the way. */
module EndToEnd {
  import opened Bytes
  import opened Numbers
  import opened RobotModel
  import opened Servo
  import opened Framing
  import opened Stream
  import opened Chunking
  import opened Traffic
  import opened Messages
  import opened DigitalTwin
  import opened Eligibility
  import opened Supervisor
  import opened MotionPlanning
  import opened Authorizations

  function Ids(model: Model): map<string, int> {
    map n | n in model.joints :: model.joints[n].protocolId
  }

  lemma ModelIdsAreGood(model: Model)
    requires model.Valid()
    ensures GoodMapping(Ids(model))
  {
    assert model.names[0] in model.joints;
    assert model.names[0] in Ids(model);
  }

  // ---- Over the wire

  lemma SaidIdsDiffer(ts: seq<JointTarget>)
    requires Ascending(ts)
    ensures DistinctIds(ts)
  {
  }

  /** A command made from an authorization of one to eight joints can be encoded. */
  lemma SaidIsEncodable(c: MotionCommand, a: Authorization, ids: map<string, int>)
    requires Says(c, a, ids) && GoodMapping(ids) && 1 <= |a.targets| <= MAX_JOINTS
    ensures MotionFault(c).None? && |MotionBytes(c)| <= MAX_PAYLOAD
  {
    SaidIdsDiffer(c.targets);
    forall t | t in c.targets
      ensures TargetFits(t)
    {
      var n :| JointExact(a, ids, n, t);
    }
    MotionLayout(c, seq(24 + 3 * |c.targets|, _ => 0));
  }

  lemma OneFrame(f: Frame, chunks: seq<seq<byte>>, limit: nat)
    requires WireSize(f) <= limit && Join(chunks) == Encode(f) && NoOverflow([], chunks, limit)
    ensures FramesOf(FeedAll([], chunks, limit).segments) == [f]
  {
    ParseFrameFirst(f, [], limit);
    GotFirst(f, Parse([], limit));
    assert Encode(f) + [] == Encode(f) && [] + Join(chunks) == Join(chunks);
    ChunkingDoesNotMatter([], chunks, limit);
    assert FramesOf(Parse([], limit).segments) == [];
  }

  /** However the bytes arrive, the receiver decodes the very command the gateway made. */
  lemma WireCarriesCommand(c: MotionCommand, a: Authorization, ids: map<string, int>, sequence: u16,
                           chunks: seq<seq<byte>>, limit: nat)
    requires Says(c, a, ids) && GoodMapping(ids) && 1 <= |a.targets| <= MAX_JOINTS
    requires MotionFault(c).None? && |MotionBytes(c)| <= MAX_PAYLOAD && OVERHEAD + |MotionBytes(c)| <= limit
    requires Join(chunks) == Encode(AnyFrame.Frame(ValidatedMotionCommand, sequence, MotionBytes(c)))
    requires NoOverflow([], chunks, limit)
    ensures FramesOf(FeedAll([], chunks, limit).segments)
         == [AnyFrame.Frame(ValidatedMotionCommand, sequence, MotionBytes(c))]
    ensures DecodeMotion(MotionBytes(c)) == Ok(c)
  {
    OneFrame(AnyFrame.Frame(ValidatedMotionCommand, sequence, MotionBytes(c)), chunks, limit);
    MotionCodec(c, MotionBytes(c));
  }

  // ---- Into the twin

  predicate AuthorizedWithin(model: Model, a: Authorization) {
    forall n :: n in a.targets ==>
      n in model.joints && a.targets[n].Finite()
      && model.joints[n].lowerDeg <= a.targets[n].value <= model.joints[n].upperDeg
  }

  /** The twin's targets after the command: the authorized angles, and everything else as before. */
  predicate TakesOver(model: Model, t: Twin, u: Twin, a: Authorization)
    requires Shaped(model, t) && AuthorizedWithin(model, a)
  {
    && u.targets.Keys == model.joints.Keys
    && (forall n :: n in model.joints ==>
          Fin(u.targets[n]) == NewAngle(t.targets, a, n))
    && a.maxVelocity == Fin(u.velocityLimit) && a.maxAcceleration == Fin(u.accelerationLimit)
    && u.state.Executing? && u.positions == t.positions && u.velocities == t.velocities
  }

  lemma DegreesExact(value: Num, n: int, minimum: int, maximum: int)
    requires Exactly(value, SCALE, n, minimum, maximum)
    ensures value == Fin(Degrees(n))
  {
  }

  lemma MentionedJoint(model: Model, c: MotionCommand, a: Authorization, n: string) returns (i: nat)
    requires SaysAll(c.targets, a, Ids(model)) && n in a.targets && n in model.joints
    ensures i < |c.targets| && c.targets[i].jointId == model.joints[n].protocolId
    ensures a.targets[n] == Fin(Degrees(c.targets[i].targetCdeg))
  {
    var t :| t in c.targets && JointExact(a, Ids(model), n, t);
    i :| 0 <= i < |c.targets| && c.targets[i] == t;
    DegreesExact(a.targets[n], t.targetCdeg, -0x8000, 0x7FFF);
  }

  lemma OnlyAuthorizedMentioned(model: Model, c: MotionCommand, a: Authorization, n: string)
    requires model.Identified() && SaysOnly(c.targets, a, Ids(model)) && n in model.joints
    ensures Mentions(model, c.targets, n) ==> n in a.targets
  {
    if Mentions(model, c.targets, n) {
      var i :| 0 <= i < |c.targets| && c.targets[i].jointId == model.joints[n].protocolId;
      assert c.targets[i] in c.targets;
      var m :| JointExact(a, Ids(model), m, c.targets[i]);
      assert m in model.joints && model.joints[m].protocolId == model.joints[n].protocolId;
    }
  }

  lemma EveryIdIsKnown(model: Model, c: MotionCommand, a: Authorization)
    requires model.Identified() && SaysOnly(c.targets, a, Ids(model))
    ensures AllKnown(model, c.targets)
  {
    forall i | 0 <= i < |c.targets|
      ensures NameOf(model, c.targets[i].jointId).Some?
    {
      assert c.targets[i] in c.targets;
      var m :| JointExact(a, Ids(model), m, c.targets[i]);
      assert NameOf(model, c.targets[i].jointId) == Some(m);
    }
  }

  function NewAngle(previous: Joints, a: Authorization, n: string): Num
    requires n in previous
  {
    if n in a.targets then a.targets[n] else Fin(previous[n])
  }

  lemma NewTarget(model: Model, previous: Joints, c: MotionCommand, a: Authorization, targets: Joints, n: string)
    requires model.Identified() && Says(c, a, Ids(model)) && n in model.joints
    requires SetsExactly(model, previous, c.targets, targets)
    ensures Fin(targets[n]) == NewAngle(previous, a, n)
  {
    if n in a.targets {
      var i := MentionedJoint(model, c, a, n);
      SetTarget(model, previous, c.targets, targets, i, n);
    } else {
      OnlyAuthorizedMentioned(model, c, a, n);
    }
  }

  lemma NewTargets(model: Model, previous: Joints, c: MotionCommand, a: Authorization) returns (targets: Joints)
    requires model.Identified() && previous.Keys == model.joints.Keys && Says(c, a, Ids(model))
    ensures Retargeted(model, previous, c.targets) == Ok(targets) && targets.Keys == model.joints.Keys
    ensures forall n :: n in model.joints ==> Fin(targets[n]) == NewAngle(previous, a, n)
  {
    SaidIdsDiffer(c.targets);
    EveryIdIsKnown(model, c, a);
    RetargetedMeans(model, previous, c.targets);
    targets := Retargeted(model, previous, c.targets).value;
    forall n | n in model.joints
      ensures Fin(targets[n]) == NewAngle(previous, a, n)
    {
      NewTarget(model, previous, c, a, targets, n);
    }
  }

  lemma NewTargetsFit(model: Model, previous: Joints, a: Authorization, targets: Joints)
    requires model.WithinLimits(previous) && AuthorizedWithin(model, a) && targets.Keys == model.joints.Keys
    requires forall n :: n in model.joints ==> Fin(targets[n]) == NewAngle(previous, a, n)
    ensures model.WithinLimits(targets)
  {
  }

  /** The twin accepts the command, with exactly the authorized angles and limits as its own. */
  lemma TwinTakesOver(model: Model, t: Twin, c: MotionCommand, a: Authorization)
    requires model.Identified() && Shaped(model, t) && model.WithinLimits(t.targets)
    requires Says(c, a, Ids(model)) && AuthorizedWithin(model, a)
    ensures Accepted(model, t, c).Ok? && TakesOver(model, t, Accepted(model, t, c).value, a)
  {
    var targets := NewTargets(model, t.targets, c, a);
    NewTargetsFit(model, t.targets, a, targets);
    AcceptsTargets(model, t, c, targets);
    DegreesExact(a.maxVelocity, c.maxVelocity, 1, 0xFFFF);
    DegreesExact(a.maxAcceleration, c.maxAcceleration, 1, 0xFFFF);
  }

  lemma AcceptsTargets(model: Model, t: Twin, c: MotionCommand, targets: Joints)
    requires model.Identified() && Retargeted(model, t.targets, c.targets) == Ok(targets) && model.WithinLimits(targets)
    ensures Accepted(model, t, c)
         == Ok(t.(targets := targets, state := WireState.Executing,
                  velocityLimit := Degrees(c.maxVelocity), accelerationLimit := Degrees(c.maxAcceleration)))
  {
  }

  /** What the simulation supervisor authorizes is within the model's limits. */
  lemma PermittedIsWithin(model: Model, box: WorkspaceBounds, c: Candidate, a: Authorization)
    requires model.Valid() && Permitted(SimulationEnvelope(model, box), c) && a.targets == c.targets
    ensures AuthorizedWithin(model, a)
  {
    PermittedWith(model, box, model.StrictestVelocity(), model.StrictestAcceleration(), c, a);
  }

  lemma PermittedWith(model: Model, box: WorkspaceBounds, v: real, acc: real, c: Candidate, a: Authorization)
    requires Permitted(EnvelopeWith(model.joints, box, v, acc), c) && a.targets == c.targets
    ensures AuthorizedWithin(model, a)
  {
    var e := EnvelopeWith(model.joints, box, v, acc);
    forall n | n in a.targets
      ensures n in model.joints && a.targets[n].Finite()
      ensures model.joints[n].lowerDeg <= a.targets[n].value <= model.joints[n].upperDeg
    {
      assert n in e.joints && e.joints[n] == ConstraintFor(model.joints[n]);
      assert e.joints[n].Contains(c.targets[n]);
    }
  }

  // ---- Goals of the rounding planner

  /** Rounding to two decimals. */
  function Round2(x: real): real {
    RoundHalfEven(x * 100.0) as real / 100.0
  }

  /** A rounded goal has an exact wire form whenever that form is in range. */
  lemma RoundedGoalsAreExact(x: real)
    ensures Convertible(Fin(Round2(x)), SCALE, -0x8000, 0x7FFF) <==> -0x8000 <= RoundHalfEven(x * 100.0) <= 0x7FFF
  {
    var k := RoundHalfEven(x * 100.0);
    HundredthsScale(k as real);
  }

  lemma HundredthsScale(k: real)
    ensures k / 100.0 * SCALE as real == k
  {
  }
}
