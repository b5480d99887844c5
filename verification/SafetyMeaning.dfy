/** What the safety checks mean in plain numbers: real bounds, infinities and missing values spelled out. */
module SafetyMeaning {
  import opened Bytes
  import opened Numbers
  import opened Lifecycle
  import opened Eligibility
  import opened Dynamics

  /** x is a number, and not below this bound. */
  predicate NotBelow(x: Num, bound: Num) {
    x.Fin? && (bound.NegInf? || (bound.Fin? && bound.value <= x.value))
  }

  predicate NotAbove(x: Num, bound: Num) {
    x.Fin? && (bound.PosInf? || (bound.Fin? && x.value <= bound.value))
  }

  /** a is strictly below b, as floats compare: nothing is below or above NaN. */
  predicate Below(a: Num, b: Num) {
    || (a.Fin? && b.Fin? && a.value < b.value)
    || (a.NegInf? && (b.Fin? || b.PosInf?))
    || (a.Fin? && b.PosInf?)
  }

  predicate Complete(j: JointConstraint) {
    && j.verified && j.minDeg.Some? && j.neutralDeg.Some? && j.maxDeg.Some?
    && Below(j.minDeg.value, j.neutralDeg.value) && Below(j.neutralDeg.value, j.maxDeg.value)
  }

  predicate InRange(r: Range, x: Num)
    requires r.min.Some? && r.max.Some?
  {
    NotBelow(x, r.min.value) && NotAbove(x, r.max.value)
  }

  predicate Bounded3(w: WorkspaceBounds) {
    && w.verified
    && w.x.min.Some? && w.x.max.Some? && Below(w.x.min.value, w.x.max.value)
    && w.y.min.Some? && w.y.max.Some? && Below(w.y.min.value, w.y.max.value)
    && w.z.min.Some? && w.z.max.Some? && Below(w.z.min.value, w.z.max.value)
  }

  predicate InBox(w: WorkspaceBounds, p: Point) {
    Bounded3(w) && InRange(w.x, p.x) && InRange(w.y, p.y) && InRange(w.z, p.z)
  }

  predicate JointFine(e: Envelope, n: string, angle: Num) {
    && n in e.joints && Complete(e.joints[n])
    && NotBelow(angle, e.joints[n].minDeg.value) && NotAbove(angle, e.joints[n].maxDeg.value)
  }

  predicate PoseFine(e: Envelope, c: Candidate) {
    && c.state in e.allowedStates && e.servosVerified && e.robotVerified && c.targets != map[]
    && (forall n :: n in c.targets ==> JointFine(e, n, c.targets[n]))
    && c.point.Some? && InBox(e.workspace, c.point.value)
  }

  predicate Positive(x: Num) {
    x.Fin? && x.value > 0.0
  }

  /** Every targeted joint has a sample between -limit and limit. */
  predicate RatesFine(c: Candidate, samples: map<string, Num>, limit: real) {
    forall n :: n in c.targets ==> n in samples && samples[n].Fin? && -limit <= samples[n].value <= limit
  }

  predicate AgeFine(age: Num, most: real) {
    age.Fin? && 0.0 <= age.value <= most
  }

  predicate PolicyFine(p: MotionPolicy) {
    Positive(p.commandTtlMs) && Positive(p.heartbeatTimeoutMs) && Positive(p.maxVelocity) && Positive(p.maxAcceleration)
  }

  predicate MotionFine(e: Envelope, p: MotionPolicy, c: Candidate, d: MotionDynamics)
    requires PolicyFine(p)
  {
    && AgeFine(d.commandAgeMs, p.commandTtlMs.value) && AgeFine(d.heartbeatAgeMs, p.heartbeatTimeoutMs.value)
    && RatesFine(c, d.velocities, p.maxVelocity.value) && RatesFine(c, d.accelerations, p.maxAcceleration.value)
    && (forall n :: n in d.velocities ==> n in e.joints) && (forall n :: n in d.accelerations ==> n in e.joints)
  }

  /** Everything that an authorization of motion requires. */
  predicate MayBeAuthorized(s: Snapshot, e: Envelope, c: Candidate, d: MotionDynamics) {
    && !s.latched && s.armed && !c.estopActive && PoseFine(e, c)
    && e.policy.Some? && PolicyFine(e.policy.value) && MotionFine(e, e.policy.value, c, d)
  }

  // ---- Poses

  lemma ContainsExactly(j: JointConstraint, angle: Num)
    ensures j.VerifiedComplete() <==> Complete(j)
    ensures j.Contains(angle)
       <==> Complete(j) && NotBelow(angle, j.minDeg.value) && NotAbove(angle, j.maxDeg.value)
  {
  }

  lemma BoxExactly(w: WorkspaceBounds, p: Point)
    ensures w.VerifiedComplete() <==> Bounded3(w)
    ensures w.Contains(p) <==> InBox(w, p)
  {
    RangeExactly(w.x, p.x);
    RangeExactly(w.y, p.y);
    RangeExactly(w.z, p.z);
  }

  lemma RangeExactly(r: Range, x: Num)
    ensures r.Ordered() <==> r.min.Some? && r.max.Some? && Below(r.min.value, r.max.value)
    ensures x.Finite() && r.Includes(x) <==> r.Ordered() && InRange(r, x)
  {
  }

  lemma PermittedExactly(e: Envelope, c: Candidate)
    ensures Permitted(e, c) <==> PoseFine(e, c)
  {
    forall n | n in c.targets
      ensures n in e.joints && e.joints[n].Contains(c.targets[n]) <==> JointFine(e, n, c.targets[n])
    {
      if n in e.joints {
        ContainsExactly(e.joints[n], c.targets[n]);
      }
    }
    if c.point.Some? {
      BoxExactly(e.workspace, c.point.value);
    }
  }

  // ---- Motion

  lemma BoundedExactly(c: Candidate, samples: map<string, Num>, limit: Num)
    requires limit.Fin?
    ensures Bounded(c, samples, limit) <==> RatesFine(c, samples, limit.value)
  {
    forall n | n in c.targets && n in samples
      ensures samples[n].Finite() && samples[n].Magnitude().AtMost(limit)
         <==> samples[n].Fin? && -limit.value <= samples[n].value <= limit.value
    {
    }
  }

  lemma WithinPolicyExactly(e: Envelope, p: MotionPolicy, c: Candidate, d: MotionDynamics)
    requires PolicyFine(p)
    ensures WithinPolicy(e, p, c, d) <==> MotionFine(e, p, c, d)
  {
    BoundedExactly(c, d.velocities, p.maxVelocity);
    BoundedExactly(c, d.accelerations, p.maxAcceleration);
  }

  lemma PolicyExactly(p: MotionPolicy)
    ensures p.Valid() <==> PolicyFine(p)
  {
  }

  // ---- What each violation code says

  /** The violation is there, code by code. */
  predicate PoseComplaint(e: Envelope, c: Candidate, v: Violation) {
    match v.code
    case StateNotAllowed => v.about == General && c.state !in e.allowedStates
    case EmptyJointTargets => v.about == General && |c.targets| == 0
    case JointModelUnverified =>
      || (v.about == General && !e.servosVerified)
      || (Targeted(e, c, v.about) && Known(e, c, v.about.joint) && !Complete(e.joints[v.about.joint]))
    case InvalidNumericTarget =>
      || (Targeted(e, c, v.about) && !c.targets[v.about.joint].Fin?)
      || (v.about == Workspace && Located(e, c) && !FinitePoint(c.point.value))
    case UnknownJoint =>
      Targeted(e, c, v.about) && c.targets[v.about.joint].Fin? && v.about.joint !in e.joints
    case JointLimitViolation =>
      && Targeted(e, c, v.about) && Known(e, c, v.about.joint) && Complete(e.joints[v.about.joint])
      && !(NotBelow(c.targets[v.about.joint], e.joints[v.about.joint].minDeg.value)
           && NotAbove(c.targets[v.about.joint], e.joints[v.about.joint].maxDeg.value))
    case WorkspaceModelUnverified => v.about == Workspace && !(e.robotVerified && Bounded3(e.workspace))
    case WorkspaceTargetRequired =>
      v.about == Workspace && e.robotVerified && Bounded3(e.workspace) && c.point.None?
    case WorkspaceLimitViolation =>
      && v.about == Workspace && Located(e, c) && FinitePoint(c.point.value)
      && !InBox(e.workspace, c.point.value)
    case _ => false
  }

  predicate Targeted(e: Envelope, c: Candidate, about: Subject) {
    about.Target? && e.servosVerified && about.joint in c.targets
  }

  predicate Known(e: Envelope, c: Candidate, n: string)
    requires n in c.targets
  {
    c.targets[n].Fin? && n in e.joints
  }

  predicate Located(e: Envelope, c: Candidate) {
    e.robotVerified && Bounded3(e.workspace) && c.point.Some?
  }

  predicate FinitePoint(p: Point) {
    p.x.Fin? && p.y.Fin? && p.z.Fin?
  }

  lemma PoseComplaintExactly(e: Envelope, c: Candidate, v: Violation)
    ensures StaticViolation(e, c, v) <==> PoseComplaint(e, c, v)
  {
    match v.about
    case Target(n) =>
      if n in c.targets && n in e.joints {
        ContainsExactly(e.joints[n], c.targets[n]);
      }
    case Workspace =>
      if c.point.Some? {
        BoxExactly(e.workspace, c.point.value);
      } else {
        BoxExactly(e.workspace, Point(NaN, NaN, NaN));
      }
    case _ =>
  }

  predicate MotionComplaint(e: Envelope, p: MotionPolicy, c: Candidate, d: MotionDynamics, v: Violation)
    requires PolicyFine(p)
  {
    match v.code
    case CommandAgeInvalid => v.about == General && !IsAgeNumber(d.commandAgeMs)
    case CommandStale =>
      v.about == General && IsAgeNumber(d.commandAgeMs) && d.commandAgeMs.value > p.commandTtlMs.value
    case HeartbeatAgeInvalid => v.about == General && !IsAgeNumber(d.heartbeatAgeMs)
    case HeartbeatStale =>
      v.about == General && IsAgeNumber(d.heartbeatAgeMs) && d.heartbeatAgeMs.value > p.heartbeatTimeoutMs.value
    case VelocitySampleMissing => v.about.Velocity? && v.about.joint in c.targets && v.about.joint !in d.velocities
    case AccelerationSampleMissing =>
      v.about.Acceleration? && v.about.joint in c.targets && v.about.joint !in d.accelerations
    case InvalidNumericTarget =>
      || (v.about.Velocity? && Sampled(c, d.velocities, v.about.joint) && !d.velocities[v.about.joint].Fin?)
      || (v.about.Acceleration? && Sampled(c, d.accelerations, v.about.joint) && !d.accelerations[v.about.joint].Fin?)
    case VelocityLimitViolation =>
      v.about.Velocity? && TooFast(c, d.velocities, v.about.joint, p.maxVelocity.value)
    case AccelerationLimitViolation =>
      v.about.Acceleration? && TooFast(c, d.accelerations, v.about.joint, p.maxAcceleration.value)
    case DynamicSampleUnknownJoint =>
      && v.about.Sample? && (v.about.joint in d.velocities || v.about.joint in d.accelerations)
      && v.about.joint !in e.joints
    case _ => false
  }

  predicate IsAgeNumber(age: Num) {
    age.Fin? && age.value >= 0.0
  }

  predicate Sampled(c: Candidate, samples: map<string, Num>, n: string) {
    n in c.targets && n in samples
  }

  predicate TooFast(c: Candidate, samples: map<string, Num>, n: string, limit: real) {
    && Sampled(c, samples, n) && samples[n].Fin?
    && (samples[n].value < -limit || samples[n].value > limit)
  }

  lemma MotionComplaintExactly(e: Envelope, p: MotionPolicy, c: Candidate, d: MotionDynamics, v: Violation)
    requires PolicyFine(p)
    ensures DynamicViolation(e, p, c, d, v) <==> MotionComplaint(e, p, c, d, v)
  {
    match v.about
    case Velocity(n) =>
      if Sampled(c, d.velocities, n) {
        RateFaultExactly(VelocityRate, c, d.velocities, p.maxVelocity, n);
      }
    case Acceleration(n) =>
      if Sampled(c, d.accelerations, n) {
        RateFaultExactly(AccelerationRate, c, d.accelerations, p.maxAcceleration, n);
      }
    case _ =>
  }

  lemma RateFaultExactly(rate: Rate, c: Candidate, samples: map<string, Num>, limit: Num, n: string)
    requires limit.Fin? && Sampled(c, samples, n)
    ensures RateFault(rate, samples, limit, n)
         == if !samples[n].Fin? then Some(InvalidNumericTarget)
            else if TooFast(c, samples, n, limit.value) then Some(rate.OverLimit()) else None
  {
  }

  // ---- The whole report

  /** What the checks after the lifecycle's report, an approval being the empty report. */
  ghost predicate Explained(e: Envelope, c: Candidate, d: MotionDynamics, found: seq<Violation>) {
    if !PoseFine(e, c) then Reports(found, (v: Violation) => PoseComplaint(e, c, v))
    else if e.policy.None? || !PolicyFine(e.policy.value) then found == [Violation(MotionPolicyUnavailable, General)]
    else Reports(found, (v: Violation) => MotionComplaint(e, e.policy.value, c, d, v))
  }

  lemma ReportIsExplained(e: Envelope, c: Candidate, d: MotionDynamics, found: seq<Violation>)
    requires !Permitted(e, c) ==> Reports(found, (v: Violation) => StaticViolation(e, c, v))
    requires Permitted(e, c) && !(e.policy.Some? && e.policy.value.Valid()) ==>
      found == [Violation(MotionPolicyUnavailable, General)]
    requires Permitted(e, c) && e.policy.Some? && e.policy.value.Valid() ==>
      Reports(found, (v: Violation) => DynamicViolation(e, e.policy.value, c, d, v))
    ensures Explained(e, c, d, found)
  {
    PermittedExactly(e, c);
    if !PoseFine(e, c) {
      forall v
        ensures v in found <==> PoseComplaint(e, c, v)
      {
        PoseComplaintExactly(e, c, v);
      }
    } else if e.policy.Some? && PolicyFine(e.policy.value) {
      PolicyExactly(e.policy.value);
      forall v
        ensures v in found <==> MotionComplaint(e, e.policy.value, c, d, v)
      {
        MotionComplaintExactly(e, e.policy.value, c, d, v);
      }
    }
  }
}
