/** Freshness, velocity and acceleration checks on top of the static ones. */
module Dynamics {
  import opened Bytes
  import opened Numbers
  import opened Eligibility

  datatype MotionDynamics = MotionDynamics(
    commandAgeMs: Num, heartbeatAgeMs: Num, velocities: map<string, Num>, accelerations: map<string, Num>)

  datatype Rate = VelocityRate | AccelerationRate
  {
    function About(joint: string): Subject {
      if VelocityRate? then Velocity(joint) else Acceleration(joint)
    }

    predicate IsAbout(s: Subject) {
      if VelocityRate? then s.Velocity? else s.Acceleration?
    }

    function Missing(): ViolationCode {
      if VelocityRate? then VelocitySampleMissing else AccelerationSampleMissing
    }

    function OverLimit(): ViolationCode {
      if VelocityRate? then VelocityLimitViolation else AccelerationLimitViolation
    }
  }

  // ---- What can be wrong

  function RateFault(rate: Rate, samples: map<string, Num>, limit: Num, n: string): Option<ViolationCode> {
    if n !in samples then Some(rate.Missing())
    else if !samples[n].Finite() then Some(InvalidNumericTarget)
    else if limit.Less(samples[n].Magnitude()) then Some(rate.OverLimit())
    else None
  }

  predicate RateViolation(rate: Rate, c: Candidate, samples: map<string, Num>, limit: Num, v: Violation) {
    && rate.IsAbout(v.about) && v.about.joint in c.targets
    && RateFault(rate, samples, limit, v.about.joint) == Some(v.code)
  }

  function AgeFault(age: Num, most: Num, invalid: ViolationCode, stale: ViolationCode): Option<ViolationCode> {
    if !IsAge(age) then Some(invalid) else if most.Less(age) then Some(stale) else None
  }

  predicate UnknownSample(e: Envelope, d: MotionDynamics, v: Violation) {
    && v.code.DynamicSampleUnknownJoint? && v.about.Sample?
    && (v.about.joint in d.velocities || v.about.joint in d.accelerations) && v.about.joint !in e.joints
  }

  predicate AgeViolation(p: MotionPolicy, d: MotionDynamics, v: Violation) {
    && v.about.General?
    && (AgeFault(d.commandAgeMs, p.commandTtlMs, CommandAgeInvalid, CommandStale) == Some(v.code)
        || AgeFault(d.heartbeatAgeMs, p.heartbeatTimeoutMs, HeartbeatAgeInvalid, HeartbeatStale) == Some(v.code))
  }

  predicate DynamicViolation(e: Envelope, p: MotionPolicy, c: Candidate, d: MotionDynamics, v: Violation) {
    || AgeViolation(p, d, v)
    || RateViolation(VelocityRate, c, d.velocities, p.maxVelocity, v)
    || RateViolation(AccelerationRate, c, d.accelerations, p.maxAcceleration, v)
    || UnknownSample(e, d, v)
  }

  predicate Current(age: Num, most: Num) {
    IsAge(age) && age.AtMost(most)
  }

  predicate Bounded(c: Candidate, samples: map<string, Num>, limit: Num) {
    forall n :: n in c.targets ==> n in samples && samples[n].Finite() && samples[n].Magnitude().AtMost(limit)
  }

  /** Fresh, sampled for every target and no other joint than the envelope's, and within the policy's rates. */
  predicate WithinPolicy(e: Envelope, p: MotionPolicy, c: Candidate, d: MotionDynamics) {
    && Current(d.commandAgeMs, p.commandTtlMs) && Current(d.heartbeatAgeMs, p.heartbeatTimeoutMs)
    && Bounded(c, d.velocities, p.maxVelocity) && Bounded(c, d.accelerations, p.maxAcceleration)
    && (forall n :: n in d.velocities ==> n in e.joints) && (forall n :: n in d.accelerations ==> n in e.joints)
  }

  lemma NoViolationMeansWithinPolicy(e: Envelope, p: MotionPolicy, c: Candidate, d: MotionDynamics)
    requires p.Valid()
    ensures (forall v :: !DynamicViolation(e, p, c, d, v)) <==> WithinPolicy(e, p, c, d)
  {
    if forall v :: !DynamicViolation(e, p, c, d, v) {
      AgesFine(e, p, c, d);
      RatesFine(e, p, c, d);
      forall n | n in d.velocities || n in d.accelerations
        ensures n in e.joints
      {
        assert !DynamicViolation(e, p, c, d, Violation(DynamicSampleUnknownJoint, Sample(n)));
      }
    }
  }

  lemma AgesFine(e: Envelope, p: MotionPolicy, c: Candidate, d: MotionDynamics)
    requires p.Valid() && forall v :: !DynamicViolation(e, p, c, d, v)
    ensures Current(d.commandAgeMs, p.commandTtlMs) && Current(d.heartbeatAgeMs, p.heartbeatTimeoutMs)
  {
    assert !DynamicViolation(e, p, c, d, Violation(CommandAgeInvalid, General));
    assert !DynamicViolation(e, p, c, d, Violation(CommandStale, General));
    assert !DynamicViolation(e, p, c, d, Violation(HeartbeatAgeInvalid, General));
    assert !DynamicViolation(e, p, c, d, Violation(HeartbeatStale, General));
  }

  lemma RatesFine(e: Envelope, p: MotionPolicy, c: Candidate, d: MotionDynamics)
    requires p.Valid() && forall v :: !DynamicViolation(e, p, c, d, v)
    ensures Bounded(c, d.velocities, p.maxVelocity) && Bounded(c, d.accelerations, p.maxAcceleration)
  {
    forall n | n in c.targets
      ensures RateFault(VelocityRate, d.velocities, p.maxVelocity, n).None?
      ensures RateFault(AccelerationRate, d.accelerations, p.maxAcceleration, n).None?
    {
      var f := RateFault(VelocityRate, d.velocities, p.maxVelocity, n);
      var g := RateFault(AccelerationRate, d.accelerations, p.maxAcceleration, n);
      if f.Some? {
        assert DynamicViolation(e, p, c, d, Violation(f.value, Velocity(n)));
      }
      if g.Some? {
        assert DynamicViolation(e, p, c, d, Violation(g.value, Acceleration(n)));
      }
    }
  }

  // ---- The check

  method AssessDynamicMotionEligibility(e: Envelope, c: Candidate, d: MotionDynamics) returns (r: Assessment)
    ensures r.Approved() <==>
      && !c.estopActive && Permitted(e, c)
      && e.policy.Some? && e.policy.value.Valid() && WithinPolicy(e, e.policy.value, c, d)
    ensures c.estopActive ==> r == Assessment(Stop, [Violation(EstopActive, General)])
    ensures !c.estopActive ==> r.decision == if r.violations == [] then Approve else Reject
    ensures !c.estopActive && !Permitted(e, c) ==> Reports(r.violations, (v: Violation) => StaticViolation(e, c, v))
    ensures !c.estopActive && Permitted(e, c) && !(e.policy.Some? && e.policy.value.Valid()) ==>
      r.violations == [Violation(MotionPolicyUnavailable, General)]
    ensures !c.estopActive && Permitted(e, c) && e.policy.Some? && e.policy.value.Valid() ==>
      Reports(r.violations, (v: Violation) => DynamicViolation(e, e.policy.value, c, d, v))
  {
    r := AssessMotionEligibility(e, c);
    if !r.Approved() {
      return;
    }
    if e.policy.None? || !e.policy.value.Valid() {
      return Assessment(Reject, [Violation(MotionPolicyUnavailable, General)]);
    }
    var violations := DynamicChecks(e, e.policy.value, c, d);
    r := Assessment(if violations == [] then Approve else Reject, violations);
  }

  /** The checks against a valid policy. */
  method DynamicChecks(e: Envelope, p: MotionPolicy, c: Candidate, d: MotionDynamics)
    returns (violations: seq<Violation>)
    requires p.Valid()
    ensures Reports(violations, (v: Violation) => DynamicViolation(e, p, c, d, v))
    ensures violations == [] <==> WithinPolicy(e, p, c, d)
  {
    var command := CheckAge(d.commandAgeMs, p.commandTtlMs, CommandAgeInvalid, CommandStale);
    var heartbeat := CheckAge(d.heartbeatAgeMs, p.heartbeatTimeoutMs, HeartbeatAgeInvalid, HeartbeatStale);
    var velocities := CheckRate(VelocityRate, c, d.velocities, p.maxVelocity);
    var accelerations := CheckRate(AccelerationRate, c, d.accelerations, p.maxAcceleration);
    var unknown := CheckUnknown(e, d);
    DynamicReport(e, p, c, d, command + heartbeat, velocities, accelerations, unknown);
    NoViolationMeansWithinPolicy(e, p, c, d);
    violations := command + heartbeat + unknown + velocities + accelerations;
  }

  lemma DynamicReport(e: Envelope, p: MotionPolicy, c: Candidate, d: MotionDynamics, ages: seq<Violation>,
                      velocities: seq<Violation>, accelerations: seq<Violation>, unknown: seq<Violation>)
    requires Reports(ages, (v: Violation) => AgeViolation(p, d, v))
    requires Reports(velocities, (v: Violation) => RateViolation(VelocityRate, c, d.velocities, p.maxVelocity, v))
    requires Reports(accelerations, (v: Violation) =>
               RateViolation(AccelerationRate, c, d.accelerations, p.maxAcceleration, v))
    requires Reports(unknown, (v: Violation) => UnknownSample(e, d, v))
    ensures var all := ages + unknown + velocities + accelerations;
      && Reports(all, (v: Violation) => DynamicViolation(e, p, c, d, v))
      && (all == [] <==> forall v :: !DynamicViolation(e, p, c, d, v))
  {
    DistinctConcat(ages, unknown);
    DistinctConcat(ages + unknown, velocities);
    DistinctConcat(ages + unknown + velocities, accelerations);
    var all := ages + unknown + velocities + accelerations;
    forall v
      ensures v in all <==> DynamicViolation(e, p, c, d, v)
    {
      InFour(ages, unknown, velocities, accelerations, v);
    }
    if all != [] {
      assert all[0] in all;
    }
  }

  lemma InFour(a: seq<Violation>, b: seq<Violation>, c: seq<Violation>, d: seq<Violation>, v: Violation)
    ensures v in a + b + c + d <==> v in a || v in b || v in c || v in d
  {
  }

  method CheckAge(age: Num, most: Num, invalid: ViolationCode, stale: ViolationCode) returns (found: seq<Violation>)
    requires IsPositive(most)
    ensures found == if AgeFault(age, most, invalid, stale).Some?
                     then [Violation(AgeFault(age, most, invalid, stale).value, General)] else []
  {
    found := [];
    if !age.Finite() || age.Less(ZERO) {
      found := [Violation(invalid, General)];
    } else if most.Less(age) {
      found := [Violation(stale, General)];
    }
  }

  /** The loops over missing samples and over samples, for one of the two rates. */
  method CheckRate(rate: Rate, c: Candidate, samples: map<string, Num>, limit: Num) returns (found: seq<Violation>)
    ensures Reports(found, (v: Violation) => RateViolation(rate, c, samples, limit, v))
  {
    found := [];
    var missing := c.targets.Keys - samples.Keys;
    while missing != {}
      invariant missing <= c.targets.Keys - samples.Keys
      invariant forall v :: v in found <==>
        RateViolation(rate, c, samples, limit, v) && v.about.joint !in samples && v.about.joint !in missing
      invariant Distinct(found)
    {
      var name :| name in missing;
      missing := missing - {name};
      found := found + [Violation(rate.Missing(), rate.About(name))];
    }
    var left := samples.Keys;
    while left != {}
      invariant left <= samples.Keys
      invariant forall v :: v in found <==> RateViolation(rate, c, samples, limit, v) && v.about.joint !in left
      invariant Distinct(found)
    {
      var name :| name in left;
      left := left - {name};
      if name !in c.targets {
        continue;
      }
      if !samples[name].Finite() {
        found := found + [Violation(InvalidNumericTarget, rate.About(name))];
      } else if limit.Less(samples[name].Magnitude()) {
        found := found + [Violation(rate.OverLimit(), rate.About(name))];
      }
    }
  }

  method CheckUnknown(e: Envelope, d: MotionDynamics) returns (found: seq<Violation>)
    ensures Reports(found, (v: Violation) => UnknownSample(e, d, v))
  {
    found := [];
    var left := d.velocities.Keys + d.accelerations.Keys - e.joints.Keys;
    while left != {}
      invariant left <= d.velocities.Keys + d.accelerations.Keys - e.joints.Keys
      invariant forall v :: v in found <==> UnknownSample(e, d, v) && v.about.joint !in left
      invariant Distinct(found)
    {
      var name :| name in left;
      left := left - {name};
      found := found + [Violation(DynamicSampleUnknownJoint, Sample(name))];
    }
  }
}
