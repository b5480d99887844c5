/** The only place where a motion authorization is made: lifecycle first, then the static and dynamic checks. */
module Supervisor {
  import opened Bytes
  import opened Numbers
  import opened Lifecycle
  import opened Eligibility
  import opened Dynamics
  import SafetyMeaning

  datatype Authorization = Authorization(
    id: seq<byte>, lifecycleSequence: nat, targets: map<string, Num>, point: Point, commandTtlMs: Num,
    maxVelocity: Num, maxAcceleration: Num)

  datatype SafetyResult = SafetyResult(
    decision: Decision, violations: seq<Violation>, lifecycle: Snapshot, authorization: Option<Authorization>)
  {
    predicate Approved() {
      decision.Approve? && violations == [] && authorization.Some?
    }
  }

  /** The lifecycle after it was told the candidate's stop input and the heartbeat's age. */
  function Informed(s: Snapshot, c: Candidate, d: MotionDynamics, timeout: Num): Snapshot {
    Observe(SetPhysical(s, c.estopActive), d.heartbeatAgeMs, timeout)
  }

  /** In terms of the state before the call: motion may be authorized. */
  predicate Safe(s: Snapshot, e: Envelope, c: Candidate, d: MotionDynamics) {
    && !s.latched && s.armed && !c.estopActive
    && Permitted(e, c)
    && e.policy.Some? && e.policy.value.Valid() && WithinPolicy(e, e.policy.value, c, d)
  }

  /** Which comes to this, in plain numbers. */
  lemma SafeExactly(s: Snapshot, e: Envelope, c: Candidate, d: MotionDynamics)
    ensures Safe(s, e, c, d) <==> SafetyMeaning.MayBeAuthorized(s, e, c, d)
  {
    SafetyMeaning.PermittedExactly(e, c);
    if e.policy.Some? {
      var p := e.policy.value;
      SafetyMeaning.PolicyExactly(p);
      if SafetyMeaning.PolicyFine(p) {
        SafetyMeaning.WithinPolicyExactly(e, p, c, d);
      }
    }
  }

  /** Being told sets a latch for an active stop and, when armed, for an age that is no number from 0 to the timeout. */
  lemma LatchedExactly(s: Snapshot, c: Candidate, d: MotionDynamics, timeout: Num)
    requires IsPositive(timeout)
    ensures Informed(s, c, d, timeout).latched
       <==> s.latched || c.estopActive || (s.armed && !SafetyMeaning.AgeFine(d.heartbeatAgeMs, timeout.value))
    ensures Informed(s, c, d, timeout).armed == s.armed
  {
  }

  /** Equal heartbeat timeouts, in the sense of comparing floats. */
  predicate SameTimeout(e: Envelope, policy: LifecyclePolicy) {
    e.policy.Some? ==> e.policy.value.heartbeatTimeoutMs.Same(policy.heartbeatTimeoutMs)
  }

  /** Being told unblocks motion exactly when no latch was set, no stop is active, and the heartbeat is in time. */
  lemma UnblockedExactly(s: Snapshot, c: Candidate, d: MotionDynamics, timeout: Num)
    requires Coherent(s) && IsPositive(timeout)
    ensures !Informed(s, c, d, timeout).MotionBlocked()
       <==> !s.latched && s.armed && !c.estopActive && Current(d.heartbeatAgeMs, timeout)
  {
  }

  lemma InformedIsCoherent(s: Snapshot, c: Candidate, d: MotionDynamics, timeout: Num)
    requires Coherent(s)
    ensures Coherent(Informed(s, c, d, timeout))
    ensures c.estopActive ==> Informed(s, c, d, timeout).latched
  {
  }

  /** Codes that the checks can produce, but never under this supervisor. */
  predicate Unreachable(code: ViolationCode) {
    code.EstopActive? || code.HeartbeatAgeInvalid? || code.HeartbeatStale?
  }

  predicate Ruled(r: Assessment) {
    forall v :: v in r.violations ==> !Unreachable(v.code)
  }

  /** With the heartbeat in time and no stop input, the checks do not produce them. */
  lemma InTimeRulesThemOut(e: Envelope, c: Candidate, d: MotionDynamics, r: Assessment)
    requires !c.estopActive
    requires e.policy.Some? && e.policy.value.Valid() ==> Current(d.heartbeatAgeMs, e.policy.value.heartbeatTimeoutMs)
    requires !Permitted(e, c) ==> Reports(r.violations, (v: Violation) => StaticViolation(e, c, v))
    requires Permitted(e, c) && !(e.policy.Some? && e.policy.value.Valid()) ==>
      r.violations == [Violation(MotionPolicyUnavailable, General)]
    requires Permitted(e, c) && e.policy.Some? && e.policy.value.Valid() ==>
      Reports(r.violations, (v: Violation) => DynamicViolation(e, e.policy.value, c, d, v))
    ensures Ruled(r)
  {
    forall v | v in r.violations
      ensures !Unreachable(v.code)
    {
      if !Permitted(e, c) {
        assert StaticViolation(e, c, v);
      } else if e.policy.Some? && e.policy.value.Valid() {
        assert DynamicViolation(e, e.policy.value, c, d, v);
      }
    }
  }

  class MotionSafetySupervisor {
    const envelope: Envelope
    const lifecycle: SafetyLifecycleController

    ghost predicate Valid()
      reads this, lifecycle
    {
      lifecycle.Valid() && SameTimeout(envelope, lifecycle.policy)
    }

    constructor (envelope: Envelope, lifecycle: SafetyLifecycleController)
      requires lifecycle.Valid() && SameTimeout(envelope, lifecycle.policy)
      ensures Valid() && this.envelope == envelope && this.lifecycle == lifecycle
    {
      this.envelope, this.lifecycle := envelope, lifecycle;
    }

    /** What the lifecycle alone decides, if it does. */
    function EvaluateLifecycle(s: Snapshot): (r: Option<SafetyResult>)
      ensures r.None? <==> !s.MotionBlocked()
      ensures r.Some? ==>
        && !r.value.decision.Approve? && r.value.violations != [] && r.value.authorization.None?
        && r.value.lifecycle == s && (r.value.decision.Stop? <==> s.latched || s.physicalActive)
        && forall v :: v in r.value.violations ==> !Unreachable(v.code)
    {
      if s.latched || s.physicalActive then
        Some(SafetyResult(Stop, [Violation(LifecycleEstopLatched, General)], s, None))
      else if !s.armed then
        Some(SafetyResult(Reject, [Violation(ViolationCode.WatchdogNotArmed, General)], s, None))
      else if !s.healthy then
        Some(SafetyResult(Reject, [Violation(ViolationCode.WatchdogUnhealthy, General)], s, None))
      else None
    }

    /** `id` is the fresh identifier an authorization gets. */
    method Evaluate(c: Candidate, d: MotionDynamics, id: seq<byte>) returns (r: SafetyResult)
      requires Valid()
      modifies lifecycle
      ensures Valid()
      ensures r.lifecycle == lifecycle.snapshot
           == Informed(old(lifecycle.snapshot), c, d, lifecycle.policy.heartbeatTimeoutMs)
      ensures r.Approved() <==> SafetyMeaning.MayBeAuthorized(old(lifecycle.snapshot), envelope, c, d)
      ensures r.Approved() ==>
        var p := envelope.policy.value;
        && !lifecycle.snapshot.MotionBlocked()
        && r.authorization.value == Authorization(id, lifecycle.snapshot.sequence, c.targets, c.point.value,
                                                  p.commandTtlMs, p.maxVelocity, p.maxAcceleration)
      ensures !r.Approved() ==> !r.decision.Approve? && r.violations != [] && r.authorization.None?
      ensures r.decision.Stop? <==> lifecycle.snapshot.latched
      ensures r.decision.Stop? <==>
        || old(lifecycle.snapshot).latched || c.estopActive
        || (old(lifecycle.snapshot).armed
            && !SafetyMeaning.AgeFine(d.heartbeatAgeMs, lifecycle.policy.heartbeatTimeoutMs.value))
      ensures if lifecycle.snapshot.latched then r.violations == [Violation(LifecycleEstopLatched, General)]
              else if !lifecycle.snapshot.armed then
                r.violations == [Violation(ViolationCode.WatchdogNotArmed, General)]
              else SafetyMeaning.Explained(envelope, c, d, r.violations)
      ensures forall v :: v in r.violations ==> !Unreachable(v.code)
    {
      ghost var before := lifecycle.snapshot;
      InformedIsCoherent(before, c, d, lifecycle.policy.heartbeatTimeoutMs);
      UnblockedExactly(before, c, d, lifecycle.policy.heartbeatTimeoutMs);
      LatchedExactly(before, c, d, lifecycle.policy.heartbeatTimeoutMs);
      SafeExactly(before, envelope, c, d);
      lifecycle.SetPhysicalEstop(c.estopActive);
      lifecycle.ObserveHeartbeatAge(d.heartbeatAgeMs);
      var snapshot := lifecycle.snapshot;
      var verdict := EvaluateLifecycle(snapshot);
      if verdict.Some? {
        return verdict.value;
      }
      var eligibility := AssessDynamicMotionEligibility(envelope, c, d);
      InTimeRulesThemOut(envelope, c, d, eligibility);
      SafetyMeaning.ReportIsExplained(envelope, c, d, eligibility.violations);
      if !eligibility.Approved() {
        return SafetyResult(eligibility.decision, eligibility.violations, snapshot, None);
      }
      if envelope.policy.None? || !envelope.policy.value.Valid() || c.point.None? {
        assert false;
      }
      var p := envelope.policy.value;
      r := SafetyResult(Approve, [], snapshot,
                        Some(Authorization(id, snapshot.sequence, c.targets, c.point.value,
                                           p.commandTtlMs, p.maxVelocity, p.maxAcceleration)));
    }
  }

  /** Any change that blocks motion after an approval shows in the sequence number the authorization carries. */
  lemma BlockedMotionIsNoticed(ops: seq<Operation>, timeout: Num, i: nat, k: nat)
    requires i <= |ops| && k <= |ops|
    requires !State(ops, timeout, i).MotionBlocked() && State(ops, timeout, k).MotionBlocked()
    ensures State(ops, timeout, i).sequence != State(ops, timeout, k).sequence
  {
    EqualSequenceEqualState(ops, timeout, i, k);
  }
}
