/** The safety envelope, and the static check of a candidate pose against it. */
module Eligibility {
  import opened Bytes
  import opened Numbers

  datatype SystemState =
    | Booting | SelfTesting | Calibrating | Idle | Armed | Executing | Degraded | Faulted | Estopped | ShutDown

  datatype ViolationCode =
    | EstopActive | StateNotAllowed | JointModelUnverified | WorkspaceModelUnverified | EmptyJointTargets
    | UnknownJoint | InvalidNumericTarget | JointLimitViolation | WorkspaceTargetRequired
    | WorkspaceLimitViolation | MotionPolicyUnavailable | CommandAgeInvalid | CommandStale
    | HeartbeatAgeInvalid | HeartbeatStale | VelocitySampleMissing | AccelerationSampleMissing
    | DynamicSampleUnknownJoint | VelocityLimitViolation | AccelerationLimitViolation
    | LifecycleEstopLatched | WatchdogNotArmed | WatchdogUnhealthy

  /** What the detail text of a violation is about. */
  datatype Subject = General | Target(joint: string) | Velocity(joint: string) | Acceleration(joint: string)
    | Sample(joint: string) | Workspace

  datatype Violation = Violation(code: ViolationCode, about: Subject)

  datatype Decision = Approve | Reject | Stop

  datatype Assessment = Assessment(decision: Decision, violations: seq<Violation>)
  {
    predicate Approved() {
      decision.Approve? && violations == []
    }
  }

  datatype JointConstraint = JointConstraint(
    minDeg: Option<Num>, maxDeg: Option<Num>, neutralDeg: Option<Num>, verified: bool)
  {
    predicate VerifiedComplete() {
      && verified && minDeg.Some? && maxDeg.Some? && neutralDeg.Some?
      && minDeg.value.Less(neutralDeg.value) && neutralDeg.value.Less(maxDeg.value)
    }

    predicate Contains(angle: Num) {
      VerifiedComplete() && angle.Finite() && minDeg.value.AtMost(angle) && angle.AtMost(maxDeg.value)
    }
  }

  datatype Point = Point(x: Num, y: Num, z: Num)
  {
    predicate Finite() {
      x.Finite() && y.Finite() && z.Finite()
    }
  }

  datatype Range = Range(min: Option<Num>, max: Option<Num>)
  {
    predicate Ordered() {
      min.Some? && max.Some? && min.value.Less(max.value)
    }

    predicate Includes(n: Num) {
      Ordered() && min.value.AtMost(n) && n.AtMost(max.value)
    }
  }

  datatype WorkspaceBounds = WorkspaceBounds(x: Range, y: Range, z: Range, verified: bool)
  {
    predicate VerifiedComplete() {
      verified && x.Ordered() && y.Ordered() && z.Ordered()
    }

    predicate Contains(p: Point) {
      VerifiedComplete() && p.Finite() && x.Includes(p.x) && y.Includes(p.y) && z.Includes(p.z)
    }
  }

  datatype MotionPolicy = MotionPolicy(
    commandTtlMs: Num, heartbeatTimeoutMs: Num, maxVelocity: Num, maxAcceleration: Num)
  {
    predicate Valid() {
      && IsPositive(commandTtlMs) && IsPositive(heartbeatTimeoutMs)
      && IsPositive(maxVelocity) && IsPositive(maxAcceleration)
    }
  }

  datatype Envelope = Envelope(
    joints: map<string, JointConstraint>, workspace: WorkspaceBounds, allowedStates: set<SystemState>,
    robotVerified: bool, servosVerified: bool, policy: Option<MotionPolicy>)

  datatype Candidate = Candidate(
    state: SystemState, estopActive: bool, targets: map<string, Num>, point: Option<Point>)

  // ---- What can be wrong

  function TargetFault(e: Envelope, name: string, target: Num): Option<ViolationCode> {
    if !target.Finite() then Some(InvalidNumericTarget)
    else if name !in e.joints then Some(UnknownJoint)
    else if !e.joints[name].VerifiedComplete() then Some(JointModelUnverified)
    else if !e.joints[name].Contains(target) then Some(JointLimitViolation)
    else None
  }

  predicate TargetViolation(e: Envelope, c: Candidate, v: Violation) {
    && v.about.Target? && v.about.joint in c.targets
    && TargetFault(e, v.about.joint, c.targets[v.about.joint]) == Some(v.code)
  }

  function WorkspaceFault(e: Envelope, c: Candidate): Option<ViolationCode> {
    if !e.robotVerified || !e.workspace.VerifiedComplete() then Some(WorkspaceModelUnverified)
    else if c.point.None? then Some(WorkspaceTargetRequired)
    else if !c.point.value.Finite() then Some(InvalidNumericTarget)
    else if !e.workspace.Contains(c.point.value) then Some(WorkspaceLimitViolation)
    else None
  }

  predicate StaticViolation(e: Envelope, c: Candidate, v: Violation) {
    match v.about
    case General =>
      || (v.code.StateNotAllowed? && c.state !in e.allowedStates)
      || (v.code.EmptyJointTargets? && c.targets == map[])
      || (v.code.JointModelUnverified? && !e.servosVerified)
    case Target(_) => e.servosVerified && TargetViolation(e, c, v)
    case Workspace => WorkspaceFault(e, c) == Some(v.code)
    case _ => false
  }

  /** A pose the envelope permits. */
  predicate Permitted(e: Envelope, c: Candidate) {
    && c.state in e.allowedStates
    && e.servosVerified && e.robotVerified
    && c.targets != map[]
    && (forall n :: n in c.targets ==> n in e.joints && e.joints[n].Contains(c.targets[n]))
    && c.point.Some? && e.workspace.Contains(c.point.value)
  }

  /** Nothing is wrong with a pose exactly when it is permitted. */
  lemma NoViolationMeansPermitted(e: Envelope, c: Candidate)
    ensures (forall v :: !StaticViolation(e, c, v)) <==> Permitted(e, c)
  {
    if forall v :: !StaticViolation(e, c, v) {
      assert !StaticViolation(e, c, Violation(StateNotAllowed, General));
      assert !StaticViolation(e, c, Violation(EmptyJointTargets, General));
      assert !StaticViolation(e, c, Violation(JointModelUnverified, General));
      forall n | n in c.targets
        ensures n in e.joints && e.joints[n].Contains(c.targets[n])
      {
        TargetFine(e, c, n);
      }
      WorkspaceFine(e, c);
    }
  }

  lemma TargetFine(e: Envelope, c: Candidate, n: string)
    requires n in c.targets && e.servosVerified && forall v :: !StaticViolation(e, c, v)
    ensures n in e.joints && e.joints[n].Contains(c.targets[n])
  {
    var fault := TargetFault(e, n, c.targets[n]);
    if fault.Some? {
      assert StaticViolation(e, c, Violation(fault.value, Target(n)));
    }
  }

  lemma WorkspaceFine(e: Envelope, c: Candidate)
    requires forall v :: !StaticViolation(e, c, v)
    ensures e.robotVerified && c.point.Some? && e.workspace.Contains(c.point.value)
  {
    var fault := WorkspaceFault(e, c);
    if fault.Some? {
      assert StaticViolation(e, c, Violation(fault.value, Workspace));
    }
  }

  // ---- The check

  /** Reports every violation and nothing else, each once; the order is that of the dictionaries, left open here. */
  ghost predicate Reports(found: seq<Violation>, violates: Violation -> bool) {
    && (forall v :: v in found <==> violates(v))
    && Distinct(found)
  }

  predicate Distinct(found: seq<Violation>) {
    forall i, j :: 0 <= i < j < |found| ==> found[i] != found[j]
  }

  lemma DistinctConcat(a: seq<Violation>, b: seq<Violation>)
    requires Distinct(a) && Distinct(b) && forall v :: v in a ==> v !in b
    ensures Distinct(a + b)
  {
    forall i, j | 0 <= i < j < |a + b|
      ensures (a + b)[i] != (a + b)[j]
    {
      if i < |a| <= j {
        assert a[i] in a && b[j - |a|] in b;
      }
    }
  }

  method AssessMotionEligibility(e: Envelope, c: Candidate) returns (r: Assessment)
    ensures c.estopActive ==> r == Assessment(Stop, [Violation(EstopActive, General)])
    ensures !c.estopActive ==>
      && Reports(r.violations, (v: Violation) => StaticViolation(e, c, v))
      && r.decision == if r.violations == [] then Approve else Reject
    ensures r.Approved() <==> !c.estopActive && Permitted(e, c)
  {
    if c.estopActive {
      return Assessment(Stop, [Violation(EstopActive, General)]);
    }
    var general := GeneralChecks(e, c);
    var targets: seq<Violation> := [];
    if e.servosVerified {
      targets := CheckTargets(e, c);
    }
    var fault := WorkspaceFault(e, c);
    var workspace := if fault.Some? then [Violation(fault.value, Workspace)] else [];
    StaticReport(e, c, general, targets, workspace);
    var violations := general + targets + workspace;
    NoViolationMeansPermitted(e, c);
    r := Assessment(if violations == [] then Approve else Reject, violations);
  }

  lemma InThree(a: seq<Violation>, b: seq<Violation>, c: seq<Violation>, v: Violation)
    ensures v in a + b + c <==> v in a || v in b || v in c
  {
  }

  lemma StaticReport(e: Envelope, c: Candidate, general: seq<Violation>, targets: seq<Violation>,
                     workspace: seq<Violation>)
    requires Reports(general, (v: Violation) => v.about.General? && StaticViolation(e, c, v))
    requires if e.servosVerified then Reports(targets, (v: Violation) => TargetViolation(e, c, v)) else targets == []
    requires workspace
          == if WorkspaceFault(e, c).Some? then [Violation(WorkspaceFault(e, c).value, Workspace)] else []
    ensures Reports(general + targets + workspace, (v: Violation) => StaticViolation(e, c, v))
    ensures general + targets + workspace == [] <==> forall v :: !StaticViolation(e, c, v)
  {
    DistinctConcat(general, targets);
    DistinctConcat(general + targets, workspace);
    var all := general + targets + workspace;
    forall v
      ensures v in all <==> StaticViolation(e, c, v)
    {
      InThree(general, targets, workspace, v);
    }
    if all != [] {
      assert all[0] in all;
    }
  }

  method GeneralChecks(e: Envelope, c: Candidate) returns (found: seq<Violation>)
    ensures Reports(found, (v: Violation) => v.about.General? && StaticViolation(e, c, v))
  {
    found := [];
    if c.state !in e.allowedStates {
      found := found + [Violation(StateNotAllowed, General)];
    }
    if c.targets == map[] {
      found := found + [Violation(EmptyJointTargets, General)];
    }
    if !e.servosVerified {
      found := found + [Violation(JointModelUnverified, General)];
    }
  }

  /** The loop over the joint targets. */
  method CheckTargets(e: Envelope, c: Candidate) returns (found: seq<Violation>)
    ensures Reports(found, (v: Violation) => TargetViolation(e, c, v))
  {
    found := [];
    var left := c.targets.Keys;
    while left != {}
      invariant left <= c.targets.Keys
      invariant forall v :: v in found <==> TargetViolation(e, c, v) && v.about.joint !in left
      invariant Distinct(found)
    {
      var name :| name in left;
      left := left - {name};
      var target := c.targets[name];
      if !target.Finite() {
        found := found + [Violation(InvalidNumericTarget, Target(name))];
        continue;
      }
      if name !in e.joints {
        found := found + [Violation(UnknownJoint, Target(name))];
        continue;
      }
      if !e.joints[name].VerifiedComplete() {
        found := found + [Violation(JointModelUnverified, Target(name))];
        continue;
      }
      if !e.joints[name].Contains(target) {
        found := found + [Violation(JointLimitViolation, Target(name))];
      }
    }
  }
}
