/** The latched emergency-stop and watchdog lifecycle of the host. */
module Lifecycle {
  import opened Numbers

  datatype StopCause = HardwareEstop | SoftwareEstop | WatchdogTimeout | WatchdogInvalid

  datatype ResetDenial = NoLatch | PhysicalEstopActive | WatchdogNotArmed | WatchdogUnhealthy

  datatype LifecyclePolicy = LifecyclePolicy(heartbeatTimeoutMs: Num, requireManualReset: bool)
  {
    predicate Valid() {
      heartbeatTimeoutMs.Finite() && ZERO.Less(heartbeatTimeoutMs) && requireManualReset
    }
  }

  /** The text of the latest reason is left out. */
  datatype Snapshot = Snapshot(
    sequence: nat, armed: bool, healthy: bool, physicalActive: bool, latched: bool, causes: set<StopCause>)
  {
    predicate MotionBlocked() {
      latched || physicalActive || !armed || !healthy
    }
  }

  const FRESH: Snapshot := Snapshot(0, false, false, false, false, {})

  // ---- Specification of the operations

  function Latch(s: Snapshot, cause: StopCause): Snapshot {
    s.(sequence := s.sequence + 1, latched := true, causes := s.causes + {cause})
  }

  function Arm(s: Snapshot): Snapshot {
    if s.armed then s else s.(sequence := s.sequence + 1, armed := true, healthy := false)
  }

  function Disarm(s: Snapshot): Snapshot {
    if !s.armed && !s.healthy then s else s.(sequence := s.sequence + 1, armed := false, healthy := false)
  }

  function Observe(s: Snapshot, age: Num, timeout: Num): Snapshot {
    if !s.armed then s
    else if !IsAge(age) then Latch(s, WatchdogInvalid).(healthy := false)
    else if timeout.Less(age) then Latch(s, WatchdogTimeout).(healthy := false)
    else if s.healthy then s
    else s.(sequence := s.sequence + 1, healthy := true)
  }

  function SetPhysical(s: Snapshot, active: bool): Snapshot {
    if active then Latch(s, HardwareEstop).(physicalActive := true)
    else if !s.physicalActive then s
    else s.(sequence := s.sequence + 1, physicalActive := false)
  }

  function Denials(s: Snapshot): seq<ResetDenial> {
    if !s.latched then [NoLatch]
    else
      (if s.physicalActive then [PhysicalEstopActive] else [])
      + (if !s.armed then [WatchdogNotArmed] else if !s.healthy then [WatchdogUnhealthy] else [])
  }

  function Reset(s: Snapshot): Snapshot {
    if Denials(s) != [] then s
    else s.(sequence := s.sequence + 1, latched := false, causes := {})
  }

  class SafetyLifecycleController {
    const policy: LifecyclePolicy
    var snapshot: Snapshot

    ghost predicate Valid()
      reads this
    {
      policy.Valid() && Coherent(snapshot)
    }

    constructor (policy: LifecyclePolicy)
      requires policy.Valid()
      ensures Valid() && this.policy == policy && snapshot == FRESH
    {
      this.policy := policy;
      snapshot := FRESH;
    }

    method LatchFor(cause: StopCause, healthy: bool, physicalActive: bool)
      modifies this
      ensures snapshot == Latch(old(snapshot), cause).(healthy := healthy, physicalActive := physicalActive)
    {
      var causes := snapshot.causes + {cause};
      snapshot := Snapshot(snapshot.sequence + 1, snapshot.armed, healthy, physicalActive, true, causes);
    }

    method ArmWatchdog()
      requires Valid()
      modifies this
      ensures Valid() && snapshot == Arm(old(snapshot))
    {
      if snapshot.armed {
        return;
      }
      snapshot := snapshot.(sequence := snapshot.sequence + 1, armed := true, healthy := false);
    }

    method DisarmWatchdog()
      requires Valid()
      modifies this
      ensures Valid() && snapshot == Disarm(old(snapshot))
    {
      if !snapshot.armed && !snapshot.healthy {
        return;
      }
      snapshot := snapshot.(sequence := snapshot.sequence + 1, armed := false, healthy := false);
    }

    method ObserveHeartbeatAge(age: Num)
      requires Valid()
      modifies this
      ensures Valid() && snapshot == Observe(old(snapshot), age, policy.heartbeatTimeoutMs)
    {
      if !snapshot.armed {
        return;
      }
      if !age.Finite() || age.Less(ZERO) {
        LatchFor(WatchdogInvalid, false, snapshot.physicalActive);
        return;
      }
      if policy.heartbeatTimeoutMs.Less(age) {
        LatchFor(WatchdogTimeout, false, snapshot.physicalActive);
        return;
      }
      if snapshot.healthy {
        return;
      }
      snapshot := snapshot.(sequence := snapshot.sequence + 1, healthy := true);
    }

    method SetPhysicalEstop(active: bool)
      requires Valid()
      modifies this
      ensures Valid() && snapshot == SetPhysical(old(snapshot), active)
    {
      if active {
        LatchFor(HardwareEstop, snapshot.healthy, true);
        return;
      }
      if !snapshot.physicalActive {
        return;
      }
      snapshot := snapshot.(sequence := snapshot.sequence + 1, physicalActive := false);
    }

    method TriggerSoftwareEstop()
      requires Valid()
      modifies this
      ensures Valid() && snapshot == Latch(old(snapshot), SoftwareEstop)
    {
      LatchFor(SoftwareEstop, snapshot.healthy, snapshot.physicalActive);
    }

    method RequestManualReset() returns (cleared: bool, denials: seq<ResetDenial>)
      requires Valid()
      modifies this
      ensures Valid() && snapshot == Reset(old(snapshot))
      ensures denials == Denials(old(snapshot))
      ensures cleared <==> old(snapshot.latched && !snapshot.physicalActive && snapshot.armed && snapshot.healthy)
    {
      if !snapshot.latched {
        return false, [NoLatch];
      }
      denials := [];
      if snapshot.physicalActive {
        denials := denials + [PhysicalEstopActive];
      }
      if !snapshot.armed {
        denials := denials + [WatchdogNotArmed];
      } else if !snapshot.healthy {
        denials := denials + [WatchdogUnhealthy];
      }
      if denials != [] {
        return false, denials;
      }
      snapshot := snapshot.(sequence := snapshot.sequence + 1, latched := false, causes := {});
      return true, [];
    }
  }

  // ---- Runs

  datatype Operation =
    | ArmOp | DisarmOp | ObserveOp(age: Num) | PhysicalOp(active: bool) | SoftwareOp | ResetOp

  function Apply(s: Snapshot, op: Operation, timeout: Num): Snapshot {
    match op
    case ArmOp => Arm(s)
    case DisarmOp => Disarm(s)
    case ObserveOp(age) => Observe(s, age, timeout)
    case PhysicalOp(active) => SetPhysical(s, active)
    case SoftwareOp => Latch(s, SoftwareEstop)
    case ResetOp => Reset(s)
  }

  /** After the first i operations. */
  function State(ops: seq<Operation>, timeout: Num, i: nat): Snapshot
    requires i <= |ops|
  {
    if i == 0 then FRESH else Apply(State(ops, timeout, i - 1), ops[i - 1], timeout)
  }

  predicate Coherent(s: Snapshot) {
    && (s.latched <==> s.causes != {})
    && (s.physicalActive ==> s.latched)
    && (s.healthy ==> s.armed)
  }

  lemma OperationKeepsCoherent(s: Snapshot, op: Operation, timeout: Num)
    requires Coherent(s)
    ensures Coherent(Apply(s, op, timeout))
  {
  }

  /** Latched exactly when there is a cause, while the physical stop is active in particular; healthy only if armed. */
  lemma {:induction false} EveryStateIsCoherent(ops: seq<Operation>, timeout: Num, i: nat)
    requires i <= |ops|
    ensures Coherent(State(ops, timeout, i))
  {
    if i > 0 {
      EveryStateIsCoherent(ops, timeout, i - 1);
      OperationKeepsCoherent(State(ops, timeout, i - 1), ops[i - 1], timeout);
    }
  }

  predicate ResetAllowed(s: Snapshot) {
    s.latched && !s.physicalActive && s.armed && s.healthy
  }

  lemma UnlatchingOperation(s: Snapshot, op: Operation, timeout: Num)
    requires s.latched && !Apply(s, op, timeout).latched
    ensures op.ResetOp? && ResetAllowed(s)
  {
  }

  /** A latch that is gone was cleared by a manual reset, with the physical stop released and the watchdog healthy. */
  lemma {:induction false} LatchNeedsReset(ops: seq<Operation>, timeout: Num, i: nat, k: nat) returns (r: nat)
    requires i <= k <= |ops| && State(ops, timeout, i).latched && !State(ops, timeout, k).latched
    ensures i <= r < k && ops[r].ResetOp? && ResetAllowed(State(ops, timeout, r))
    decreases k
  {
    if State(ops, timeout, k - 1).latched {
      r := k - 1;
      UnlatchingOperation(State(ops, timeout, r), ops[r], timeout);
    } else {
      r := LatchNeedsReset(ops, timeout, i, k - 1);
    }
  }

  /** An operation that changes anything raises the sequence number by one. */
  lemma OneOperation(s: Snapshot, op: Operation, timeout: Num)
    ensures Apply(s, op, timeout) == s || Apply(s, op, timeout).sequence == s.sequence + 1
  {
  }

  lemma {:induction false} SequenceGrows(ops: seq<Operation>, timeout: Num, i: nat, k: nat)
    requires i <= k <= |ops|
    ensures State(ops, timeout, i).sequence <= State(ops, timeout, k).sequence
    ensures State(ops, timeout, i).sequence == State(ops, timeout, k).sequence ==>
      State(ops, timeout, i) == State(ops, timeout, k)
    decreases k
  {
    if i < k {
      SequenceGrows(ops, timeout, i, k - 1);
      OneOperation(State(ops, timeout, k - 1), ops[k - 1], timeout);
    }
  }

  /** The sequence number identifies the state: with an old number still current, nothing has changed since. */
  lemma EqualSequenceEqualState(ops: seq<Operation>, timeout: Num, i: nat, k: nat)
    requires i <= |ops| && k <= |ops|
    ensures State(ops, timeout, i).sequence == State(ops, timeout, k).sequence
        <==> State(ops, timeout, i) == State(ops, timeout, k)
  {
    if i <= k {
      SequenceGrows(ops, timeout, i, k);
    } else {
      SequenceGrows(ops, timeout, k, i);
    }
  }
}
