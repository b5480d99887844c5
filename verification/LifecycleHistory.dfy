/** What the lifecycle's flags say about the operations so far, whatever their order. */
module LifecycleHistory {
  import opened Numbers
  import opened Lifecycle
  import opened SafetyMeaning

  /** A heartbeat observed in time, by an armed watchdog. */
  predicate InTime(ops: seq<Operation>, timeout: Num, k: nat)
    requires k < |ops| && timeout.Fin?
  {
    ops[k].ObserveOp? && State(ops, timeout, k).armed && AgeFine(ops[k].age, timeout.value)
  }

  /** Operation k gives this cause for a stop. */
  predicate Trips(ops: seq<Operation>, timeout: Num, k: nat, cause: StopCause)
    requires k < |ops| && timeout.Fin?
  {
    match cause
    case SoftwareEstop => ops[k].SoftwareOp?
    case HardwareEstop => ops[k].PhysicalOp? && ops[k].active
    case WatchdogInvalid =>
      ops[k].ObserveOp? && State(ops, timeout, k).armed && !IsAgeNumber(ops[k].age)
    case WatchdogTimeout =>
      && ops[k].ObserveOp? && State(ops, timeout, k).armed && IsAgeNumber(ops[k].age)
      && ops[k].age.value > timeout.value
  }

  /** Operation k is a reset that is granted. */
  predicate Resets(ops: seq<Operation>, timeout: Num, k: nat)
    requires k < |ops|
  {
    ops[k].ResetOp? && ResetAllowed(State(ops, timeout, k))
  }

  ghost predicate ArmedSince(ops: seq<Operation>, i: nat)
    requires i <= |ops|
  {
    exists k :: 0 <= k < i && ops[k].ArmOp? && forall j :: k < j < i ==> !ops[j].DisarmOp?
  }

  ghost predicate PressedSince(ops: seq<Operation>, i: nat)
    requires i <= |ops|
  {
    exists k :: 0 <= k < i && ops[k] == PhysicalOp(true) && forall j :: k < j < i ==> ops[j] != PhysicalOp(false)
  }

  /** Nothing between k and i disarms the watchdog or shows it a late or invalid age. */
  ghost predicate Undisturbed(ops: seq<Operation>, timeout: Num, k: nat, i: nat)
    requires i <= |ops| && timeout.Fin?
  {
    forall j :: k < j < i ==> !ops[j].DisarmOp? && (ops[j].ObserveOp? ==> AgeFine(ops[j].age, timeout.value))
  }

  ghost predicate HealthySince(ops: seq<Operation>, timeout: Num, i: nat)
    requires i <= |ops| && timeout.Fin?
  {
    exists k :: 0 <= k < i && InTime(ops, timeout, k) && Undisturbed(ops, timeout, k, i)
  }

  ghost predicate TrippedSince(ops: seq<Operation>, timeout: Num, i: nat, cause: StopCause)
    requires i <= |ops| && timeout.Fin?
  {
    exists k :: 0 <= k < i && Trips(ops, timeout, k, cause) && forall j :: k < j < i ==> !Resets(ops, timeout, j)
  }

  /** Armed exactly if the watchdog was armed and not disarmed since. */
  lemma {:induction false} ArmedExactly(ops: seq<Operation>, timeout: Num, i: nat)
    requires i <= |ops|
    ensures State(ops, timeout, i).armed <==> ArmedSince(ops, i)
  {
    if i > 0 {
      ArmedExactly(ops, timeout, i - 1);
      ArmedStep(ops, i - 1);
      ArmedAfter(State(ops, timeout, i - 1), ops[i - 1], timeout, State(ops, timeout, i));
    }
  }

  lemma ArmedAfter(s: Snapshot, op: Operation, timeout: Num, t: Snapshot)
    requires t == Apply(s, op, timeout)
    ensures t.armed <==> op.ArmOp? || (s.armed && !op.DisarmOp?)
    ensures t.physicalActive <==> op == PhysicalOp(true) || (s.physicalActive && op != PhysicalOp(false))
  {
  }

  lemma ArmedStep(ops: seq<Operation>, i: nat)
    requires i < |ops|
    ensures ArmedSince(ops, i + 1) <==> ops[i].ArmOp? || (ArmedSince(ops, i) && !ops[i].DisarmOp?)
  {
    if ArmedSince(ops, i) && !ops[i].DisarmOp? {
      var k :| 0 <= k < i && ops[k].ArmOp? && forall j :: k < j < i ==> !ops[j].DisarmOp?;
      assert forall j :: k < j < i + 1 ==> !ops[j].DisarmOp?;
    }
  }

  /** The physical stop counts as active exactly if it was reported active, and not released since. */
  lemma {:induction false} PhysicalExactly(ops: seq<Operation>, timeout: Num, i: nat)
    requires i <= |ops|
    ensures State(ops, timeout, i).physicalActive <==> PressedSince(ops, i)
  {
    if i > 0 {
      PhysicalExactly(ops, timeout, i - 1);
      PressedStep(ops, i - 1);
      ArmedAfter(State(ops, timeout, i - 1), ops[i - 1], timeout, State(ops, timeout, i));
    }
  }

  lemma PressedStep(ops: seq<Operation>, i: nat)
    requires i < |ops|
    ensures PressedSince(ops, i + 1)
       <==> ops[i] == PhysicalOp(true) || (PressedSince(ops, i) && ops[i] != PhysicalOp(false))
  {
    if PressedSince(ops, i) && ops[i] != PhysicalOp(false) {
      var k :| 0 <= k < i && ops[k] == PhysicalOp(true) && forall j :: k < j < i ==> ops[j] != PhysicalOp(false);
      assert forall j :: k < j < i + 1 ==> ops[j] != PhysicalOp(false);
    }
  }

  /** Healthy exactly if an armed watchdog saw a heartbeat in time, and no disarming and no bad age came since. */
  lemma {:induction false} HealthyExactly(ops: seq<Operation>, timeout: Num, i: nat)
    requires i <= |ops| && IsPositive(timeout)
    ensures State(ops, timeout, i).healthy <==> HealthySince(ops, timeout, i)
  {
    if i > 0 {
      HealthyExactly(ops, timeout, i - 1);
      HealthyStep(ops, timeout, i - 1);
      EveryStateIsCoherent(ops, timeout, i - 1);
      HealthAfter(State(ops, timeout, i - 1), ops[i - 1], timeout);
    }
  }

  lemma HealthAfter(s: Snapshot, op: Operation, timeout: Num)
    requires IsPositive(timeout) && Coherent(s)
    ensures Apply(s, op, timeout).healthy
       <==> || (op.ObserveOp? && s.armed && AgeFine(op.age, timeout.value))
            || (s.healthy && !op.DisarmOp? && (op.ObserveOp? ==> AgeFine(op.age, timeout.value)))
  {
  }

  lemma HealthyStep(ops: seq<Operation>, timeout: Num, i: nat)
    requires i < |ops| && timeout.Fin?
    ensures HealthySince(ops, timeout, i + 1)
       <==> || InTime(ops, timeout, i)
            || (HealthySince(ops, timeout, i) && !ops[i].DisarmOp?
                && (ops[i].ObserveOp? ==> AgeFine(ops[i].age, timeout.value)))
  {
    assert Undisturbed(ops, timeout, i, i + 1);
    if HealthySince(ops, timeout, i) && !ops[i].DisarmOp?
       && (ops[i].ObserveOp? ==> AgeFine(ops[i].age, timeout.value)) {
      var k :| 0 <= k < i && InTime(ops, timeout, k) && Undisturbed(ops, timeout, k, i);
      assert Undisturbed(ops, timeout, k, i + 1);
    }
    if HealthySince(ops, timeout, i + 1) {
      var k :| 0 <= k < i + 1 && InTime(ops, timeout, k) && Undisturbed(ops, timeout, k, i + 1);
      assert k < i ==> Undisturbed(ops, timeout, k, i);
    }
  }

  /** The causes of a latch are those given since the last reset that was granted; latched means that there are any. */
  lemma {:induction false} CausesExactly(ops: seq<Operation>, timeout: Num, i: nat, cause: StopCause)
    requires i <= |ops| && IsPositive(timeout)
    ensures cause in State(ops, timeout, i).causes <==> TrippedSince(ops, timeout, i, cause)
  {
    if i > 0 {
      CausesExactly(ops, timeout, i - 1, cause);
      TrippedStep(ops, timeout, i - 1, cause);
      EveryStateIsCoherent(ops, timeout, i - 1);
      CausesAfter(ops, timeout, i - 1, cause);
    }
  }

  lemma CausesAfter(ops: seq<Operation>, timeout: Num, i: nat, cause: StopCause)
    requires i < |ops| && IsPositive(timeout) && Coherent(State(ops, timeout, i))
    ensures cause in State(ops, timeout, i + 1).causes
       <==> Trips(ops, timeout, i, cause) || (cause in State(ops, timeout, i).causes && !Resets(ops, timeout, i))
  {
  }

  lemma TrippedStep(ops: seq<Operation>, timeout: Num, i: nat, cause: StopCause)
    requires i < |ops| && timeout.Fin?
    ensures TrippedSince(ops, timeout, i + 1, cause)
       <==> Trips(ops, timeout, i, cause) || (TrippedSince(ops, timeout, i, cause) && !Resets(ops, timeout, i))
  {
    if TrippedSince(ops, timeout, i, cause) && !Resets(ops, timeout, i) {
      var k :| 0 <= k < i && Trips(ops, timeout, k, cause) && forall j :: k < j < i ==> !Resets(ops, timeout, j);
      assert forall j :: k < j < i + 1 ==> !Resets(ops, timeout, j);
    }
  }

  /** Why a reset is refused: no latch, or else each condition it lacks, in this order. */
  lemma DenialsMean(s: Snapshot)
    requires Coherent(s)
    ensures Denials(s) == [] <==> s.causes != {} && !s.physicalActive && s.healthy
    ensures NoLatch in Denials(s) <==> s.causes == {}
    ensures PhysicalEstopActive in Denials(s) <==> s.physicalActive
    ensures WatchdogNotArmed in Denials(s) <==> s.causes != {} && !s.armed
    ensures WatchdogUnhealthy in Denials(s) <==> s.causes != {} && s.armed && !s.healthy
  {
  }
}
