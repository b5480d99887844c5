/** How far a joint gets when a new command turns it around: only the target is checked, not the way to stop. */
module Overrun {
  import opened RobotModel
  import opened Servo

  predicate Inside(lo: real, position: real, hi: real) {
    lo <= position <= hi
  }

  ghost predicate StaysInside(a: Axis, target: real, limits: Limits, root: real -> real, lo: real, hi: real) {
    forall k: nat :: Inside(lo, Along(ServoLaw(root), a, target, limits, k).position, hi)
  }

  /** Moving away from the target at speed w, at distance e from it. */
  predicate Departing(a: Axis, target: real, e: real, w: real) {
    e > 0.0 && w > 0.0 && (a == Axis(target - e, -w) || a == Axis(target + e, w))
  }

  /** Moving towards the target at any speed, or standing still, or on it. */
  predicate Homing(a: Axis, target: real) {
    a.position == target || Approaching(a, target, Abs(a.position - target), Abs(a.velocity))
  }

  /** How much farther from its target it gets, slowing down by a dt in each of at most n steps. */
  function Excess(e: real, w: real, limits: Limits, n: nat): real
    decreases n
  {
    if n == 0 || (e <= TINY && w <= TINY) || w <= limits.MaxDelta() then 0.0
    else
      var d := limits.Distance(w - limits.MaxDelta());
      d + Excess(e + d, w - limits.MaxDelta(), limits, n - 1)
  }

  /** Steps until a joint at speed w stands still. */
  function StoppingSteps(w: real, limits: Limits): nat
    requires limits.MaxDelta() > 0.0 && w >= 0.0
  {
    var n := Ceil(w / limits.MaxDelta());
    if n < 0 then 0 else n
  }

  function Beyond(position: real, target: real, extra: real): real {
    if position < target then position - extra else position + extra
  }

  /** The position farthest from its target that the joint will visit. */
  function Farthest(a: Axis, target: real, limits: Limits): real
    requires limits.MaxDelta() > 0.0
  {
    var e, w := Abs(a.position - target), Abs(a.velocity);
    if Departing(a, target, e, w) then Beyond(a.position, target, Excess(e, w, limits, StoppingSteps(w, limits)))
    else a.position
  }

  function SpeedLost(n: nat, limits: Limits): real {
    if n == 0 then 0.0 else SpeedLost(n - 1, limits) + limits.MaxDelta()
  }

  lemma {:induction false} SpeedLostIs(n: nat, limits: Limits)
    ensures SpeedLost(n, limits) == n as real * limits.MaxDelta()
  {
    if n > 0 {
      SpeedLostIs(n - 1, limits);
      assert n as real == (n - 1) as real + 1.0;
    }
  }

  lemma StopsInTime(w: real, limits: Limits)
    requires limits.MaxDelta() > 0.0 && w >= 0.0
    ensures w <= SpeedLost(StoppingSteps(w, limits), limits)
  {
    var m := limits.MaxDelta();
    QuotientBelow(w, m, 0.0);
    var n := StoppingSteps(w, limits);
    QuotientBelow(w, m, n as real);
    SpeedLostIs(n, limits);
  }

  lemma MaxDeltaPositive(limits: Limits)
    requires limits.Valid()
    ensures limits.MaxDelta() > 0.0
  {
    var p := Times(limits.acceleration, limits.dt);
  }

  lemma DistancePositive(w: real, limits: Limits)
    requires limits.Valid() && w > 0.0
    ensures limits.Distance(w) > 0.0
  {
    var p := Times(w, limits.dt);
  }

  // ---- Steps and runs

  lemma {:induction false} AlongShift(law: ControlLaw, a: Axis, target: real, limits: Limits, k: nat)
    ensures Along(law, a, target, limits, k + 1) == Along(law, law(a, target, limits).axis, target, limits, k)
  {
    if k > 0 {
      AlongShift(law, a, target, limits, k - 1);
    }
  }

  function Next(a: Axis, target: real, limits: Limits, root: real -> real): Axis {
    StepAxis(a, target, limits, root).axis
  }

  lemma InsideStepwise(a: Axis, b: Axis, target: real, limits: Limits, root: real -> real, lo: real, hi: real)
    requires b == ServoLaw(root)(a, target, limits).axis
    ensures StaysInside(a, target, limits, root, lo, hi)
        <==> Inside(lo, a.position, hi) && StaysInside(b, target, limits, root, lo, hi)
  {
    var law := ServoLaw(root);
    if StaysInside(a, target, limits, root, lo, hi) {
      assert Inside(lo, Along(law, a, target, limits, 0).position, hi);
      forall k: nat
        ensures Inside(lo, Along(law, b, target, limits, k).position, hi)
      {
        AlongShift(law, a, target, limits, k);
        assert Inside(lo, Along(law, a, target, limits, k + 1).position, hi);
      }
    }
    if Inside(lo, a.position, hi) && StaysInside(b, target, limits, root, lo, hi) {
      forall k: nat
        ensures Inside(lo, Along(law, a, target, limits, k).position, hi)
      {
        if k > 0 {
          AlongShift(law, a, target, limits, k - 1);
          assert Inside(lo, Along(law, b, target, limits, k - 1).position, hi);
        }
      }
    }
  }

  lemma InsideNext(a: Axis, target: real, limits: Limits, root: real -> real, lo: real, hi: real)
    ensures StaysInside(a, target, limits, root, lo, hi)
        <==> Inside(lo, a.position, hi) && StaysInside(Next(a, target, limits, root), target, limits, root, lo, hi)
  {
    LawIsStep(a, target, limits, root);
    InsideStepwise(a, Next(a, target, limits, root), target, limits, root, lo, hi);
  }

  // ---- Homing: no overrun at any speed

  lemma HomingStep(a: Axis, target: real, limits: Limits, root: real -> real)
    requires limits.Valid() && IsRoot(root) && Homing(a, target)
    ensures var b := Next(a, target, limits, root);
      Homing(b, target) && Between(b.position, a.position, target)
  {
    if a.position != target {
      var e, w := Abs(a.position - target), Abs(a.velocity);
      VelocityIsSpeed(a, target, e, w, limits, root);
      NextSpeedNonNegative(e, w, limits, root);
      var w' := NextSpeed(e, w, limits, root);
      MoveOrLand(a, target, e, w', limits, root);
      Nearer(a, Next(a, target, limits, root), target, e, w', limits);
    } else {
      LandsAtOnce(a, target, limits, root);
    }
  }

  lemma NextSpeedNonNegative(e: real, w: real, limits: Limits, root: real -> real)
    requires limits.Valid() && IsRoot(root) && e > 0.0 && w >= 0.0
    ensures NextSpeed(e, w, limits, root) >= 0.0
  {
    BrakingSpeed(limits.acceleration, e, root);
    var p := Times(limits.acceleration, limits.dt);
    assert limits.MaxDelta() == p;
  }

  lemma Nearer(a: Axis, b: Axis, target: real, e: real, w': real, limits: Limits)
    requires limits.Valid() && Off(a.position, target, e) && w' >= 0.0
    requires Approached(b, target, e, w', limits)
    requires Resting(b, target) || SameSide(a, b, target)
    ensures Homing(b, target) && Between(b.position, a.position, target)
  {
    var p := Times(w', limits.dt);
    assert p == limits.Distance(w');
  }

  lemma LandsAtOnce(a: Axis, target: real, limits: Limits, root: real -> real)
    requires a.position == target
    ensures Next(a, target, limits, root) == Axis(target, 0.0)
  {
    var rest := target - (a.position + limits.Distance(NextVelocity(a.velocity, 0.0, limits, root)));
    assert 0.0 * rest == 0.0;
    assert Crossed(0.0, rest);
  }

  lemma {:induction false} HomingStays(a: Axis, target: real, limits: Limits, root: real -> real, k: nat)
    requires limits.Valid() && IsRoot(root) && Homing(a, target)
    ensures var b := Along(ServoLaw(root), a, target, limits, k);
      Homing(b, target) && Between(b.position, a.position, target)
  {
    if k > 0 {
      HomingStays(a, target, limits, root, k - 1);
      var b := Along(ServoLaw(root), a, target, limits, k - 1);
      LawIsStep(b, target, limits, root);
      HomingStep(b, target, limits, root);
    }
  }

  lemma HomingInside(a: Axis, target: real, limits: Limits, root: real -> real, lo: real, hi: real)
    requires limits.Valid() && IsRoot(root) && Homing(a, target) && Inside(lo, target, hi)
    ensures StaysInside(a, target, limits, root, lo, hi) <==> Inside(lo, a.position, hi)
  {
    if Inside(lo, a.position, hi) {
      forall k: nat
        ensures Inside(lo, Along(ServoLaw(root), a, target, limits, k).position, hi)
      {
        HomingStays(a, target, limits, root, k);
      }
    } else {
      assert !Inside(lo, Along(ServoLaw(root), a, target, limits, 0).position, hi);
    }
  }

  // ---- Departing: slows down first

  lemma DepartingVelocity(a: Axis, target: real, e: real, w: real, limits: Limits, root: real -> real)
    requires limits.Valid() && IsRoot(root) && Departing(a, target, e, w)
    ensures var v := NextVelocity(a.velocity, target - a.position, limits, root);
      if w > limits.MaxDelta() then v == (if a.position < target then limits.MaxDelta() - w else w - limits.MaxDelta())
      else v == CopySign(Abs(v), target - a.position)
  {
    MaxDeltaPositive(limits);
    BrakingSpeed(limits.acceleration, e, root);
  }

  /** Still too fast to turn: farther away, and slower by a dt. */
  lemma DepartsFurther(a: Axis, target: real, e: real, w: real, limits: Limits, root: real -> real)
    requires limits.Valid() && IsRoot(root) && Departing(a, target, e, w)
    requires w > limits.MaxDelta() && !(e <= TINY && w <= TINY)
    ensures var w' := w - limits.MaxDelta(); var d := limits.Distance(w'); var b := Next(a, target, limits, root);
      d > 0.0 && Departing(b, target, e + d, w') && b.position == Beyond(a.position, target, d)
  {
    var w' := w - limits.MaxDelta();
    DepartingVelocity(a, target, e, w, limits, root);
    DistancePositive(w', limits);
    Backwards(w', limits);
    Landing(e, -limits.Distance(w'));
  }

  /** Slow enough: it turns, or is taken to be on target. */
  lemma DepartingTurns(a: Axis, target: real, e: real, w: real, limits: Limits, root: real -> real)
    requires limits.Valid() && IsRoot(root) && Departing(a, target, e, w)
    requires w <= limits.MaxDelta() || (e <= TINY && w <= TINY)
    ensures var b := Next(a, target, limits, root); Homing(b, target) && Between(b.position, a.position, target)
  {
    if !(e <= TINY && w <= TINY) {
      DepartingVelocity(a, target, e, w, limits, root);
      var w' := Abs(NextVelocity(a.velocity, target - a.position, limits, root));
      MoveOrLand(a, target, e, w', limits, root);
      Nearer(a, Next(a, target, limits, root), target, e, w', limits);
    }
  }

  lemma {:induction false} ExcessNonNegative(e: real, w: real, limits: Limits, n: nat)
    requires limits.Valid()
    ensures Excess(e, w, limits, n) >= 0.0
    decreases n
  {
    if !(n == 0 || (e <= TINY && w <= TINY) || w <= limits.MaxDelta()) {
      DistancePositive(w - limits.MaxDelta(), limits);
      ExcessNonNegative(e + limits.Distance(w - limits.MaxDelta()), w - limits.MaxDelta(), limits, n - 1);
    }
  }

  lemma DepartingTurnsInside(a: Axis, target: real, e: real, w: real, limits: Limits, root: real -> real,
                             lo: real, hi: real)
    requires limits.Valid() && IsRoot(root) && Departing(a, target, e, w) && Inside(lo, target, hi)
    requires w <= limits.MaxDelta() || (e <= TINY && w <= TINY)
    ensures StaysInside(a, target, limits, root, lo, hi) <==> Inside(lo, a.position, hi)
  {
    InsideNext(a, target, limits, root, lo, hi);
    DepartingTurns(a, target, e, w, limits, root);
    HomingInside(Next(a, target, limits, root), target, limits, root, lo, hi);
  }

  lemma DepartsInside(a: Axis, target: real, e: real, w: real, limits: Limits, root: real -> real, lo: real, hi: real)
    returns (b: Axis)
    requires limits.Valid() && IsRoot(root) && Departing(a, target, e, w)
    requires w > limits.MaxDelta() && !(e <= TINY && w <= TINY)
    ensures var w' := w - limits.MaxDelta(); var d := limits.Distance(w');
      d > 0.0 && Departing(b, target, e + d, w') && b.position == Beyond(a.position, target, d)
    ensures StaysInside(a, target, limits, root, lo, hi)
        <==> Inside(lo, a.position, hi) && StaysInside(b, target, limits, root, lo, hi)
  {
    b := Next(a, target, limits, root);
    InsideNext(a, target, limits, root, lo, hi);
    DepartsFurther(a, target, e, w, limits, root);
  }

  lemma {:induction false} DepartingInside(a: Axis, target: real, e: real, w: real, limits: Limits, root: real -> real,
                                           lo: real, hi: real, n: nat)
    requires limits.Valid() && IsRoot(root) && Departing(a, target, e, w) && Inside(lo, target, hi)
    requires w <= SpeedLost(n, limits)
    ensures StaysInside(a, target, limits, root, lo, hi)
        <==> Inside(lo, Beyond(a.position, target, Excess(e, w, limits, n)), hi)
    decreases n
  {
    if w <= limits.MaxDelta() || (e <= TINY && w <= TINY) {
      DepartingTurnsInside(a, target, e, w, limits, root, lo, hi);
      assert Excess(e, w, limits, n) == 0.0;
    } else {
      var w' := w - limits.MaxDelta();
      var d := limits.Distance(w');
      var b := DepartsInside(a, target, e, w, limits, root, lo, hi);
      ExcessGoesOn(e, w, limits, n);
      DepartingInside(b, target, e + d, w', limits, root, lo, hi, n - 1);
      BeyondFarther(a.position, b.position, target, e, d, Excess(e + d, w', limits, n - 1), lo, hi);
    }
  }

  lemma ExcessGoesOn(e: real, w: real, limits: Limits, n: nat)
    requires limits.Valid() && w > limits.MaxDelta() && !(e <= TINY && w <= TINY) && w <= SpeedLost(n, limits)
    ensures n > 0
    ensures var w' := w - limits.MaxDelta(); var d := limits.Distance(w'); var more := Excess(e + d, w', limits, n - 1);
      w' <= SpeedLost(n - 1, limits) && more >= 0.0 && Excess(e, w, limits, n) == d + more
  {
    MaxDeltaPositive(limits);
    ExcessNonNegative(e + limits.Distance(w - limits.MaxDelta()), w - limits.MaxDelta(), limits, n - 1);
  }

  /** Going d and then more away from the target passes through the point d away. */
  lemma BeyondFarther(p: real, q: real, target: real, e: real, d: real, more: real, lo: real, hi: real)
    requires Off(p, target, e) && d > 0.0 && more >= 0.0 && Inside(lo, target, hi) && q == Beyond(p, target, d)
    ensures Inside(lo, p, hi) && Inside(lo, Beyond(q, target, more), hi)
        <==> Inside(lo, Beyond(p, target, d + more), hi)
  {
  }

  /** A joint given a target within its limits stays within them if and only if its farthest position does. */
  lemma StaysInsideExactly(a: Axis, target: real, limits: Limits, root: real -> real, lo: real, hi: real)
    requires limits.Valid() && IsRoot(root) && Inside(lo, target, hi)
    ensures limits.MaxDelta() > 0.0
    ensures StaysInside(a, target, limits, root, lo, hi) <==> Inside(lo, Farthest(a, target, limits), hi)
  {
    MaxDeltaPositive(limits);
    var e, w := Abs(a.position - target), Abs(a.velocity);
    if Departing(a, target, e, w) {
      StopsInTime(w, limits);
      DepartingInside(a, target, e, w, limits, root, lo, hi, StoppingSteps(w, limits));
    } else {
      HomingInside(a, target, limits, root, lo, hi);
    }
  }

  /** A moving joint can be sent past a limit: here 19, by a command to return to 0. */
  lemma RetargetingPassesLimit(root: real -> real)
    requires IsRoot(root)
    ensures var limits := Limits(10.0, 5.0, 1.0);
      var moving := Along(ServoLaw(root), Axis(0.0, 0.0), 19.0, limits, 2);
      && moving == Axis(15.0, 10.0)
      && Along(ServoLaw(root), moving, 0.0, limits, 1) == Axis(20.0, 5.0)
  {
    var limits := Limits(10.0, 5.0, 1.0);
    FastBraking(190.0, root);
    FastBraking(140.0, root);
    FastBraking(150.0, root);
    FromRest(limits, root);
    TurnAround(limits, root);
  }

  lemma FastBraking(x: real, root: real -> real)
    requires IsRoot(root) && x >= 100.0
    ensures root(x) >= 10.0
  {
    var r := root(x);
    if r < 10.0 {
      ProductMonotone(r, 10.0, r);
    }
  }

  lemma FromRest(limits: Limits, root: real -> real)
    requires limits == Limits(10.0, 5.0, 1.0) && root(190.0) >= 10.0 && root(140.0) >= 10.0
    ensures Along(ServoLaw(root), Axis(0.0, 0.0), 19.0, limits, 2) == Axis(15.0, 10.0)
  {
    LawIsStep(Axis(0.0, 0.0), 19.0, limits, root);
    LawIsStep(Axis(5.0, 5.0), 19.0, limits, root);
    assert TwiceEnergy(5.0, 19.0) == 190.0 && TwiceEnergy(5.0, 14.0) == 140.0;
    assert StepAxis(Axis(0.0, 0.0), 19.0, limits, root).axis == Axis(5.0, 5.0);
    assert StepAxis(Axis(5.0, 5.0), 19.0, limits, root).axis == Axis(15.0, 10.0);
    assert Along(ServoLaw(root), Axis(0.0, 0.0), 19.0, limits, 0) == Axis(0.0, 0.0);
    assert Along(ServoLaw(root), Axis(0.0, 0.0), 19.0, limits, 1) == Axis(5.0, 5.0);
  }

  lemma TurnAround(limits: Limits, root: real -> real)
    requires limits == Limits(10.0, 5.0, 1.0) && root(150.0) >= 10.0
    ensures Along(ServoLaw(root), Axis(15.0, 10.0), 0.0, limits, 1) == Axis(20.0, 5.0)
  {
    LawIsStep(Axis(15.0, 10.0), 0.0, limits, root);
    assert TwiceEnergy(5.0, 15.0) == 150.0;
    assert Along(ServoLaw(root), Axis(15.0, 10.0), 0.0, limits, 0) == Axis(15.0, 10.0);
  }
}
