/** One acceleration-limited joint of the digital twin, and why it always settles. */
module Servo {
  import opened RobotModel

  const TINY: real := 0.000001

  /** Limits in force for one joint: the stricter of its own and the command's. */
  datatype Limits = Limits(velocity: real, acceleration: real, dt: real)
  {
    predicate Valid() {
      velocity > 0.0 && acceleration > 0.0 && dt > 0.0
    }

    function Distance(speed: real): real {
      speed * dt
    }

    function MaxDelta(): real {
      acceleration * dt
    }

    /** The least progress of a step that does not land. */
    function Stride(): real {
      Min(Distance(velocity), Distance(MaxDelta()))
    }
  }

  datatype Axis = Axis(position: real, velocity: real)

  datatype AxisStep = AxisStep(axis: Axis, moving: bool, currentMa: int)

  function CopySign(magnitude: real, sign: real): real {
    if sign >= 0.0 then magnitude else -magnitude
  }

  function RoundHalfEven(x: real): int {
    var low := x.Floor;
    var fraction := x - low as real;
    if fraction < 0.5 || (fraction == 0.5 && low % 2 == 0) then low else low + 1
  }

  function TwiceEnergy(a: real, e: real): real {
    2.0 * a * e
  }

  /** The speed from which deceleration a stops within distance e. */
  function Braking(a: real, e: real, root: real -> real): real {
    root(Max(0.0, TwiceEnergy(a, e)))
  }

  function NextVelocity(velocity: real, error: real, limits: Limits, root: real -> real): real {
    var braking := Braking(limits.acceleration, Abs(error), root);
    var desired := CopySign(Min(limits.velocity, braking), error);
    var maxDelta := limits.MaxDelta();
    var delta := desired - velocity;
    if Abs(delta) > maxDelta then velocity + CopySign(maxDelta, delta) else desired
  }

  /** Errors before and after a step have different signs, or one is zero. */
  predicate Crossed(before: real, after: real) {
    before * after <= 0.0
  }

  function StepAxis(a: Axis, target: real, limits: Limits, root: real -> real): AxisStep {
    var error := target - a.position;
    if Abs(error) <= TINY && Abs(a.velocity) <= TINY then AxisStep(Axis(target, 0.0), false, 80)
    else
      var velocity := NextVelocity(a.velocity, error, limits, root);
      MoveAxis(a, target, velocity, limits.Distance(velocity))
  }

  /** The part of a step after the new velocity is known, which would take the joint this far. */
  function MoveAxis(a: Axis, target: real, velocity: real, distance: real): AxisStep {
    var error := target - a.position;
    var next := a.position + distance;
    var landed := Crossed(error, target - next);
    var axis := if landed then Axis(target, 0.0) else Axis(next, velocity);
    var amps := RoundHalfEven(80.0 + 3.0 * Abs(axis.velocity) + 0.6 * Abs(error));
    AxisStep(axis, true, if amps < 1200 then amps else 1200)
  }

  // ---- Distance and speed: the joint seen from its target

  /** Speed after one step at distance e > 0 and speed w towards the target. */
  function NextSpeed(e: real, w: real, limits: Limits, root: real -> real): real {
    Towards(w, Min(limits.velocity, Braking(limits.acceleration, e, root)), limits.MaxDelta())
  }

  /** From w towards desired by at most most. */
  function Towards(w: real, desired: real, most: real): (w': real)
    ensures most >= 0.0 ==> Abs(w' - w) <= most && Min(w, desired) <= w' <= Max(w, desired)
    ensures most >= 0.0 && w >= 0.0 ==> w' >= desired || w' >= most
  {
    if desired - w > most then w + most else if w - desired > most then w - most else desired
  }

  /** The joint is e away from its target, on side s, moving towards it at speed w. */
  predicate Approaching(a: Axis, target: real, e: real, w: real) {
    e > 0.0 && w >= 0.0
    && (a == Axis(target - e, w) || a == Axis(target + e, -w))
  }

  predicate Resting(a: Axis, target: real) {
    a == Axis(target, 0.0)
  }

  lemma StrideIsPositive(limits: Limits)
    requires limits.Valid()
    ensures limits.Stride() > 0.0
  {
    var x := Times(limits.velocity, limits.dt);
    var y := Times(limits.acceleration, limits.dt);
    assert y == limits.MaxDelta();
    var z := Times(y, limits.dt);
    assert z == limits.Distance(limits.MaxDelta());
  }

  /** Enough to land, or for a stride. */
  predicate Headway(e: real, w: real, limits: Limits) {
    limits.Distance(w) >= e || limits.Distance(w) >= limits.Stride()
  }

  /** The new speed is enough to land or to make a stride. */
  lemma SpeedProgress(e: real, w: real, limits: Limits, root: real -> real)
    requires limits.Valid() && IsRoot(root) && e > 0.0 && 0.0 <= w <= limits.velocity
    ensures Headway(e, NextSpeed(e, w, limits, root), limits)
  {
    BrakingSpeed(limits.acceleration, e, root);
    ProgressFor(e, w, Braking(limits.acceleration, e, root), limits);
  }

  lemma ProgressFor(e: real, w: real, b: real, limits: Limits)
    requires limits.Valid() && e > 0.0 && 0.0 <= w <= limits.velocity
    requires b >= 0.0 && b * b == TwiceEnergy(limits.acceleration, e)
    ensures Headway(e, Towards(w, Min(limits.velocity, b), limits.MaxDelta()), limits)
  {
    var w' := Towards(w, Min(limits.velocity, b), limits.MaxDelta());
    SpeedRange(w, b, limits);
    Progress(w', b, e, limits);
  }

  /** Speed stays within the limit and changes by at most a dt. */
  lemma SpeedRange(w: real, b: real, limits: Limits)
    requires limits.Valid() && 0.0 <= w <= limits.velocity && b >= 0.0
    ensures var w' := Towards(w, Min(limits.velocity, b), limits.MaxDelta());
      && 0.0 <= w' <= limits.velocity && Abs(w' - w) <= limits.MaxDelta()
      && (w' >= limits.MaxDelta() || w' >= limits.velocity || w' >= b)
  {
    var adt := Times(limits.acceleration, limits.dt);
    assert limits.MaxDelta() == adt;
  }

  lemma Progress(w: real, b: real, e: real, limits: Limits)
    requires limits.Valid() && w >= 0.0 && b >= 0.0 && e > 0.0
    requires b * b == TwiceEnergy(limits.acceleration, e)
    requires w >= limits.MaxDelta() || w >= limits.velocity || w >= b
    ensures Headway(e, w, limits)
  {
    if w >= limits.MaxDelta() {
      Farther(limits.MaxDelta(), w, limits);
    } else if w >= limits.velocity {
      Farther(limits.velocity, w, limits);
    } else {
      BrakingReaches(b, limits.acceleration, e, limits.dt, limits.MaxDelta());
      Farther(b, w, limits);
    }
  }

  lemma Farther(v: real, w: real, limits: Limits)
    requires limits.Valid() && v <= w
    ensures limits.Distance(v) <= limits.Distance(w)
  {
    ProductMonotone(v, w, limits.dt);
  }

  lemma BrakingSpeed(a: real, e: real, root: real -> real)
    requires IsRoot(root) && a > 0.0 && e >= 0.0
    ensures var b := Braking(a, e, root); b >= 0.0 && b * b == TwiceEnergy(a, e)
  {
    var x := Times(2.0 * a, e);
    assert Max(0.0, TwiceEnergy(a, e)) == TwiceEnergy(a, e);
  }

  /** Slower than one step's acceleration, the braking speed covers the distance in one step. */
  lemma BrakingReaches(b: real, a: real, e: real, dt: real, adt: real)
    requires b >= 0.0 && a > 0.0 && e > 0.0 && dt > 0.0
    requires b * b == TwiceEnergy(a, e) && adt == a * dt && b < adt
    ensures b * dt >= e
  {
    ProductMonotone(b, adt, b);
    assert adt * b == a * (b * dt);
    assert b * b == a * (2.0 * e);
    CancelFactor(a, 2.0 * e, b * dt);
  }

  /** One step of an approaching joint: it lands, or is closer on the same side. */
  lemma ApproachStep(a: Axis, target: real, e: real, w: real, limits: Limits, root: real -> real)
    requires limits.Valid() && IsRoot(root) && Approaching(a, target, e, w) && w <= limits.velocity
    ensures Approached(StepAxis(a, target, limits, root).axis, target, e, NextSpeed(e, w, limits, root), limits)
    ensures Resting(StepAxis(a, target, limits, root).axis, target)
         || SameSide(a, StepAxis(a, target, limits, root).axis, target)
  {
    SpeedRange(w, Braking(limits.acceleration, e, root), limits);
    VelocityIsSpeed(a, target, e, w, limits, root);
    MoveOrLand(a, target, e, NextSpeed(e, w, limits, root), limits, root);
  }

  predicate Approached(a: Axis, target: real, e: real, w': real, limits: Limits) {
    Resting(a, target) || (Approaching(a, target, e - limits.Distance(w'), w') && limits.Distance(w') < e)
  }

  /** At distance e from the target, on either side. */
  predicate Off(position: real, target: real, e: real) {
    e > 0.0 && (position == target - e || position == target + e)
  }

  lemma MoveOrLand(a: Axis, target: real, e: real, w': real, limits: Limits, root: real -> real)
    requires Off(a.position, target, e) && w' >= 0.0
    requires NextVelocity(a.velocity, target - a.position, limits, root) == CopySign(w', target - a.position)
    ensures Approached(StepAxis(a, target, limits, root).axis, target, e, w', limits)
    ensures Resting(StepAxis(a, target, limits, root).axis, target)
         || SameSide(a, StepAxis(a, target, limits, root).axis, target)
  {
    Landing(e, limits.Distance(w'));
    Backwards(w', limits);
  }

  /** In either direction the velocity computed is the speed, signed like the error. */
  lemma VelocityIsSpeed(a: Axis, target: real, e: real, w: real, limits: Limits, root: real -> real)
    requires limits.Valid() && IsRoot(root) && Approaching(a, target, e, w)
    ensures NextVelocity(a.velocity, target - a.position, limits, root)
         == CopySign(NextSpeed(e, w, limits, root), target - a.position)
  {
    var adt := Times(limits.acceleration, limits.dt);
    assert limits.MaxDelta() == adt;
    BrakingSpeed(limits.acceleration, e, root);
  }

  lemma Backwards(w: real, limits: Limits)
    ensures limits.Distance(-w) == -limits.Distance(w)
  {
  }

  /** The crossing test lands exactly when the step covers the distance. */
  lemma Landing(e: real, step: real)
    requires e > 0.0
    ensures Crossed(e, e - step) <==> step >= e
    ensures Crossed(-e, step - e) <==> step >= e
  {
    var rest := e - step;
    if rest > 0.0 {
      var p := Times(e, rest);
    } else {
      var p := Times(e, -rest);
      assert e * rest == -p;
    }
    assert (-e) * (-rest) == e * rest;
  }

  // ---- Many steps towards a fixed target

  /** How one joint reacts to its target under the limits in force. */
  type ControlLaw = (Axis, real, Limits) -> AxisStep

  function ServoLaw(root: real -> real): ControlLaw {
    (a: Axis, target: real, limits: Limits) => StepAxis(a, target, limits, root)
  }

  lemma LawIsStep(a: Axis, target: real, limits: Limits, root: real -> real)
    ensures ServoLaw(root)(a, target, limits) == StepAxis(a, target, limits, root)
  {
  }

  function Along(law: ControlLaw, a: Axis, target: real, limits: Limits, n: nat): Axis {
    if n == 0 then a else law(Along(law, a, target, limits, n - 1), target, limits).axis
  }

  /** Within the speed limit and not moving away from the target. */
  predicate OnCourse(a: Axis, target: real, limits: Limits) {
    Abs(a.velocity) <= limits.velocity && Approaching(a, target, Abs(target - a.position), Abs(a.velocity))
  }

  /** x lies between from and to, both included. */
  predicate Between(x: real, from: real, to: real) {
    from <= x <= to || to <= x <= from
  }

  /** What a single step promises of a joint that is on course. */
  predicate GoodStep(a: Axis, b: Axis, target: real, limits: Limits) {
    && Between(b.position, a.position, target)
    && (Resting(b, target)
        || (OnCourse(b, target, limits)
            && Abs(b.velocity - a.velocity) <= limits.MaxDelta()
            && Abs(target - b.position) <= Abs(target - a.position) - limits.Stride()))
  }

  lemma StepIsGood(a: Axis, target: real, limits: Limits, root: real -> real)
    requires limits.Valid() && IsRoot(root) && OnCourse(a, target, limits)
    ensures GoodStep(a, StepAxis(a, target, limits, root).axis, target, limits)
  {
    var e, w := Abs(target - a.position), Abs(a.velocity);
    ApproachStep(a, target, e, w, limits, root);
    SpeedProgress(e, w, limits, root);
    BrakingSpeed(limits.acceleration, e, root);
    SpeedRange(w, Braking(limits.acceleration, e, root), limits);
    StrideIsPositive(limits);
    ApproachedIsGood(a, StepAxis(a, target, limits, root).axis, target, e, w, NextSpeed(e, w, limits, root), limits);
  }

  lemma ApproachedIsGood(a: Axis, b: Axis, target: real, e: real, w: real, w': real, limits: Limits)
    requires Approaching(a, target, e, w) && Approached(b, target, e, w', limits)
    requires 0.0 <= w' <= limits.velocity && Abs(w' - w) <= limits.MaxDelta()
    requires Headway(e, w', limits) && limits.Stride() > 0.0
    requires Resting(b, target) || SameSide(a, b, target)
    ensures GoodStep(a, b, target, limits)
  {
  }

  predicate SameSide(a: Axis, b: Axis, target: real) {
    a.position < target <==> b.position < target
  }

  lemma RestingStays(a: Axis, target: real, limits: Limits, root: real -> real)
    requires Resting(a, target)
    ensures StepAxis(a, target, limits, root) == AxisStep(a, false, 80)
  {
  }

  function Strides(k: nat, limits: Limits): real {
    if k == 0 then 0.0 else Strides(k - 1, limits) + limits.Stride()
  }

  lemma {:induction false} StridesAdd(k: nat, limits: Limits)
    ensures Strides(k, limits) == k as real * limits.Stride()
  {
    if k > 0 {
      StridesAdd(k - 1, limits);
      assert k as real == (k - 1) as real + 1.0;
    }
  }

  /** On the way from a: there already, or on course and this much closer. */
  predicate Gained(a: Axis, b: Axis, target: real, limits: Limits, gained: real) {
    && Between(b.position, a.position, target)
    && (Resting(b, target)
        || (OnCourse(b, target, limits) && Abs(target - b.position) <= Abs(target - a.position) - gained))
  }

  /** From rest: on course or already there, and k strides closer after k steps. */
  lemma {:induction false} StaysOnCourse(a: Axis, target: real, limits: Limits, root: real -> real, k: nat)
    requires limits.Valid() && IsRoot(root) && a.velocity == 0.0
    ensures var b := Along(ServoLaw(root), a, target, limits, k);
      Gained(a, b, target, limits, Strides(k, limits))
  {
    if k > 0 {
      var b := Along(ServoLaw(root), a, target, limits, k - 1);
      StaysOnCourse(a, target, limits, root, k - 1);
      LawIsStep(b, target, limits, root);
      OneStrideCloser(a, b, target, limits, root, Strides(k - 1, limits));
    }
  }

  lemma OneStrideCloser(a: Axis, b: Axis, target: real, limits: Limits, root: real -> real, gained: real)
    requires limits.Valid() && IsRoot(root) && Gained(a, b, target, limits, gained)
    ensures Gained(a, StepAxis(b, target, limits, root).axis, target, limits, gained + limits.Stride())
  {
    if Resting(b, target) {
      RestingStays(b, target, limits, root);
    } else {
      StepIsGood(b, target, limits, root);
      CloserStill(a, b, StepAxis(b, target, limits, root).axis, target, limits, gained);
    }
  }

  lemma CloserStill(a: Axis, b: Axis, c: Axis, target: real, limits: Limits, gained: real)
    requires Gained(a, b, target, limits, gained) && !Resting(b, target) && GoodStep(b, c, target, limits)
    ensures Gained(a, c, target, limits, gained + limits.Stride())
  {
  }

  /** n strides are at least this distance. */
  predicate Covers(n: nat, limits: Limits, distance: real) {
    n as real * limits.Stride() >= distance
  }

  /** From rest, the joint lies exactly on its target once its strides add up to the distance. */
  lemma Settles(a: Axis, target: real, limits: Limits, root: real -> real, n: nat)
    requires limits.Valid() && IsRoot(root) && a.velocity == 0.0 && Covers(n, limits, Abs(target - a.position))
    ensures Resting(Along(ServoLaw(root), a, target, limits, n), target)
  {
    StaysOnCourse(a, target, limits, root, n);
    StridesAdd(n, limits);
  }

  /** In particular within ceil(distance / min(v dt, a dt dt)) steps. */
  lemma SettlesWithinBound(a: Axis, target: real, limits: Limits, root: real -> real)
    requires limits.Valid() && IsRoot(root) && a.velocity == 0.0
    ensures limits.Stride() > 0.0
    ensures var n := Ceil(Abs(target - a.position) / limits.Stride());
      n >= 0 && Resting(Along(ServoLaw(root), a, target, limits, n), target)
  {
    StrideIsPositive(limits);
    var d, s := Abs(target - a.position), limits.Stride();
    QuotientBelow(d, s, 0.0);
    var n := Ceil(d / s);
    QuotientBelow(d, s, n as real);
    Settles(a, target, limits, root, n);
  }
}
