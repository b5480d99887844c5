/** One step of a servo in plain numbers: the speed wanted, the speed reached, landing, rounding, the current drawn. */
module ServoMeaning {
  import opened RobotModel
  import opened Servo

  /** k is the integer nearest to x, the even one of two. */
  predicate Nearest(x: real, k: int) {
    && k as real - 0.5 <= x <= k as real + 0.5
    && (x == k as real - 0.5 || x == k as real + 0.5 ==> k % 2 == 0)
  }

  lemma RoundingIsNearest(x: real, k: int)
    ensures RoundHalfEven(x) == k <==> Nearest(x, k)
  {
    var low := x.Floor;
    assert low as real <= x < low as real + 1.0;
    if Nearest(x, k) {
      assert k == low || k == low + 1;
    }
  }

  /** Towards the target, within the limit, and able to stop within the error; as fast as that allows. */
  predicate Wanted(want: real, error: real, velocity: real, acceleration: real) {
    && (error >= 0.0 ==> want >= 0.0) && (error <= 0.0 ==> want <= 0.0)
    && -velocity <= want <= velocity && want * want <= 2.0 * acceleration * Abs(error)
    && (want == velocity || want == -velocity || want * want == 2.0 * acceleration * Abs(error))
  }

  /** From v to the wanted speed, or as far as one step's acceleration takes it. */
  predicate Reached(v': real, v: real, want: real, most: real) {
    if v - most <= want <= v + most then v' == want
    else if want > v then v' == v + most
    else v' == v - most
  }

  /** The step ends on the target, at rest, if it would get there or past it. */
  predicate Ended(b: Axis, from: real, next: real, v: real, target: real) {
    if from <= target <= next || next <= target <= from then b == Axis(target, 0.0) else b == Axis(next, v)
  }

  predicate Draws(currentMa: int, speed: real, error: real) {
    && currentMa <= 1200
    && (Nearest(80.0 + 3.0 * speed + 0.6 * error, currentMa)
        || (currentMa == 1200 && 80.0 + 3.0 * speed + 0.6 * error >= 1200.5))
  }

  /** Within a millionth of the target and of rest. */
  predicate Arrived(a: Axis, target: real) {
    -0.000001 <= target - a.position <= 0.000001 && -0.000001 <= a.velocity <= 0.000001
  }

  /** With this speed wanted and this one reached, the step takes joint a to b. */
  predicate Moves(a: Axis, target: real, velocity: real, acceleration: real, dt: real, want: real, v: real, b: Axis) {
    && Wanted(want, target - a.position, velocity, acceleration)
    && Reached(v, a.velocity, want, acceleration * dt)
    && Ended(b, a.position, a.position + v * dt, v, target)
  }

  ghost predicate StepRule(a: Axis, target: real, velocity: real, acceleration: real, dt: real, s: AxisStep) {
    if Arrived(a, target) then s == AxisStep(Axis(target, 0.0), false, 80)
    else
      && s.moving && Draws(s.currentMa, Abs(s.axis.velocity), Abs(target - a.position))
      && exists want, v :: Moves(a, target, velocity, acceleration, dt, want, v, s.axis)
  }

  lemma StepMeans(a: Axis, target: real, limits: Limits, root: real -> real)
    requires limits.Valid() && IsRoot(root)
    ensures StepRule(a, target, limits.velocity, limits.acceleration, limits.dt, StepAxis(a, target, limits, root))
  {
    var s := StepAxis(a, target, limits, root);
    if !Arrived(a, target) {
      var want, v := MoveMeans(a, target, limits, root, s);
    } else {
      StepStays(a, target, limits, root, s);
    }
  }

  lemma MoveMeans(a: Axis, target: real, limits: Limits, root: real -> real, s: AxisStep)
    returns (want: real, v: real)
    requires limits.Valid() && IsRoot(root) && s == StepAxis(a, target, limits, root) && !Arrived(a, target)
    ensures s.moving && Draws(s.currentMa, Abs(s.axis.velocity), Abs(target - a.position))
    ensures Moves(a, target, limits.velocity, limits.acceleration, limits.dt, want, v, s.axis)
  {
    v := NextVelocity(a.velocity, target - a.position, limits, root);
    want := SpeedWanted(a.velocity, target - a.position, limits, root, v);
    MoveUnfolds(a, target, limits, root, v, s);
  }

  lemma MoveUnfolds(a: Axis, target: real, limits: Limits, root: real -> real, v: real, s: AxisStep)
    requires v == NextVelocity(a.velocity, target - a.position, limits, root)
    requires s == StepAxis(a, target, limits, root) && !Arrived(a, target)
    ensures s.moving && Ended(s.axis, a.position, a.position + v * limits.dt, v, target)
    ensures Draws(s.currentMa, Abs(s.axis.velocity), Abs(target - a.position))
  {
    var distance := v * limits.dt;
    StepIsMove(a, target, limits, root, v, distance, s);
    Landed(a, target, v, distance, s);
  }

  lemma StepIsMove(a: Axis, target: real, limits: Limits, root: real -> real, v: real, distance: real, s: AxisStep)
    requires v == NextVelocity(a.velocity, target - a.position, limits, root) && distance == v * limits.dt
    requires s == StepAxis(a, target, limits, root) && !Arrived(a, target)
    ensures s == MoveAxis(a, target, v, distance)
  {
    assert limits.Distance(v) == distance;
  }

  lemma StepStays(a: Axis, target: real, limits: Limits, root: real -> real, s: AxisStep)
    requires s == StepAxis(a, target, limits, root) && Arrived(a, target)
    ensures s == AxisStep(Axis(target, 0.0), false, 80)
  {
  }

  lemma Landed(a: Axis, target: real, v: real, distance: real, s: AxisStep)
    requires s == MoveAxis(a, target, v, distance)
    ensures s.moving && Ended(s.axis, a.position, a.position + distance, v, target)
    ensures Draws(s.currentMa, Abs(s.axis.velocity), Abs(target - a.position))
  {
    LandsExactly(a.position, target, a.position + distance);
    CurrentDrawn(Abs(s.axis.velocity), Abs(target - a.position), s.currentMa);
  }

  lemma SpeedWanted(v: real, error: real, limits: Limits, root: real -> real, v': real) returns (want: real)
    requires limits.Valid() && IsRoot(root) && v' == NextVelocity(v, error, limits, root)
    ensures Wanted(want, error, limits.velocity, limits.acceleration)
    ensures Reached(v', v, want, limits.acceleration * limits.dt)
  {
    want := Desired(error, limits.velocity, limits.acceleration, root);
    var most := Times(limits.acceleration, limits.dt);
    assert limits.MaxDelta() == most;
    SpeedReached(v, want, most, v');
  }

  lemma Desired(error: real, velocity: real, acceleration: real, root: real -> real) returns (want: real)
    requires velocity > 0.0 && acceleration > 0.0 && IsRoot(root)
    ensures want == CopySign(Min(velocity, Braking(acceleration, Abs(error), root)), error)
    ensures Wanted(want, error, velocity, acceleration)
  {
    var b := Braking(acceleration, Abs(error), root);
    BrakingSpeed(acceleration, Abs(error), root);
    want := CopySign(Min(velocity, b), error);
    BestSpeed(error, velocity, acceleration, b, want);
  }

  lemma ZeroSquare(b: real)
    requires b >= 0.0 && b * b == 0.0
    ensures b == 0.0
  {
    var s := Times(b, b);
  }

  lemma BestSpeed(error: real, velocity: real, acceleration: real, b: real, want: real)
    requires velocity > 0.0 && b >= 0.0 && b * b == 2.0 * acceleration * Abs(error)
    requires want == CopySign(Min(velocity, b), error) && acceleration > 0.0
    ensures Wanted(want, error, velocity, acceleration)
  {
    assert want * want == Min(velocity, b) * Min(velocity, b);
    if velocity < b {
      ProductMonotone(velocity, b, velocity);
      ProductMonotone(velocity, b, b);
    }
    if error == 0.0 {
      ZeroSquare(b);
    }
  }

  lemma SpeedReached(v: real, want: real, most: real, v': real)
    requires most > 0.0
    requires v' == if Abs(want - v) > most then v + CopySign(most, want - v) else want
    ensures Reached(v', v, want, most)
  {
  }

  /** The sign test of the step is the question whether the target lies on the way. */
  lemma LandsExactly(from: real, target: real, next: real)
    ensures Crossed(target - from, target - next) <==> from <= target <= next || next <= target <= from
  {
    var x, y := target - from, target - next;
    if x > 0.0 && y > 0.0 {
      ProductPositive(x, y);
    } else if x < 0.0 && y < 0.0 {
      ProductPositive(-x, -y);
      assert (-x) * (-y) == x * y;
    } else if x >= 0.0 && y <= 0.0 {
      ProductNonNegative(x, -y);
      assert x * -y == -(x * y);
    } else {
      ProductNonNegative(-x, y);
      assert -x * y == -(x * y);
    }
  }

  lemma CurrentDrawn(speed: real, error: real, currentMa: int)
    requires speed >= 0.0 && error >= 0.0
    requires var amps := RoundHalfEven(80.0 + 3.0 * speed + 0.6 * error);
      currentMa == if amps < 1200 then amps else 1200
    ensures Draws(currentMa, speed, error)
  {
    var x := 80.0 + 3.0 * speed + 0.6 * error;
    RoundingIsNearest(x, RoundHalfEven(x));
  }
}
