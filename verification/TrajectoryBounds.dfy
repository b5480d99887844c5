/** Every sample of an accepted trajectory is strictly within the strictest limits. */
module TrajectoryBounds {
  import opened RobotModel
  import opened Trajectory

  // ---- Arithmetic of the cubic on [0, 1]

  lemma CubicRange(u: real)
    requires 0.0 <= u <= 1.0
    ensures 0.0 <= Scale(u) <= 1.0
    ensures 0.0 <= 6.0 * u - 6.0 * u * u <= 1.5
    ensures Abs(6.0 - 12.0 * u) <= 6.0
  {
    var p := 1.0 - u;
    ProductNonNegative(u, p);
    ProductNonNegative(u, u);
    ProductNonNegative(p, p);
    ProductNonNegative(u * u, 3.0 - 2.0 * u);
    ProductNonNegative(p * p, 1.0 + 2.0 * u);
    assert Scale(u) == u * u * (3.0 - 2.0 * u);
    assert 1.0 - Scale(u) == p * p * (1.0 + 2.0 * u);
    assert 6.0 * u - 6.0 * u * u == 6.0 * (u * p);
    Square(u - 0.5);
    assert 1.5 - (6.0 * u - 6.0 * u * u) == 6.0 * ((u - 0.5) * (u - 0.5));
  }

  lemma Square(x: real)
    ensures x * x >= 0.0
  {
    if x >= 0.0 {
      ProductNonNegative(x, x);
    } else {
      ProductNonNegative(-x, -x);
      assert x * x == (-x) * (-x);
    }
  }

  lemma CubicIncreases(u: real, w: real)
    requires 0.0 <= u <= w <= 1.0
    ensures Scale(u) <= Scale(w)
  {
    var d := w - u;
    var a, b, c := u * u, w * w, u * w;
    ProductNonNegative(u, 1.0 - u);
    ProductNonNegative(w, 1.0 - w);
    Square(d);
    assert a <= u && b <= w && 2.0 * c <= a + b by {
      assert u * (1.0 - u) == u - a && w * (1.0 - w) == w - b && d * d == a + b - 2.0 * c;
    }
    var f := 3.0 * (u + w) - 2.0 * (a + c + b);
    ProductNonNegative(d, f);
    assert Scale(w) - Scale(u) == d * f;
  }

  /** |delta * (x / d)| stays below limit when |x| is at most most and |delta| * most is below limit * d. */
  lemma Below(delta: real, x: real, most: real, d: real, limit: real)
    requires d > 0.0 && Abs(x) <= most && Abs(delta) * most < limit * d
    ensures Abs(Scaled(delta, x / d)) < limit
  {
    ProductMonotone(Abs(x), most, Abs(delta));
    assert Abs(x) * Abs(delta) == Abs(delta * x);
    var y := delta * x;
    QuotientBelow(y, d, limit);
    QuotientBelow(y, d, -limit);
    assert -limit * d == -(limit * d);
    ScaledQuotient(delta, x, d);
  }

  lemma ScaledQuotient(delta: real, x: real, d: real)
    requires d != 0.0
    ensures Scaled(delta, x / d) == (delta * x) / d
  {
    var q := x / d;
    QuotientTimes(x, d);
    assert delta * x == (delta * q) * d;
    QuotientOfProduct(delta * q, d);
  }

  // ---- One joint

  lemma VelocityInside(delta: real, u: real, d: real, v: real)
    requires 0.0 <= u <= 1.0 && d > 0.0 && v > 0.0
    requires delta != 0.0 ==> d > 1.5 * Abs(delta) / v
    ensures Abs(Scaled(delta, ScaleVelocity(u, d))) < v
  {
    CubicRange(u);
    assert Abs(delta) * 1.5 < v * d by {
      if delta != 0.0 {
        QuotientBelow(1.5 * Abs(delta), v, d);
      } else {
        ProductPositive(v, d);
      }
    }
    Below(delta, 6.0 * u - 6.0 * u * u, 1.5, d, v);
  }

  lemma SquareOf(d: real) returns (s: real)
    requires d > 0.0
    ensures s == d * d && s > 0.0
  {
    s := Times(d, d);
  }

  lemma AccelerationInside(delta: real, u: real, d: real, a: real, r: real)
    requires 0.0 <= u <= 1.0 && d > 0.0 && a > 0.0
    requires delta != 0.0 ==> d > r >= 0.0 && r * r == 6.0 * Abs(delta) / a
    ensures d * d > 0.0 && Abs(Scaled(delta, ScaleAcceleration(u, d))) < a
  {
    CubicRange(u);
    var s := SquareOf(d);
    ProductPositive(a, s);
    if delta != 0.0 {
      ProductStrict(r, d, d);
      ProductMonotone(r, d, r);
      QuotientBelow(6.0 * Abs(delta), a, s);
    }
    Below(delta, 6.0 - 12.0 * u, 6.0, s, a);
  }

  // ---- Accepted durations

  lemma {:induction false} LongestIsLongest(names: seq<string>, start: Joints, target: Joints, v: real, a: real,
                                             root: real -> real, i: nat, k: nat)
    requires k < i <= |names| && v > 0.0 && a > 0.0
    requires forall n :: n in names ==> n in start && n in target
    ensures JointBound(Travel(start, target, names[k]), v, a, root) <= LongestBound(names, start, target, v, a, root, i)
    decreases i
  {
    if k < i - 1 {
      LongestIsLongest(names, start, target, v, a, root, i - 1, k);
    }
  }

  /** The margin outweighs the slack, so an accepted duration exceeds every joint's bound. */
  lemma AcceptedExceedsBound(model: Model, start: Joints, target: Joints, root: real -> real, d: real, n: string)
    requires model.Valid() && model.WithinLimits(start) && model.WithinLimits(target) && n in model.joints
    requires d + SLACK >= Minimum(model, start, target, root)
    ensures d > 0.0
    ensures d > JointBound(Travel(start, target, n), model.StrictestVelocity(), model.StrictestAcceleration(), root)
  {
    var k :| 0 <= k < |model.names| && model.names[k] == n;
    LongestIsLongest(model.names, start, target, model.StrictestVelocity(), model.StrictestAcceleration(), root,
                     |model.names|, k);
  }

  lemma FractionOfDuration(d: real, index: nat, steps: nat)
    requires d > 0.0 && index <= steps && steps > 0
    ensures FractionAt(d, steps, index) == index as real / steps as real
    ensures 0.0 <= index as real / steps as real <= 1.0
    ensures TimeAt(d, steps, index) == d * (index as real / steps as real)
    ensures 0.0 <= TimeAt(d, steps, index) <= d
  {
    var i, s := index as real, steps as real;
    var t := TimeAt(d, steps, index);
    QuotientBelow(i, s, 1.0);
    QuotientBelow(i, s, 0.0);
    var u := i / s;
    TimeIs(d, i, s, u);
    QuotientIs(t, d, u);
    ProductNonNegative(d, u);
    ProductMonotone(u, 1.0, d);
  }

  lemma TimeIs(d: real, i: real, s: real, u: real)
    requires s > 0.0 && u == i / s
    ensures d * i / s == d * u
  {
    QuotientTimes(i, s);
    var p := Times(d, u);
    assert p * s == d * (u * s);
    QuotientOfProduct(p, s);
  }

  lemma QuotientOfProduct(x: real, y: real)
    requires y != 0.0
    ensures (x * y) / y == x
  {
  }

  lemma Between(x: real, y: real, k: real)
    requires 0.0 <= k <= 1.0
    ensures Min(x, y) <= x + Scaled(y - x, k) <= Max(x, y)
  {
    if y >= x {
      ProductNonNegative(y - x, k);
      ProductNonNegative(y - x, 1.0 - k);
      assert (y - x) * (1.0 - k) == (y - x) - (y - x) * k;
    } else {
      ProductNonNegative(x - y, k);
      ProductNonNegative(x - y, 1.0 - k);
      assert (x - y) * (1.0 - k) == (x - y) - (x - y) * k;
      assert (y - x) * k == -((x - y) * k);
    }
  }

  lemma JointIsSafe(x: real, y: real, u: real, d: real, v: real, a: real, root: real -> real)
    requires IsRoot(root) && 0.0 <= u <= 1.0 && d > 0.0 && v > 0.0 && a > 0.0
    requires d > JointBound(Abs(y - x), v, a, root)
    ensures Abs(Scaled(y - x, ScaleVelocity(u, d))) < v
    ensures d * d > 0.0 && Abs(Scaled(y - x, ScaleAcceleration(u, d))) < a
    ensures Min(x, y) <= x + Scaled(y - x, Scale(u)) <= Max(x, y)
  {
    var r := RootBound(Abs(y - x), a, root);
    VelocityInside(y - x, u, d, v);
    AccelerationInside(y - x, u, d, a, r);
    CubicRange(u);
    Between(x, y, Scale(u));
  }

  lemma RootBound(delta: real, a: real, root: real -> real) returns (r: real)
    requires IsRoot(root) && a > 0.0 && delta >= 0.0
    ensures r == root(6.0 * delta / a) >= 0.0 && r * r == 6.0 * delta / a
  {
    QuotientBelow(6.0 * delta, a, 0.0);
    r := root(6.0 * delta / a);
  }

  /** At every point: strictly inside both limits. */
  lemma PointIsSafe(start: Joints, target: Joints, root: real -> real, v: real, a: real, d: real, time: real, u: real,
                    n: string)
    requires start.Keys == target.Keys && n in start && IsRoot(root) && v > 0.0 && a > 0.0
    requires 0.0 <= u <= 1.0 && d > 0.0 && d > JointBound(Travel(start, target, n), v, a, root)
    ensures var s := SampleFor(start, target, d, time, u); Abs(s.velocities[n]) < v && Abs(s.accelerations[n]) < a
  {
    JointIsSafe(start[n], target[n], u, d, v, a, root);
  }

  /** Later points are no farther from the target, and no point is past it. */
  lemma PointsAdvance(start: Joints, target: Joints, d: real, t: real, t': real, u: real, w: real, n: string)
    requires start.Keys == target.Keys && n in start && d > 0.0 && 0.0 <= u <= w <= 1.0
    ensures var p, q := SampleFor(start, target, d, t, u).positions[n], SampleFor(start, target, d, t', w).positions[n];
      if start[n] <= target[n] then start[n] <= p <= q <= target[n] else start[n] >= p >= q >= target[n]
  {
    CubicIncreases(u, w);
    CubicRange(u);
    CubicRange(w);
    Between(start[n], target[n], Scale(u));
    Between(start[n], target[n], Scale(w));
    Ordered(target[n] - start[n], Scale(u), Scale(w));
  }

  lemma Ordered(d: real, a: real, b: real)
    requires a <= b
    ensures if d >= 0.0 then Scaled(d, a) <= Scaled(d, b) else Scaled(d, a) >= Scaled(d, b)
  {
    if d >= 0.0 {
      ProductMonotone(a, b, d);
    } else {
      ProductMonotone(a, b, -d);
      assert a * -d == -(d * a) && b * -d == -(d * b);
    }
  }

  /** Sample i is the point at fraction i / steps; the samples are in order of time. */
  lemma SampleTimes(d: real, steps: nat, i: nat, k: nat)
    requires d > 0.0 && i <= k <= steps && steps > 0
    ensures 0.0 <= FractionAt(d, steps, i) <= FractionAt(d, steps, k) <= 1.0
    ensures 0.0 <= TimeAt(d, steps, i) <= TimeAt(d, steps, k) <= d
  {
    FractionOfDuration(d, i, steps);
    FractionOfDuration(d, k, steps);
    FractionsOrdered(i, k, steps);
    var u, w := i as real / steps as real, k as real / steps as real;
    var p := Times(d, w - u);
    assert p == d * w - d * u;
  }

  /** Every sample of every joint is strictly below both limits. */
  lemma TrajectoryWithinLimits(model: Model, start: Joints, target: Joints, root: real -> real, d: real, steps: nat,
                               i: nat, n: string)
    requires model.Valid() && model.WithinLimits(start) && model.WithinLimits(target) && IsRoot(root)
    requires d + SLACK >= Minimum(model, start, target, root) && d > 0.0
    requires i <= steps && steps > 0 && n in model.joints
    ensures var s := Planned(start, target, d, steps).samples[i];
      && Abs(s.velocities[n]) < model.StrictestVelocity()
      && Abs(s.accelerations[n]) < model.StrictestAcceleration()
  {
    AcceptedExceedsBound(model, start, target, root, d, n);
    var v, a := model.StrictestVelocity(), model.StrictestAcceleration();
    SampleWithinLimits(start, target, root, v, a, d, steps, i, n);
  }

  lemma SampleWithinLimits(start: Joints, target: Joints, root: real -> real, v: real, a: real, d: real, steps: nat,
                           i: nat, n: string)
    requires start.Keys == target.Keys && n in start && IsRoot(root) && v > 0.0 && a > 0.0
    requires d > 0.0 && d > JointBound(Travel(start, target, n), v, a, root) && i <= steps && steps > 0
    ensures var s := SampleAt(start, target, d, steps, i); Abs(s.velocities[n]) < v && Abs(s.accelerations[n]) < a
  {
    SampleTimes(d, steps, i, i);
    PointIsSafe(start, target, root, v, a, d, TimeAt(d, steps, i), FractionAt(d, steps, i), n);
  }

  /** Samples are in order of time, and take every joint from start to target without turning back. */
  lemma TrajectoryIsMonotone(start: Joints, target: Joints, d: real, steps: nat, i: nat, k: nat, n: string)
    requires start.Keys == target.Keys && n in start && d > 0.0 && i <= k <= steps && steps > 0
    ensures var s, t := SampleAt(start, target, d, steps, i), SampleAt(start, target, d, steps, k);
      && 0.0 <= s.time <= t.time <= d && (i < k ==> s.time < t.time)
      && if start[n] <= target[n]
         then start[n] <= s.positions[n] <= t.positions[n] <= target[n]
         else start[n] >= s.positions[n] >= t.positions[n] >= target[n]
  {
    SampleTimes(d, steps, i, k);
    if i < k {
      TimesIncrease(d, steps, i, k);
    }
    PointsAdvance(start, target, d, TimeAt(d, steps, i), TimeAt(d, steps, k),
                  FractionAt(d, steps, i), FractionAt(d, steps, k), n);
  }

  lemma FractionsOrdered(i: nat, k: nat, steps: nat)
    requires i <= k && steps > 0
    ensures i as real / steps as real <= k as real / steps as real
  {
    QuotientTimes(k as real, steps as real);
    QuotientBelow(i as real, steps as real, k as real / steps as real);
  }

  /** The ends are exact and at rest. */
  lemma EndsAreExact(start: Joints, target: Joints, d: real, steps: nat)
    requires start.Keys == target.Keys && d > 0.0 && steps > 0
    ensures var samples := Planned(start, target, d, steps).samples;
      var first, last := samples[0], samples[steps];
      && first.time == 0.0 && first.positions == start
      && last.time == d && last.positions == target
      && forall n :: n in start ==> first.velocities[n] == 0.0 && last.velocities[n] == 0.0
  {
    EndSamples(start, target, d, steps);
    StartPoint(start, target, d);
    EndPoint(start, target, d);
  }

  lemma EndSamples(start: Joints, target: Joints, d: real, steps: nat)
    requires start.Keys == target.Keys && d > 0.0 && steps > 0
    ensures SampleAt(start, target, d, steps, 0) == SampleFor(start, target, d, 0.0, 0.0)
    ensures SampleAt(start, target, d, steps, steps) == SampleFor(start, target, d, d, 1.0)
  {
    EndTimes(d, steps);
  }

  lemma EndTimes(d: real, steps: nat)
    requires d > 0.0 && steps > 0
    ensures TimeAt(d, steps, 0) == 0.0 && FractionAt(d, steps, 0) == 0.0
    ensures TimeAt(d, steps, steps) == d && FractionAt(d, steps, steps) == 1.0
  {
    var s := steps as real;
    FractionOfDuration(d, 0, steps);
    FractionOfDuration(d, steps, steps);
    QuotientBelow(0.0, s, 0.0);
    QuotientBelow(s, s, 1.0);
  }

  lemma StartPoint(start: Joints, target: Joints, d: real)
    requires start.Keys == target.Keys && d > 0.0
    ensures var p := SampleFor(start, target, d, 0.0, 0.0);
      p.positions == start && forall n :: n in start ==> p.velocities[n] == 0.0
  {
    assert ScaleVelocity(0.0, d) == 0.0 by { QuotientOfProduct(0.0, d); }
  }

  lemma EndPoint(start: Joints, target: Joints, d: real)
    requires start.Keys == target.Keys && d > 0.0
    ensures var p := SampleFor(start, target, d, d, 1.0);
      p.positions == target && forall n :: n in start ==> p.velocities[n] == 0.0
  {
    assert ScaleVelocity(1.0, d) == 0.0 by { QuotientOfProduct(0.0, d); }
  }

  // ---- Times

  /** Sample times are the multiples of one interval. */
  lemma TimeIsMultiple(d: real, steps: nat, index: nat)
    requires steps > 0
    ensures TimeAt(d, steps, index) == index as real * (d / steps as real)
  {
    var i, s := index as real, steps as real;
    var w := d / s;
    QuotientTimes(d, s);
    var m := Times(i, w);
    assert d * i == m * s;
    QuotientOfProduct(m, s);
    assert TimeAt(d, steps, index) == (m * s) / s;
  }

  lemma NextTime(d: real, steps: nat, index: nat)
    requires steps > 0
    ensures TimeAt(d, steps, index + 1) - TimeAt(d, steps, index) == d / steps as real
  {
    TimeIsMultiple(d, steps, index);
    TimeIsMultiple(d, steps, index + 1);
    var i, w := index as real, d / steps as real;
    assert (index + 1) as real == i + 1.0;
    assert (i + 1.0) * w == i * w + w;
  }

  lemma TimesIncrease(d: real, steps: nat, i: nat, k: nat)
    requires d > 0.0 && steps > 0 && i < k
    ensures TimeAt(d, steps, i) < TimeAt(d, steps, k)
  {
    var w := d / steps as real;
    QuotientTimes(d, steps as real);
    TimeIsMultiple(d, steps, i);
    TimeIsMultiple(d, steps, k);
    var gap := k as real - i as real;
    ProductPositive(gap, w);
    assert gap * w == k as real * w - i as real * w;
  }

  /** Each sample comes after the one before it, by at most the sample period. */
  lemma SpacingWithinPeriod(d: real, period: real, i: nat)
    requires d > 0.0 && period > 0.0 && i < Steps(d, period)
    ensures var n := Steps(d, period); 0.0 < TimeAt(d, n, i + 1) - TimeAt(d, n, i) <= period
  {
    var n := Steps(d, period);
    var s := n as real;
    QuotientTimes(d, period);
    ProductMonotone(d / period, s, period);
    QuotientBelow(d, s, period);
    NextTime(d, n, i);
    TimesIncrease(d, n, i, i + 1);
  }
}
