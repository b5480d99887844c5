/** What a trajectory is: sampled cubic motion, of the least duration and with the fewest samples the limits allow. */
module TrajectoryShape {
  import opened RobotModel
  import opened Trajectory
  import opened TrajectoryBounds

  // ---- Motion with constant jerk

  /** From p, v, a to p', v', a' within h, which is the part r of d, when the jerk is -12 delta / d^3 throughout. */
  predicate ConstantJerk(p: real, v: real, a: real, p': real, v': real, a': real, delta: real, d: real, h: real,
                         r: real)
    requires d > 0.0
  {
    && p' == p + v * h + a * h * h / 2.0 - 2.0 * delta * r * r * r
    && v' == v + a * h - 6.0 * delta * r * r / d
    && a' == a - 12.0 * delta * r / d / d
  }

  /** Between any two samples: velocity and acceleration belong to the position, and the jerk is constant. */
  lemma SamplesAreKinematic(start: Joints, target: Joints, d: real, steps: nat, i: nat, k: nat, n: string)
    requires start.Keys == target.Keys && n in start && d > 0.0 && steps > 0
    requires i <= steps && k <= steps
    ensures var samples := Planned(start, target, d, steps).samples;
      var s, t := samples[i], samples[k];
      var h := t.time - s.time;
      && h == (k as real - i as real) * (d / steps as real)
      && ConstantJerk(s.positions[n], s.velocities[n], s.accelerations[n],
                      t.positions[n], t.velocities[n], t.accelerations[n], target[n] - start[n], d, h, h / d)
  {
    var g, h := TimesApart(d, steps, i, k);
    var samples := Planned(start, target, d, steps).samples;
    PointsAreKinematic(start, target, d, TimeAt(d, steps, i), TimeAt(d, steps, k),
                       FractionAt(d, steps, i), FractionAt(d, steps, k), n, h, g, samples[i], samples[k]);
  }

  lemma TimesApart(d: real, steps: nat, i: nat, k: nat) returns (g: real, h: real)
    requires d > 0.0 && steps > 0 && i <= steps && k <= steps
    ensures g == FractionAt(d, steps, k) - FractionAt(d, steps, i) && h == TimeAt(d, steps, k) - TimeAt(d, steps, i)
    ensures h == g * d && h == (k as real - i as real) * (d / steps as real)
  {
    TimeIsMultiple(d, steps, i);
    TimeIsMultiple(d, steps, k);
    FractionOfDuration(d, i, steps);
    FractionOfDuration(d, k, steps);
    Distributes(FractionAt(d, steps, k), FractionAt(d, steps, i), d);
    Distributes(k as real, i as real, d / steps as real);
    g, h := FractionAt(d, steps, k) - FractionAt(d, steps, i), TimeAt(d, steps, k) - TimeAt(d, steps, i);
  }

  lemma Distributes(x: real, y: real, z: real)
    ensures (x - y) * z == x * z - y * z
  {
  }

  lemma PointsAreKinematic(start: Joints, target: Joints, d: real, t: real, t': real, u: real, w: real, n: string,
                           h: real, g: real, p: Sample, q: Sample)
    requires start.Keys == target.Keys && n in start && d > 0.0
    requires p == SampleFor(start, target, d, t, u) && q == SampleFor(start, target, d, t', w)
    requires h == t' - t && g == w - u && h == g * d
    ensures ConstantJerk(p.positions[n], p.velocities[n], p.accelerations[n], q.positions[n], q.velocities[n],
                         q.accelerations[n], target[n] - start[n], d, h, h / d)
  {
    QuotientIs(h, d, g);
    var s := SquareOf(d);
    CubicIsKinematic(start[n], p.positions[n], p.velocities[n], p.accelerations[n], q.positions[n], q.velocities[n],
                     q.accelerations[n], target[n] - start[n], d, s, u, w, h, h / d);
  }

  lemma CubicIsKinematic(x: real, p: real, v: real, a: real, p': real, v': real, a': real, delta: real, d: real,
                         s: real, u: real, w: real, h: real, g: real)
    requires d > 0.0 && d * d == s > 0.0 && g == w - u && h == g * d
    requires p == x + Scaled(delta, Scale(u)) && p' == x + Scaled(delta, Scale(w))
    requires v == Scaled(delta, ScaleVelocity(u, d)) && v' == Scaled(delta, ScaleVelocity(w, d))
    requires a == Scaled(delta, ScaleAcceleration(u, d)) && a' == Scaled(delta, ScaleAcceleration(w, d))
    ensures ConstantJerk(p, v, a, p', v', a', delta, d, h, g)
  {
    var vx, ay := 6.0 * u - 6.0 * u * u, 6.0 - 12.0 * u;
    VelocityOverTime(v, delta, vx, d, g, h);
    AccelerationOverTime(a, delta, ay, d, s, g, h);
    PositionGain(delta, u, w, g, vx, ay);
    VelocityGain(v, v', delta, u, w, d, g, vx, ay);
    AccelerationGain(a, a', delta, u, w, s, g);
    DividedTwice(12.0 * delta * g, d, s);
    Assemble(p, v, a, p', v', a', delta, d, h, g, delta * vx * g, delta * ay * g * g / 2.0, delta * (ay * g) / d);
  }

  lemma Assemble(p: real, v: real, a: real, p': real, v': real, a': real, delta: real, d: real, h: real, g: real,
                 way: real, curve: real, gain: real)
    requires d > 0.0
    requires v * h == way && a * h * h / 2.0 == curve && a * h == gain
    requires p' == p + way + curve - 2.0 * delta * g * g * g
    requires v' == v + gain - 6.0 * delta * g * g / d
    requires a' == a - 12.0 * delta * g / d / d
    ensures ConstantJerk(p, v, a, p', v', a', delta, d, h, g)
  {
  }

  lemma VelocityOverTime(v: real, delta: real, x: real, d: real, g: real, h: real)
    requires d > 0.0 && h == g * d && v == Scaled(delta, x / d)
    ensures v * h == delta * x * g
  {
    QuotientTimes(x, d);
    var q := x / d;
    assert delta * q * (g * d) == delta * (q * d) * g;
  }

  lemma AccelerationOverTime(a: real, delta: real, y: real, d: real, s: real, g: real, h: real)
    requires d > 0.0 && s == d * d && s > 0.0 && h == g * d && a == Scaled(delta, y / s)
    ensures a * h == delta * (y * g) / d
    ensures a * h * h / 2.0 == delta * y * g * g / 2.0
  {
    QuotientTimes(y, s);
    var q, p := y / s, a * h;
    OverTime(delta, q, y, d, s, g, h, p);
    QuotientOfProduct(p, d);
    OverTimeTwice(p, delta, y, d, g, h);
  }

  lemma OverTime(delta: real, q: real, y: real, d: real, s: real, g: real, h: real, p: real)
    requires q * s == y && s == d * d && h == g * d && p == delta * q * h
    ensures p * d == delta * (y * g)
  {
    assert p * d == delta * ((q * (d * d)) * g);
  }

  lemma OverTimeTwice(p: real, delta: real, y: real, d: real, g: real, h: real)
    requires h == g * d && p * d == delta * (y * g)
    ensures p * h == delta * y * g * g
  {
    assert p * (g * d) == (p * d) * g;
    assert delta * (y * g) * g == delta * y * g * g;
  }

  lemma PositionGain(delta: real, u: real, w: real, g: real, x: real, y: real)
    requires g == w - u && x == 6.0 * u - 6.0 * u * u && y == 6.0 - 12.0 * u
    ensures Scaled(delta, Scale(w))
         == Scaled(delta, Scale(u)) + delta * x * g + delta * y * g * g / 2.0 - 2.0 * delta * g * g * g
  {
    assert Scale(w) == Scale(u) + x * g + y * g * g / 2.0 - 2.0 * g * g * g;
    SumTimes(delta, Scale(u), x * g, y * g * g / 2.0, 2.0 * g * g * g);
  }

  lemma SumTimes(delta: real, a: real, b: real, c: real, d: real)
    ensures delta * (a + b + c - d) == delta * a + delta * b + delta * c - delta * d
  {
  }

  lemma VelocityGain(v: real, v': real, delta: real, u: real, w: real, d: real, g: real, x: real, y: real)
    requires d > 0.0 && g == w - u && x == 6.0 * u - 6.0 * u * u && y == 6.0 - 12.0 * u
    requires v == Scaled(delta, ScaleVelocity(u, d)) && v' == Scaled(delta, ScaleVelocity(w, d))
    ensures v' == v + delta * (y * g) / d - 6.0 * delta * g * g / d
  {
    assert 6.0 * w - 6.0 * w * w == x + y * g - 6.0 * (g * g);
    ScaledQuotient(delta, x, d);
    ScaledQuotient(delta, 6.0 * w - 6.0 * w * w, d);
    SumOverDivisor(delta, x, y * g, g * g, d);
    assert 6.0 * delta * (g * g) == 6.0 * delta * g * g;
  }

  lemma SumOverDivisor(delta: real, x: real, y: real, z: real, d: real)
    requires d > 0.0
    ensures delta * (x + y - 6.0 * z) / d == delta * x / d + delta * y / d - 6.0 * delta * z / d
  {
    assert delta * (x + y - 6.0 * z) == delta * x + delta * y - 6.0 * delta * z;
  }

  lemma AccelerationGain(a: real, a': real, delta: real, u: real, w: real, s: real, g: real)
    requires s > 0.0 && g == w - u
    requires a == Scaled(delta, (6.0 - 12.0 * u) / s) && a' == Scaled(delta, (6.0 - 12.0 * w) / s)
    ensures a' == a - 12.0 * delta * g / s
  {
    ScaledQuotient(delta, 6.0 - 12.0 * u, s);
    ScaledQuotient(delta, 6.0 - 12.0 * w, s);
    assert delta * (6.0 - 12.0 * w) == delta * (6.0 - 12.0 * u) - 12.0 * delta * g;
  }

  lemma DividedTwice(x: real, d: real, s: real)
    requires d > 0.0 && s == d * d && s > 0.0
    ensures x / d / d == x / s
  {
    QuotientTimes(x, s);
    var q := x / s;
    assert q * s == (q * d) * d;
    QuotientOfProduct(q * d, d);
    QuotientOfProduct(q, d);
  }

  // ---- The least duration

  /** A cubic motion over this duration peaks within both limits: 3/2 of the mean velocity, and 6 / d^2 of the way. */
  predicate PeaksWithin(delta: real, d: real, v: real, a: real)
    requires d > 0.0
  {
    1.5 * Abs(delta) / d <= v && 6.0 * Abs(delta) / d / d <= a
  }

  /** Every joint's peaks are within the strictest limits, and the duration is no shorter than the shortest allowed. */
  ghost predicate Admissible(model: Model, start: Joints, target: Joints, d: real)
    requires model.Valid() && model.WithinLimits(start) && model.WithinLimits(target) && d > 0.0
  {
    && d >= SHORTEST
    && forall n :: n in model.joints ==>
         PeaksWithin(target[n] - start[n], d, model.StrictestVelocity(), model.StrictestAcceleration())
  }

  /** The minimum duration is the least admissible one, stretched by the margin. */
  lemma MinimumIsLeast(model: Model, start: Joints, target: Joints, root: real -> real, d: real)
    requires model.Valid() && model.WithinLimits(start) && model.WithinLimits(target) && IsRoot(root) && d > 0.0
    ensures Admissible(model, start, target, d) <==> Minimum(model, start, target, root) <= d * MARGIN
  {
    BoundsMeanPeaks(model, start, target, model.StrictestVelocity(), model.StrictestAcceleration(), root, d);
  }

  lemma BoundsMeanPeaks(model: Model, start: Joints, target: Joints, v: real, a: real, root: real -> real, d: real)
    requires model.Valid() && start.Keys == target.Keys == model.joints.Keys && v > 0.0 && a > 0.0
    requires IsRoot(root) && d > 0.0
    ensures LongestBound(model.names, start, target, v, a, root, |model.names|) <= d
       <==> forall n :: n in model.joints ==> PeaksWithin(target[n] - start[n], d, v, a)
  {
    forall n | n in model.joints
      ensures PeaksWithin(target[n] - start[n], d, v, a) <==> JointBound(Travel(start, target, n), v, a, root) <= d
    {
      BoundMeansPeaks(target[n] - start[n], d, v, a, root);
    }
    LongestExactly(model.names, start, target, v, a, root, |model.names|, d);
    NamesAreJoints(model, start, target, v, a, root, d);
  }

  lemma NamesAreJoints(model: Model, start: Joints, target: Joints, v: real, a: real, root: real -> real, d: real)
    requires model.Valid() && start.Keys == target.Keys == model.joints.Keys && v > 0.0 && a > 0.0
    ensures (forall i :: 0 <= i < |model.names| ==> JointBound(Travel(start, target, model.names[i]), v, a, root) <= d)
       <==> (forall n :: n in model.joints ==> JointBound(Travel(start, target, n), v, a, root) <= d)
  {
    forall i | 0 <= i < |model.names|
      ensures model.names[i] in model.joints
    {
      assert model.names[i] in model.names;
    }
    if forall i :: 0 <= i < |model.names| ==> JointBound(Travel(start, target, model.names[i]), v, a, root) <= d {
      forall n | n in model.joints
        ensures JointBound(Travel(start, target, n), v, a, root) <= d
      {
        var k :| 0 <= k < |model.names| && model.names[k] == n;
      }
    }
  }

  lemma {:induction false} LongestExactly(names: seq<string>, start: Joints, target: Joints, v: real, a: real,
                                           root: real -> real, i: nat, d: real)
    requires i <= |names| && v > 0.0 && a > 0.0 && d >= 0.0
    requires forall n :: n in names ==> n in start && n in target
    ensures LongestBound(names, start, target, v, a, root, i) <= d
       <==> forall k :: 0 <= k < i ==> JointBound(Travel(start, target, names[k]), v, a, root) <= d
  {
    if i > 0 {
      LongestExactly(names, start, target, v, a, root, i - 1, d);
    }
  }

  lemma BoundMeansPeaks(delta: real, d: real, v: real, a: real, root: real -> real)
    requires IsRoot(root) && d > 0.0 && v > 0.0 && a > 0.0
    ensures PeaksWithin(delta, d, v, a) <==> JointBound(Abs(delta), v, a, root) <= d
  {
    var m := Abs(delta);
    var s := SquareOf(d);
    DividedTwice(6.0 * m, d, s);
    Transposed(1.5 * m, d, v);
    Transposed(6.0 * m, s, a);
    if m == 0.0 {
      ProductPositive(v, d);
      ProductPositive(a, s);
    } else {
      var r := RootBound(m, a, root);
      RootOrder(r, d);
    }
  }

  lemma Transposed(x: real, y: real, z: real)
    requires y > 0.0 && z > 0.0
    ensures x / y <= z <==> x / z <= y
  {
    QuotientBelow(x, y, z);
    QuotientBelow(x, z, y);
  }

  lemma RootOrder(r: real, d: real)
    requires r >= 0.0 && d >= 0.0
    ensures r <= d <==> r * r <= d * d
  {
    assert d * d - r * r == (d - r) * (d + r);
    if r <= d {
      ProductNonNegative(d - r, d + r);
    } else {
      ProductPositive(r - d, d + r);
      assert (d - r) * (d + r) == -((r - d) * (d + r));
    }
  }

  // ---- The fewest samples

  /** The number of intervals is the least that keeps them no longer than the sample period. */
  lemma StepsIsLeast(d: real, period: real, n: nat)
    requires period > 0.0 && n >= 1
    ensures d / n as real <= period <==> Steps(d, period) <= n
  {
    var s, c := n as real, Ceil(d / period);
    QuotientBelow(d, s, period);
    QuotientBelow(d, period, s);
    if c <= n {
      assert c as real <= s;
    } else {
      assert n + 1 <= c;
      assert (n + 1) as real == s + 1.0;
      assert s + 1.0 <= c as real;
    }
  }
}
