/** Cubic time scaling, kept strictly inside the strictest joint limits. */
module Trajectory {
  import opened Bytes
  import opened RobotModel

  const MARGIN: real := 1.000001
  const SHORTEST: real := 0.05
  const SLACK: real := 0.000000000001

  datatype TrajectoryError = BadSamplePeriod | OutsideLimits | TooShort

  datatype Sample = Sample(time: real, positions: Joints, velocities: Joints, accelerations: Joints)

  datatype JointTrajectory = JointTrajectory(duration: real, samples: seq<Sample>)

  // ---- Specification

  /** Time one joint needs to travel delta within velocity v and acceleration a. */
  function JointBound(delta: real, v: real, a: real, root: real -> real): real
    requires v > 0.0 && a > 0.0
  {
    if delta == 0.0 then 0.0 else Max(1.5 * delta / v, root(6.0 * delta / a))
  }

  function Travel(start: Joints, target: Joints, n: string): real
    requires n in start && n in target
  {
    Abs(target[n] - start[n])
  }

  /** The longest of the first i joints' bounds. */
  function LongestBound(names: seq<string>, start: Joints, target: Joints, v: real, a: real, root: real -> real, i: nat)
    : real
    requires i <= |names| && v > 0.0 && a > 0.0
    requires forall n :: n in names ==> n in start && n in target
  {
    if i == 0 then 0.0
    else Max(LongestBound(names, start, target, v, a, root, i - 1),
             JointBound(Travel(start, target, names[i - 1]), v, a, root))
  }

  function Minimum(model: Model, start: Joints, target: Joints, root: real -> real): real
    requires model.Valid() && model.WithinLimits(start) && model.WithinLimits(target)
  {
    var longest := LongestBound(model.names, start, target, model.StrictestVelocity(), model.StrictestAcceleration(),
                                root, |model.names|);
    Max(longest, SHORTEST) * MARGIN
  }

  function Scale(u: real): real {
    3.0 * u * u - 2.0 * u * u * u
  }

  function ScaleVelocity(u: real, duration: real): real
    requires duration != 0.0
  {
    (6.0 * u - 6.0 * u * u) / duration
  }

  function ScaleAcceleration(u: real, duration: real): real
    requires duration * duration != 0.0
  {
    (6.0 - 12.0 * u) / (duration * duration)
  }

  function Scaled(delta: real, factor: real): real {
    delta * factor
  }

  /** The point of the trajectory at fraction u of its duration. */
  function SampleFor(start: Joints, target: Joints, duration: real, time: real, u: real): Sample
    requires start.Keys == target.Keys && duration > 0.0
  {
    Sample(time,
           map n | n in start :: start[n] + Scaled(target[n] - start[n], Scale(u)),
           map n | n in start :: Scaled(target[n] - start[n], ScaleVelocity(u, duration)),
           map n | n in start :: Scaled(target[n] - start[n], ScaleAcceleration(u, duration)))
  }

  function TimeAt(duration: real, steps: nat, index: nat): real
    requires steps > 0
  {
    duration * index as real / steps as real
  }

  function FractionAt(duration: real, steps: nat, index: nat): real
    requires steps > 0 && duration > 0.0
  {
    Quotient(TimeAt(duration, steps, index), duration)
  }

  function SampleAt(start: Joints, target: Joints, duration: real, steps: nat, index: nat): Sample
    requires start.Keys == target.Keys && duration > 0.0 && steps > 0
  {
    SampleFor(start, target, duration, TimeAt(duration, steps, index), FractionAt(duration, steps, index))
  }

  function Planned(start: Joints, target: Joints, duration: real, steps: nat): JointTrajectory
    requires start.Keys == target.Keys && duration > 0.0 && steps > 0
  {
    JointTrajectory(duration, seq(steps + 1, i requires 0 <= i <= steps => SampleAt(start, target, duration, steps, i)))
  }

  function Steps(duration: real, period: real): (steps: nat)
    requires period > 0.0
    ensures steps >= 1
  {
    var n := Ceil(duration / period);
    if n < 1 then 1 else n
  }

  // ---- The generator

  method MinimumDuration(model: Model, start: Joints, target: Joints, root: real -> real)
    returns (r: Result<real, TrajectoryError>)
    requires model.Valid()
    ensures r == if model.WithinLimits(start) && model.WithinLimits(target)
                 then Ok(Minimum(model, start, target, root)) else Err(OutsideLimits)
  {
    if !model.WithinLimits(start) || !model.WithinLimits(target) {
      return Err(OutsideLimits);
    }
    var duration := LongestDuration(model.names, start, target, model.StrictestVelocity(),
                                    model.StrictestAcceleration(), root);
    r := Ok(Max(duration, SHORTEST) * MARGIN);
  }

  /** The loop over the joints. */
  method LongestDuration(names: seq<string>, start: Joints, target: Joints, v: real, a: real, root: real -> real)
    returns (duration: real)
    requires v > 0.0 && a > 0.0 && forall n :: n in names ==> n in start && n in target
    ensures duration == LongestBound(names, start, target, v, a, root, |names|)
  {
    duration := 0.0;
    for i := 0 to |names|
      invariant duration == LongestBound(names, start, target, v, a, root, i) >= 0.0
    {
      var name := names[i];
      var delta := Abs(target[name] - start[name]);
      if delta == 0.0 {
        continue;
      }
      var velocityBound := 1.5 * delta / v;
      var accelerationBound := root(6.0 * delta / a);
      duration := Max(duration, Max(velocityBound, accelerationBound));
    }
  }

  method Generate(model: Model, start: Joints, target: Joints, root: real -> real,
                  samplePeriod: real, requested: Option<real>)
    returns (r: Result<JointTrajectory, TrajectoryError>)
    requires model.Valid()
    ensures samplePeriod <= 0.0 ==> r == Err(BadSamplePeriod)
    ensures samplePeriod > 0.0 && !(model.WithinLimits(start) && model.WithinLimits(target)) ==> r == Err(OutsideLimits)
    ensures samplePeriod > 0.0 && model.WithinLimits(start) && model.WithinLimits(target) ==>
      var minimum := Minimum(model, start, target, root);
      var d := if requested.Some? then requested.value else minimum;
      if d + SLACK < minimum then r == Err(TooShort)
      else d > 0.0 && r == Ok(Planned(start, target, d, Steps(d, samplePeriod)))
  {
    if samplePeriod <= 0.0 {
      return Err(BadSamplePeriod);
    }
    var minimum := MinimumDuration(model, start, target, root);
    if minimum.Err? {
      return Err(minimum.error);
    }
    var duration := if requested.Some? then requested.value else minimum.value;
    if duration + SLACK < minimum.value {
      return Err(TooShort);
    }
    MinimumIsPositive(model, start, target, root);
    var planned := SampleAll(model, start, target, duration, Steps(duration, samplePeriod));
    r := Ok(planned);
  }

  lemma MinimumIsPositive(model: Model, start: Joints, target: Joints, root: real -> real)
    requires model.Valid() && model.WithinLimits(start) && model.WithinLimits(target)
    ensures Minimum(model, start, target, root) > SLACK
  {
  }

  /** The sampling loop. */
  method SampleAll(model: Model, start: Joints, target: Joints, duration: real, steps: nat)
    returns (planned: JointTrajectory)
    requires model.Valid() && start.Keys == target.Keys == model.joints.Keys && duration > 0.0 && steps > 0
    ensures planned == Planned(start, target, duration, steps)
  {
    var samples: seq<Sample> := [];
    for index := 0 to steps + 1
      invariant |samples| == index
      invariant forall i :: 0 <= i < index ==> samples[i] == SampleAt(start, target, duration, steps, i)
    {
      var sample := MakeSample(model, start, target, duration, steps, index);
      samples := samples + [sample];
    }
    planned := JointTrajectory(duration, samples);
    assert samples == Planned(start, target, duration, steps).samples;
  }

  /** The body of the sampling loop. */
  method MakeSample(model: Model, start: Joints, target: Joints, duration: real, steps: nat, index: nat)
    returns (sample: Sample)
    requires model.Valid() && start.Keys == target.Keys == model.joints.Keys && duration > 0.0 && steps > 0
    ensures sample == SampleAt(start, target, duration, steps, index)
  {
    var time := duration * index as real / steps as real;
    var u := if duration == 0.0 then 0.0 else time / duration;
    var positions, velocities, accelerations :=
      Fill(model.names, start, target, Scale(u), ScaleVelocity(u, duration), ScaleAcceleration(u, duration));
    sample := Sample(time, positions, velocities, accelerations);
  }

  /** The inner loop, filling the dictionaries joint by joint. */
  method Fill(names: seq<string>, start: Joints, target: Joints, scale: real, scaleVelocity: real,
              scaleAcceleration: real)
    returns (positions: Joints, velocities: Joints, accelerations: Joints)
    requires Covers(names, start) && Covers(names, target)
    ensures positions == map n | n in start :: start[n] + Scaled(target[n] - start[n], scale)
    ensures velocities == map n | n in start :: Scaled(target[n] - start[n], scaleVelocity)
    ensures accelerations == map n | n in start :: Scaled(target[n] - start[n], scaleAcceleration)
  {
    positions, velocities, accelerations := map[], map[], map[];
    ghost var allPositions: Joints := map n | n in start :: start[n] + Scaled(target[n] - start[n], scale);
    ghost var allVelocities: Joints := map n | n in start :: Scaled(target[n] - start[n], scaleVelocity);
    ghost var allAccelerations: Joints := map n | n in start :: Scaled(target[n] - start[n], scaleAcceleration);
    for i := 0 to |names|
      invariant Filled(positions, allPositions, names[..i])
      invariant Filled(velocities, allVelocities, names[..i])
      invariant Filled(accelerations, allAccelerations, names[..i])
    {
      var name := names[i];
      assert name in names;
      var delta := target[name] - start[name];
      assert allPositions[name] == start[name] + Scaled(delta, scale);
      assert allVelocities[name] == Scaled(delta, scaleVelocity);
      assert allAccelerations[name] == Scaled(delta, scaleAcceleration);
      FillOne(positions, allPositions, names, i);
      FillOne(velocities, allVelocities, names, i);
      FillOne(accelerations, allAccelerations, names, i);
      positions := positions[name := start[name] + Scaled(delta, scale)];
      velocities := velocities[name := Scaled(delta, scaleVelocity)];
      accelerations := accelerations[name := Scaled(delta, scaleAcceleration)];
    }
    assert names[..|names|] == names;
    FilledAll(positions, allPositions, names);
    FilledAll(velocities, allVelocities, names);
    FilledAll(accelerations, allAccelerations, names);
  }

  predicate Covers(names: seq<string>, joints: Joints) {
    (forall n :: n in names ==> n in joints) && forall n :: n in joints ==> n in names
  }

  lemma FilledAll(part: Joints, all: Joints, names: seq<string>)
    requires Covers(names, all) && Filled(part, all, names)
    ensures part == all
  {
  }

  lemma FillOne(part: Joints, all: Joints, names: seq<string>, i: nat)
    requires i < |names| && Filled(part, all, names[..i]) && names[i] in all
    ensures Filled(part[names[i] := all[names[i]]], all, names[..i + 1])
  {
    assert names[..i + 1] == names[..i] + [names[i]];
  }

  /** The part of `all` for the names so far. */
  predicate Filled(part: Joints, all: Joints, names: seq<string>) {
    && (forall n :: n in part ==> n in names)
    && (forall n :: n in names ==> n in part && n in all && part[n] == all[n])
  }
}
