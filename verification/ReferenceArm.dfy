/** The reference arm of the simulation, the poses its behaviour planner asks for, and how far apart they are. */
module ReferenceArm {
  import opened RobotModel
  import opened Servo
  import opened DigitalTwin
  import opened EndToEnd

  const BASE := "base"
  const SHOULDER := "shoulder"
  const ELBOW := "elbow"
  const GRIPPER := "gripper"

  const REFERENCE: Model := Model(
    [BASE, SHOULDER, ELBOW, GRIPPER],
    map[BASE := JointSpec(1, -135.0, 135.0, 0.0, 45.0, 120.0),
        SHOULDER := JointSpec(2, -60.0, 120.0, 30.0, 40.0, 100.0),
        ELBOW := JointSpec(3, -135.0, 135.0, 60.0, 45.0, 120.0),
        GRIPPER := JointSpec(4, 0.0, 70.0, 20.0, 35.0, 90.0)])

  /** Simulated time per step, in seconds. */
  const STEP: real := 0.02

  datatype Cue = NoCue | Listen | Acknowledge | Present | Caution | Celebrate | Think

  datatype Style = Restrained | Standard | Expressive

  datatype Offsets = Offsets(base: real, shoulder: real, elbow: real, gripper: real)
  {
    function For(joint: string): real {
      if joint == BASE then base else if joint == SHOULDER then shoulder else if joint == ELBOW then elbow else gripper
    }
  }

  function OffsetsOf(cue: Cue): Offsets {
    match cue
    case NoCue => Offsets(0.0, 0.0, 0.0, 0.0)
    case Listen => Offsets(0.0, 5.0, -5.0, 0.0)
    case Acknowledge => Offsets(5.0, -5.0, 10.0, 0.0)
    case Present => Offsets(20.0, -15.0, -15.0, 10.0)
    case Caution => Offsets(-10.0, 10.0, 15.0, -5.0)
    case Celebrate => Offsets(0.0, -25.0, -30.0, 25.0)
    case Think => Offsets(-15.0, 15.0, 5.0, 0.0)
  }

  function ScaleOf(style: Style): real {
    match style case Restrained => 0.5 case Standard => 0.75 case Expressive => 1.0
  }

  /** The pose for a cue; NONE has none. */
  function Goal(cue: Cue, style: Style): Joints {
    map n | n in REFERENCE.joints :: Round2(Unrounded(cue, style, n))
  }

  function Unrounded(cue: Cue, style: Style, n: string): real
    requires n in REFERENCE.joints
  {
    REFERENCE.joints[n].homeDeg + OffsetsOf(cue).For(n) * ScaleOf(style)
  }

  // ---- The poses themselves

  function Pose(base: real, shoulder: real, elbow: real, gripper: real): Joints {
    map[BASE := base, SHOULDER := shoulder, ELBOW := elbow, GRIPPER := gripper]
  }

  lemma ExactlyRounded(x: real, k: int)
    requires x * 100.0 == k as real
    ensures Round2(x) == x
  {
    assert (x * 100.0).Floor == k;
  }

  lemma OffsetsAreFives(cue: Cue, n: string) returns (j: int)
    ensures OffsetsOf(cue).For(n) == 5.0 * j as real
  {
    var x := OffsetsOf(cue).For(n);
    j := (x / 5.0).Floor;
  }

  lemma HomesAreWhole(n: string) returns (h: int)
    requires n in REFERENCE.joints
    ensures REFERENCE.joints[n].homeDeg == h as real
  {
    FourJoints();
    NamesDiffer();
    h := if n == BASE then 0 else if n == SHOULDER then 30 else if n == ELBOW then 60 else 20;
  }

  /** Rounding changes nothing: every goal is a whole number of hundredths of a degree already. */
  lemma GoalIsExact(cue: Cue, style: Style, n: string)
    requires n in REFERENCE.joints
    ensures Goal(cue, style)[n] == Unrounded(cue, style, n)
  {
    var k := WholeHundredths(cue, style, n);
    ExactlyRounded(Unrounded(cue, style, n), k);
  }

  lemma WholeHundredths(cue: Cue, style: Style, n: string) returns (k: int)
    requires n in REFERENCE.joints
    ensures Unrounded(cue, style, n) * 100.0 == k as real
  {
    var j := OffsetsAreFives(cue, n);
    var h := HomesAreWhole(n);
    var percent := ScaleIsPercent(style);
    k := InHundredths(h, j, percent, REFERENCE.joints[n].homeDeg, OffsetsOf(cue).For(n), ScaleOf(style));
  }

  lemma ScaleIsPercent(style: Style) returns (percent: int)
    ensures ScaleOf(style) * 100.0 == percent as real
  {
    percent := match style case Restrained => 50 case Standard => 75 case Expressive => 100;
  }

  lemma InHundredths(h: int, j: int, percent: int, home: real, offset: real, scale: real) returns (k: int)
    requires home == h as real && offset == 5.0 * j as real && scale * 100.0 == percent as real
    ensures (home + offset * scale) * 100.0 == k as real
  {
    k := h * 100 + 5 * (j * percent);
    assert offset * scale * 100.0 == 5.0 * (j as real * percent as real);
    assert (j * percent) as real == j as real * percent as real;
  }

  lemma PoseOf(p: Joints, base: real, shoulder: real, elbow: real, gripper: real)
    requires p.Keys == {BASE, SHOULDER, ELBOW, GRIPPER}
    requires p[BASE] == base && p[SHOULDER] == shoulder && p[ELBOW] == elbow && p[GRIPPER] == gripper
    ensures p == Pose(base, shoulder, elbow, gripper)
  {
    NamesDiffer();
  }

  lemma ExpressiveAt(cue: Cue, n: string, home: real, offset: real)
    requires n in REFERENCE.joints && REFERENCE.joints[n].homeDeg == home && OffsetsOf(cue).For(n) == offset
    ensures Goal(cue, Expressive)[n] == home + offset
  {
    GoalIsExact(cue, Expressive, n);
  }

  lemma ExpressivePose(cue: Cue)
    ensures var o := OffsetsOf(cue);
      Goal(cue, Expressive) == Pose(o.base, 30.0 + o.shoulder, 60.0 + o.elbow, 20.0 + o.gripper)
  {
    FourJoints();
    NamesDiffer();
    var o := OffsetsOf(cue);
    ExpressiveAt(cue, BASE, 0.0, o.base);
    ExpressiveAt(cue, SHOULDER, 30.0, o.shoulder);
    ExpressiveAt(cue, ELBOW, 60.0, o.elbow);
    ExpressiveAt(cue, GRIPPER, 20.0, o.gripper);
    PoseOf(Goal(cue, Expressive), o.base, 30.0 + o.shoulder, 60.0 + o.elbow, 20.0 + o.gripper);
  }

  /** The expressive poses, in degrees. */
  lemma ExpressivePoses(cue: Cue)
    ensures Goal(cue, Expressive) == match cue
      case NoCue => Pose(0.0, 30.0, 60.0, 20.0)
      case Listen => Pose(0.0, 35.0, 55.0, 20.0)
      case Acknowledge => Pose(5.0, 25.0, 70.0, 20.0)
      case Present => Pose(20.0, 15.0, 45.0, 30.0)
      case Caution => Pose(-10.0, 40.0, 75.0, 15.0)
      case Celebrate => Pose(0.0, 5.0, 30.0, 45.0)
      case Think => Pose(-15.0, 45.0, 65.0, 20.0)
  {
    ExpressivePose(cue);
  }

  /** From home, a restrained motion goes half the expressive one's way, and a standard one three quarters of it. */
  lemma StylesScaleTheWay(cue: Cue, n: string)
    requires n in REFERENCE.joints
    ensures var way := Goal(cue, Expressive)[n] - REFERENCE.joints[n].homeDeg;
      && Goal(cue, Restrained)[n] - REFERENCE.joints[n].homeDeg == way / 2.0
      && Goal(cue, Standard)[n] - REFERENCE.joints[n].homeDeg == way * 3.0 / 4.0
  {
    GoalIsExact(cue, Expressive, n);
    GoalIsExact(cue, Restrained, n);
    GoalIsExact(cue, Standard, n);
  }

  // ---- The hull of all poses

  const LOW: Offsets := Offsets(-15.0, -25.0, -30.0, -5.0)
  const HIGH: Offsets := Offsets(20.0, 15.0, 15.0, 25.0)

  predicate InHullAt(n: string, angle: real)
    requires n in REFERENCE.joints
  {
    REFERENCE.joints[n].homeDeg + LOW.For(n) <= angle <= REFERENCE.joints[n].homeDeg + HIGH.For(n)
  }

  predicate InHull(positions: Joints) {
    positions.Keys == REFERENCE.joints.Keys && forall n :: n in REFERENCE.joints ==> InHullAt(n, positions[n])
  }

  lemma NamesDiffer()
    ensures BASE != SHOULDER && BASE != ELBOW && BASE != GRIPPER
    ensures SHOULDER != ELBOW && SHOULDER != GRIPPER && ELBOW != GRIPPER
  {
    assert |BASE| == 4 && |SHOULDER| == 8 && |ELBOW| == 5 && |GRIPPER| == 7;
  }

  lemma FourJoints()
    ensures REFERENCE.joints.Keys == {BASE, SHOULDER, ELBOW, GRIPPER} && |REFERENCE.joints| == 4
    ensures REFERENCE.joints[BASE] == JointSpec(1, -135.0, 135.0, 0.0, 45.0, 120.0)
    ensures REFERENCE.joints[SHOULDER] == JointSpec(2, -60.0, 120.0, 30.0, 40.0, 100.0)
    ensures REFERENCE.joints[ELBOW] == JointSpec(3, -135.0, 135.0, 60.0, 45.0, 120.0)
    ensures REFERENCE.joints[GRIPPER] == JointSpec(4, 0.0, 70.0, 20.0, 35.0, 90.0)
  {
    NamesDiffer();
    assert |{BASE, SHOULDER, ELBOW, GRIPPER}| == 4;
  }

  lemma ReferenceIsValid()
    ensures REFERENCE.Valid()
  {
    ReferenceIsIdentified();
    NamesInOrder();
    NamesDiffer();
    JointsInRange();
  }

  lemma NamesInOrder()
    ensures REFERENCE.names == [BASE, SHOULDER, ELBOW, GRIPPER]
    ensures forall n :: n in REFERENCE.names <==> n in {BASE, SHOULDER, ELBOW, GRIPPER}
  {
    var names := [BASE, SHOULDER, ELBOW, GRIPPER];
    assert names[0] == BASE && names[1] == SHOULDER && names[2] == ELBOW && names[3] == GRIPPER;
  }

  /** Every joint's home is strictly within its limits, and it can move. */
  lemma JointsInRange()
    ensures forall n :: n in REFERENCE.joints ==>
      && 1 <= REFERENCE.joints[n].protocolId <= 255
      && REFERENCE.joints[n].lowerDeg < REFERENCE.joints[n].homeDeg < REFERENCE.joints[n].upperDeg
      && REFERENCE.joints[n].maxVelocity > 0.0 && REFERENCE.joints[n].maxAcceleration > 0.0
  {
    FourJoints();
  }

  lemma ReferenceIsIdentified()
    ensures REFERENCE.Identified()
  {
    FourJoints();
    NamesInOrder();
  }

  lemma OffsetsInRange(cue: Cue, n: string)
    ensures LOW.For(n) <= OffsetsOf(cue).For(n) <= HIGH.For(n)
    ensures LOW.For(n) <= 0.0 <= HIGH.For(n)
  {
  }

  /** Scaling by at most one keeps a value in an interval around zero. */
  lemma ScaledInRange(x: real, k: real, lo: real, hi: real)
    requires lo <= x <= hi && lo <= 0.0 <= hi && 0.0 <= k <= 1.0
    ensures lo <= x * k <= hi
  {
    if x >= 0.0 {
      ProductNonNegative(x, k);
      ProductNonNegative(x, 1.0 - k);
    } else {
      ProductNonNegative(-x, k);
      ProductNonNegative(-x, 1.0 - k);
    }
  }

  /** Rounding to two decimals does not cross a bound that has no more than two. */
  lemma RoundingStaysWithin(x: real, lo: int, hi: int)
    requires lo as real <= x * 100.0 <= hi as real
    ensures lo as real / 100.0 <= Round2(x) <= hi as real / 100.0
    ensures lo <= RoundHalfEven(x * 100.0) <= hi
  {
  }

  function LowCdeg(n: string): int {
    if n == BASE then -1500 else if n == SHOULDER then 500 else if n == ELBOW then 3000 else 1500
  }

  function HighCdeg(n: string): int {
    if n == BASE then 2000 else if n == SHOULDER then 4500 else if n == ELBOW then 7500 else 4500
  }

  lemma HullInCentidegrees(n: string, angle: real)
    requires n in REFERENCE.joints
    ensures InHullAt(n, angle) <==> LowCdeg(n) as real / 100.0 <= angle <= HighCdeg(n) as real / 100.0
  {
    FourJoints();
    NamesDiffer();
  }

  lemma GoalAt(cue: Cue, style: Style, n: string)
    requires n in REFERENCE.joints
    ensures InHullAt(n, Goal(cue, style)[n])
    ensures LowCdeg(n) <= RoundHalfEven(Unrounded(cue, style, n) * 100.0) <= HighCdeg(n)
  {
    UnroundedInHull(cue, style, n);
    var x := Unrounded(cue, style, n);
    HullInCentidegrees(n, x);
    RoundingStaysWithin(x, LowCdeg(n), HighCdeg(n));
    HullInCentidegrees(n, Round2(x));
  }

  lemma UnroundedInHull(cue: Cue, style: Style, n: string)
    requires n in REFERENCE.joints
    ensures InHullAt(n, Unrounded(cue, style, n))
  {
    OffsetsInRange(cue, n);
    ScaledInRange(OffsetsOf(cue).For(n), ScaleOf(style), LOW.For(n), HIGH.For(n));
  }

  lemma GoalsAreInHull(cue: Cue, style: Style)
    ensures InHull(Goal(cue, style))
  {
    forall n | n in REFERENCE.joints
      ensures InHullAt(n, Goal(cue, style)[n])
    {
      GoalAt(cue, style, n);
    }
  }

  /** Every pose in the hull respects the joint limits, and no joint is 45 degrees from another pose's. */
  lemma HullFits(positions: Joints)
    requires InHull(positions)
    ensures REFERENCE.WithinLimits(positions)
  {
    FourJoints();
    NamesDiffer();
  }

  lemma HullIsNarrow(n: string, x: real, y: real)
    requires n in REFERENCE.joints && InHullAt(n, x) && InHullAt(n, y)
    ensures Abs(x - y) <= 45.0
  {
    FourJoints();
    NamesDiffer();
  }

  lemma HomeIsInHull()
    ensures InHull(REFERENCE.Home())
  {
    FourJoints();
    NamesDiffer();
    forall n | n in REFERENCE.joints
      ensures InHullAt(n, REFERENCE.Home()[n])
    {
      OffsetsInRange(NoCue, n);
    }
  }

  // ---- Limits and strides

  lemma GripperIsSlowest()
    ensures forall n :: n in REFERENCE.joints ==>
      REFERENCE.joints[n].maxVelocity >= 35.0 && REFERENCE.joints[n].maxAcceleration >= 90.0
    ensures REFERENCE.joints[GRIPPER].maxVelocity == 35.0 && REFERENCE.joints[GRIPPER].maxAcceleration == 90.0
    ensures GRIPPER in REFERENCE.joints
  {
    FourJoints();
    NamesDiffer();
  }

  lemma StrictestLimits()
    ensures REFERENCE.Valid() && REFERENCE.StrictestVelocity() == 35.0 && REFERENCE.StrictestAcceleration() == 90.0
  {
    ReferenceIsValid();
    GripperIsSlowest();
    var n := REFERENCE.StrictestVelocityOf();
    var m := REFERENCE.StrictestAccelerationOf();
  }

  /** At the strictest limits a joint covers at least 0.036 degrees a step: 45 degrees in 1250 steps. */
  lemma StrideOfReference(joint: JointSpec)
    requires joint.maxVelocity >= 35.0 && joint.maxAcceleration >= 90.0
    ensures LimitsOf(joint, 35.0, 90.0, STEP).Stride() == 0.036
    ensures Covers(1250, LimitsOf(joint, 35.0, 90.0, STEP), 45.0)
  {
  }
}
