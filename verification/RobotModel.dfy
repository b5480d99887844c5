/** The reference robot: joints with limits, and joint vectors over the reals. */
module RobotModel {

  datatype JointSpec = JointSpec(
    protocolId: int, lowerDeg: real, upperDeg: real, homeDeg: real,
    maxVelocity: real, maxAcceleration: real)

  /** A profile that passed validation. */
  type GoodModel = m: Model | m.Valid()
    witness Model(["joint"], map["joint" := JointSpec(1, 0.0, 2.0, 1.0, 1.0, 1.0)])

  function VelocityLimit(joint: JointSpec): real {
    joint.maxVelocity
  }

  function AccelerationLimit(joint: JointSpec): real {
    joint.maxAcceleration
  }

  type Joints = map<string, real>

  /** Joint names in their fixed order, and the joints by name. */
  datatype Model = Model(names: seq<string>, joints: map<string, JointSpec>)
  {
    /** The names are those of the joints, and protocol ids tell the joints apart. */
    predicate Identified() {
      && (forall n :: n in names ==> n in joints) && (forall n :: n in joints ==> n in names)
      && (forall m, n :: m in joints && n in joints && m != n ==> joints[m].protocolId != joints[n].protocolId)
    }

    predicate Valid() {
      && names != [] && Identified()
      && (forall i, j :: 0 <= i < j < |names| ==> names[i] != names[j])
      && (forall n :: n in joints ==>
            && 1 <= joints[n].protocolId <= 255
            && joints[n].lowerDeg < joints[n].homeDeg < joints[n].upperDeg
            && joints[n].maxVelocity > 0.0 && joints[n].maxAcceleration > 0.0)
    }

    function Home(): Joints {
      map n | n in joints :: joints[n].homeDeg
    }

    /** Exactly the robot's joints, each within its limits. */
    predicate WithinLimits(positions: Joints) {
      && positions.Keys == joints.Keys
      && forall n :: n in joints ==> joints[n].lowerDeg <= positions[n] <= joints[n].upperDeg
    }

    function StrictestVelocity(): (v: real)
      requires Valid()
      ensures v > 0.0 && forall n :: n in joints ==> v <= joints[n].maxVelocity
    {
      Least(VelocityLimit, names)
    }

    function StrictestAcceleration(): (a: real)
      requires Valid()
      ensures a > 0.0 && forall n :: n in joints ==> a <= joints[n].maxAcceleration
    {
      Least(AccelerationLimit, names)
    }

    /** Some joint has the strictest limit. */
    lemma StrictestVelocityOf() returns (n: string)
      requires Valid()
      ensures n in joints && StrictestVelocity() == joints[n].maxVelocity
    {
      n := LeastOf(VelocityLimit, names);
    }

    lemma StrictestAccelerationOf() returns (n: string)
      requires Valid()
      ensures n in joints && StrictestAcceleration() == joints[n].maxAcceleration
    {
      n := LeastOf(AccelerationLimit, names);
    }

    lemma LeastOf(f: JointSpec -> real, some: seq<string>) returns (n: string)
      requires some != [] && forall m :: m in some ==> m in joints
      ensures n in some && Least(f, some) == f(joints[n])
    {
      n := some[0];
      if |some| > 1 {
        var m := LeastOf(f, some[1..]);
        if f(joints[some[0]]) > Least(f, some[1..]) {
          n := m;
        }
      }
    }

    function Least(f: JointSpec -> real, some: seq<string>): (least: real)
      requires some != [] && forall n :: n in some ==> n in joints
      ensures forall n :: n in some ==> least <= f(joints[n])
      ensures exists n :: n in some && least == f(joints[n])
    {
      assert some[0] in some;
      if |some| == 1 then f(joints[some[0]])
      else Min(f(joints[some[0]]), Least(f, some[1..]))
    }
  }

  function Min(a: real, b: real): real {
    if a <= b then a else b
  }

  function Max(a: real, b: real): real {
    if a >= b then a else b
  }

  function Abs(a: real): real {
    if a >= 0.0 then a else -a
  }

  /** A square root on the non-negative reals. */
  ghost predicate IsRoot(root: real -> real) {
    forall x :: x >= 0.0 ==> root(x) >= 0.0 && root(x) * root(x) == x
  }

  function Ceil(x: real): (n: int)
    ensures n as real - 1.0 < x <= n as real
  {
    -((-x).Floor)
  }

  // ---- Products and quotients of reals

  lemma ProductNonNegative(a: real, b: real)
    requires a >= 0.0 && b >= 0.0
    ensures a * b >= 0.0
  {
  }

  lemma ProductPositive(a: real, b: real)
    requires a > 0.0 && b > 0.0
    ensures a * b > 0.0
  {
  }

  /** The product as a number of its own, which the solver handles better than the expression. */
  lemma Times(a: real, b: real) returns (p: real)
    ensures p == a * b
    ensures a >= 0.0 && b >= 0.0 ==> p >= 0.0
    ensures a > 0.0 && b > 0.0 ==> p > 0.0
  {
    p := a * b;
  }

  lemma ProductMonotone(a: real, b: real, c: real)
    requires a <= b && c >= 0.0
    ensures a * c <= b * c
  {
    ProductNonNegative(b - a, c);
    assert b * c - a * c == (b - a) * c;
  }

  lemma ProductStrict(a: real, b: real, c: real)
    requires a < b && c > 0.0
    ensures a * c < b * c
  {
    ProductPositive(b - a, c);
    assert b * c - a * c == (b - a) * c;
  }

  lemma CancelFactor(a: real, x: real, y: real)
    requires a > 0.0 && a * x <= a * y
    ensures x <= y
  {
    if x > y {
      ProductStrict(y, x, a);
    }
  }

  lemma QuotientTimes(x: real, y: real)
    requires y != 0.0
    ensures x / y * y == x
  {
  }

  function Quotient(x: real, y: real): real
    requires y > 0.0
  {
    x / y
  }

  lemma QuotientIs(x: real, y: real, z: real)
    requires y > 0.0 && x == z * y
    ensures Quotient(x, y) == z
  {
    QuotientBelow(x, y, z);
  }

  /** x / y < z, from x < z * y. */
  lemma QuotientBelow(x: real, y: real, z: real)
    requires y > 0.0
    ensures x / y < z <==> x < z * y
    ensures x / y <= z <==> x <= z * y
  {
    QuotientTimes(x, y);
    var q := x / y;
    if q < z {
      ProductStrict(q, z, y);
    } else if q > z {
      ProductStrict(z, q, y);
    } else {
      assert q * y == z * y;
    }
  }
}
