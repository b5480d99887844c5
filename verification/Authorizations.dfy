/** The gateway's translation of an authorization into wire integers, refused unless it is exact. */
module Authorizations {
  import opened Bytes
  import opened Numbers
  import opened Servo
  import opened Messages
  import opened Supervisor

  datatype GatewayError = UnmappedJoint | NotFinite | NotExact | OutOfRange

  /** The checks of the gateway's constructor. */
  predicate GoodMapping(ids: map<string, int>) {
    && ids != map[]
    && (forall n :: n in ids ==> 1 <= ids[n] <= 0xFF)
    && (forall m, n :: m in ids && n in ids && m != n ==> ids[m] != ids[n])
  }

  /** value * scale is the integer n, within the range. */
  predicate Exactly(value: Num, scale: int, n: int, minimum: int, maximum: int) {
    value.Finite() && value.value * scale as real == n as real && minimum <= n <= maximum
  }

  predicate Convertible(value: Num, scale: int, minimum: int, maximum: int) {
    value.Finite() && Exactly(value, scale, (value.value * scale as real).Floor, minimum, maximum)
  }

  function ExactProtocolInteger(value: Num, scale: int, minimum: int, maximum: int): (r: Result<int, GatewayError>)
    ensures forall n :: r == Ok(n) <==> Exactly(value, scale, n, minimum, maximum)
    ensures r.Ok? <==> Convertible(value, scale, minimum, maximum)
  {
    if !value.Finite() then Err(NotFinite)
    else
      var scaled := value.value * scale as real;
      var integral := RoundHalfEven(scaled);
      if scaled != integral as real then Err(NotExact)
      else if !(minimum <= integral <= maximum) then Err(OutOfRange)
      else Ok(integral)
  }

  // ---- Order by joint id

  predicate Ascending(ts: seq<JointTarget>) {
    forall i, j :: 0 <= i < j < |ts| ==> ts[i].jointId < ts[j].jointId
  }

  function Insert(t: JointTarget, ts: seq<JointTarget>): (r: seq<JointTarget>)
    requires Ascending(ts) && forall u :: u in ts ==> u.jointId != t.jointId
    ensures Ascending(r) && |r| == |ts| + 1 && forall u :: u in r <==> u == t || u in ts
  {
    if ts == [] then [t]
    else if t.jointId < ts[0].jointId then
      assert forall u :: u in [t] + ts <==> u == t || u in ts;
      [t] + ts
    else
      assert forall u :: u in ts <==> u == ts[0] || u in ts[1..];
      assert ts[0].jointId < t.jointId by { assert ts[0] in ts; }
      var later := Insert(t, ts[1..]);
      assert forall i :: 0 <= i < |later| ==> later[i] in later;
      assert forall u :: u in ts[1..] ==> ts[0].jointId < u.jointId;
      [ts[0]] + later
  }

  /** The list in order of joint id. */
  function SortById(ts: seq<JointTarget>): (r: seq<JointTarget>)
    requires DistinctIds(ts)
    ensures Ascending(r) && |r| == |ts| && forall u :: u in r <==> u in ts
  {
    if ts == [] then []
    else
      assert forall i :: 0 < i < |ts| ==> ts[i].jointId != ts[0].jointId;
      assert forall u :: u in ts[1..] ==> u.jointId != ts[0].jointId;
      Insert(ts[0], SortById(ts[1..]))
  }

  // ---- The translation

  const SCALE := 100

  predicate JointExact(a: Authorization, ids: map<string, int>, n: string, t: JointTarget) {
    n in a.targets && n in ids && t.jointId == ids[n] && Exactly(a.targets[n], SCALE, t.targetCdeg, -0x8000, 0x7FFF)
  }

  predicate JointConvertible(a: Authorization, ids: map<string, int>, n: string) {
    n in a.targets && n in ids && Convertible(a.targets[n], SCALE, -0x8000, 0x7FFF)
  }

  /** Why joint n has no wire form, if it has none. */
  function JointFault(a: Authorization, ids: map<string, int>, n: string): Option<GatewayError>
    requires n in a.targets
  {
    if n !in ids then Some(UnmappedJoint)
    else
      match ExactProtocolInteger(a.targets[n], SCALE, -0x8000, 0x7FFF)
      case Ok(_) => None
      case Err(e) => Some(e)
  }

  predicate BlamesJoint(a: Authorization, ids: map<string, int>, e: GatewayError) {
    exists n :: n in a.targets && JointFault(a, ids, n) == Some(e)
  }

  /** e is the fault found first: any joint's if a joint has one, then that of ttl, velocity or acceleration. */
  predicate BlamesFirst(a: Authorization, ids: map<string, int>, e: GatewayError) {
    if exists n :: n in a.targets && !JointConvertible(a, ids, n) then BlamesJoint(a, ids, e)
    else if !Convertible(a.commandTtlMs, 1, 1, 0xFFFF) then Err(e) == ExactProtocolInteger(a.commandTtlMs, 1, 1, 0xFFFF)
    else if !Convertible(a.maxVelocity, SCALE, 1, 0xFFFF) then
      Err(e) == ExactProtocolInteger(a.maxVelocity, SCALE, 1, 0xFFFF)
    else Err(e) == ExactProtocolInteger(a.maxAcceleration, SCALE, 1, 0xFFFF)
  }

  /** Every number of the authorization fits the wire exactly, and every joint has an id. */
  predicate Encodable(a: Authorization, ids: map<string, int>) {
    && (forall n :: n in a.targets ==> JointConvertible(a, ids, n))
    && Convertible(a.commandTtlMs, 1, 1, 0xFFFF)
    && Convertible(a.maxVelocity, SCALE, 1, 0xFFFF) && Convertible(a.maxAcceleration, SCALE, 1, 0xFFFF)
  }

  ghost predicate SaysOnly(targets: seq<JointTarget>, a: Authorization, ids: map<string, int>) {
    forall t :: t in targets ==> exists n :: JointExact(a, ids, n, t)
  }

  ghost predicate SaysAll(targets: seq<JointTarget>, a: Authorization, ids: map<string, int>) {
    forall n :: n in a.targets ==> exists t :: t in targets && JointExact(a, ids, n, t)
  }

  /** The command says exactly what the authorization says. */
  ghost predicate Says(c: MotionCommand, a: Authorization, ids: map<string, int>) {
    && c.commandId == a.id && |c.targets| == |a.targets| && Ascending(c.targets)
    && SaysOnly(c.targets, a, ids) && SaysAll(c.targets, a, ids)
    && Exactly(a.commandTtlMs, 1, c.ttlMs, 1, 0xFFFF)
    && Exactly(a.maxVelocity, SCALE, c.maxVelocity, 1, 0xFFFF)
    && Exactly(a.maxAcceleration, SCALE, c.maxAcceleration, 1, 0xFFFF)
  }

  method EncodeAuthorization(a: Authorization, ids: map<string, int>) returns (r: Result<MotionCommand, GatewayError>)
    requires GoodMapping(ids) && |a.id| == 16
    ensures r.Ok? <==> Encodable(a, ids)
    ensures r.Ok? ==> Says(r.value, a, ids)
    ensures r.Err? ==> BlamesFirst(a, ids, r.error)
  {
    var listed := ListTargets(a, ids);
    if listed.Err? {
      return Err(listed.error);
    }
    var targets := SortById(listed.value);
    var ttl := ExactProtocolInteger(a.commandTtlMs, 1, 1, 0xFFFF);
    if ttl.Err? {
      return Err(ttl.error);
    }
    var velocity := ExactProtocolInteger(a.maxVelocity, SCALE, 1, 0xFFFF);
    if velocity.Err? {
      return Err(velocity.error);
    }
    var acceleration := ExactProtocolInteger(a.maxAcceleration, SCALE, 1, 0xFFFF);
    if acceleration.Err? {
      return Err(acceleration.error);
    }
    r := Ok(MotionCommand(a.id, ttl.value, targets, velocity.value, acceleration.value));
  }

  /** These are the targets of all authorized joints but those left. */
  ghost predicate Lists(targets: seq<JointTarget>, a: Authorization, ids: map<string, int>, left: set<string>) {
    && left <= a.targets.Keys && |targets| + |left| == |a.targets| && DistinctIds(targets)
    && ListsOnly(targets, a, ids, left) && ListsAll(targets, a, ids, left)
    && (forall n :: n in a.targets && n !in left ==> JointConvertible(a, ids, n))
  }

  ghost predicate ListsOnly(targets: seq<JointTarget>, a: Authorization, ids: map<string, int>, left: set<string>) {
    forall t :: t in targets ==> exists n :: n !in left && JointExact(a, ids, n, t)
  }

  ghost predicate ListsAll(targets: seq<JointTarget>, a: Authorization, ids: map<string, int>, left: set<string>) {
    forall n :: n in a.targets && n !in left ==> exists t :: t in targets && JointExact(a, ids, n, t)
  }

  lemma ListsOneMore(targets: seq<JointTarget>, a: Authorization, ids: map<string, int>, left: set<string>,
                     name: string, target: JointTarget)
    requires GoodMapping(ids) && Lists(targets, a, ids, left) && name in left
    requires JointExact(a, ids, name, target) && JointConvertible(a, ids, name)
    ensures Lists(targets + [target], a, ids, left - {name})
  {
    assert forall t :: t in targets ==> t.jointId != target.jointId;
    assert forall t :: t in targets + [target] <==> t in targets || t == target;
  }

  lemma AllListed(targets: seq<JointTarget>, a: Authorization, ids: map<string, int>)
    requires Lists(targets, a, ids, {})
    ensures |targets| == |a.targets| && DistinctIds(targets)
    ensures SaysOnly(targets, a, ids) && SaysAll(targets, a, ids)
    ensures forall n :: n in a.targets ==> JointConvertible(a, ids, n)
  {
    OnlyListed(targets, a, ids);
    EveryoneListed(targets, a, ids);
  }

  lemma OnlyListed(targets: seq<JointTarget>, a: Authorization, ids: map<string, int>)
    requires ListsOnly(targets, a, ids, {})
    ensures SaysOnly(targets, a, ids)
  {
  }

  lemma EveryoneListed(targets: seq<JointTarget>, a: Authorization, ids: map<string, int>)
    requires ListsAll(targets, a, ids, {})
    ensures SaysAll(targets, a, ids)
  {
  }

  /** The loop over the authorized joints, in the dictionary's order, which is left open here. */
  method ListTargets(a: Authorization, ids: map<string, int>) returns (r: Result<seq<JointTarget>, GatewayError>)
    requires GoodMapping(ids)
    ensures r.Ok? <==> forall n :: n in a.targets ==> JointConvertible(a, ids, n)
    ensures r.Ok? ==>
      && |r.value| == |a.targets| && DistinctIds(r.value)
      && SaysOnly(r.value, a, ids) && SaysAll(r.value, a, ids)
    ensures r.Err? ==> BlamesJoint(a, ids, r.error)
  {
    var targets: seq<JointTarget> := [];
    var left := a.targets.Keys;
    while left != {}
      invariant Lists(targets, a, ids, left)
    {
      var name :| name in left;
      var listed := ListTarget(a, ids, name);
      if listed.Err? {
        assert !JointConvertible(a, ids, name) && JointFault(a, ids, name) == Some(listed.error);
        return Err(listed.error);
      }
      var target := listed.value;
      ListsOneMore(targets, a, ids, left, name, target);
      left := left - {name};
      targets := targets + [target];
    }
    AllListed(targets, a, ids);
    return Ok(targets);
  }

  /** One pass of the loop: the joint's target on the wire, or why it has none. */
  method ListTarget(a: Authorization, ids: map<string, int>, name: string)
    returns (r: Result<JointTarget, GatewayError>)
    requires GoodMapping(ids) && name in a.targets
    ensures r.Ok? <==> JointConvertible(a, ids, name)
    ensures r.Ok? ==> JointExact(a, ids, name, r.value)
    ensures r.Err? ==> JointFault(a, ids, name) == Some(r.error)
  {
    if name !in ids {
      return Err(UnmappedJoint);
    }
    var cdeg := ExactProtocolInteger(a.targets[name], SCALE, -0x8000, 0x7FFF);
    if cdeg.Err? {
      return Err(cdeg.error);
    }
    return Ok(JointTarget(ids[name], cdeg.value));
  }
}
