/** The robot's state report: host codec, firmware encoder, and what the digital twin reports. */
module Telemetry {
  import opened Bytes
  import opened Folds
  import opened Messages

  datatype JointReport = JointReport(jointId: int, positionCdeg: int, velocityCdegS: int, currentMa: int)

  datatype RobotTelemetry = RobotTelemetry(
    uptimeMs: int, state: WireState, flags: int, supplyMv: int, joints: seq<JointReport>)

  const HEAD: nat := 9
  const WIDTH: nat := 7

  predicate ReportFits(j: JointReport) {
    1 <= j.jointId < 0x100 && FitsI16(j.positionCdeg) && FitsI16(j.velocityCdegS) && FitsU16(j.currentMa)
  }

  function ReportBytes(j: JointReport): seq<byte> {
    if ReportFits(j) then
      [j.jointId as byte] + WriteU16(ToUnsigned(j.positionCdeg)) + WriteU16(ToUnsigned(j.velocityCdegS))
      + WriteU16(j.currentMa)
    else []
  }

  function AllReportBytes(joints: seq<JointReport>): seq<byte> {
    FlatMap<JointReport, byte>(ReportBytes, joints)
  }

  predicate DistinctReports(joints: seq<JointReport>) {
    forall i, j :: 0 <= i < j < |joints| ==> joints[i].jointId != joints[j].jointId
  }

  /** What encode raises, in its order of checks; None when it succeeds. */
  function TelemetryFault(t: RobotTelemetry): Option<ProtocolError> {
    if !FitsU32(t.uptimeMs) || !FitsByte(t.flags) || !FitsU16(t.supplyMv) then Some(FieldRange)
    else if !(1 <= |t.joints| <= MAX_JOINTS) then Some(JointCount)
    else if !DistinctReports(t.joints) then Some(DuplicateJoint)
    else if exists j :: j in t.joints && !ReportFits(j) then Some(FieldRange)
    else None
  }

  /** The layout, for any state code. */
  function Layout(uptimeMs: u32, state: byte, flags: byte, supplyMv: u16, joints: seq<JointReport>): seq<byte>
    requires |joints| <= MAX_JOINTS
  {
    WriteU32(uptimeMs) + [state, flags] + WriteU16(supplyMv) + [|joints|] + AllReportBytes(joints)
  }

  function TelemetryBytes(t: RobotTelemetry): seq<byte>
    requires TelemetryFault(t).None?
  {
    Layout(t.uptimeMs, t.state.Code(), t.flags, t.supplyMv, t.joints)
  }

  function EncodeTelemetry(t: RobotTelemetry): Result<seq<byte>, ProtocolError> {
    match TelemetryFault(t)
    case Some(e) => Err(e)
    case None => Ok(TelemetryBytes(t))
  }

  function ReportAt(p: seq<byte>, at: nat): JointReport
    requires at + 7 <= |p|
  {
    JointReport(p[at], ToSigned(ReadU16(p, at + 1)), ToSigned(ReadU16(p, at + 3)), ReadU16(p, at + 5))
  }

  function ReportsAt(p: seq<byte>, count: nat): (js: seq<JointReport>)
    requires HEAD + WIDTH * count <= |p|
    ensures |js| == count
  {
    seq(count, i requires 0 <= i < count => ReportAt(p, HEAD + WIDTH * i))
  }

  function CountAt(p: seq<byte>): nat
    requires |p| >= HEAD
  {
    p[8]
  }

  function RawTelemetry(p: seq<byte>): RobotTelemetry
    requires |p| >= HEAD && |p| == HEAD + WIDTH * CountAt(p) && StateOf(p[4]).Some?
  {
    RobotTelemetry(ReadU32(p, 0), StateOf(p[4]).value, p[5], ReadU16(p, 6), ReportsAt(p, CountAt(p)))
  }

  function DecodeTelemetry(p: seq<byte>): Result<RobotTelemetry, ProtocolError> {
    if |p| < HEAD + WIDTH then Err(Truncated)
    else if !(1 <= CountAt(p) <= MAX_JOINTS) then Err(JointCount)
    else if |p| != HEAD + WIDTH * CountAt(p) then Err(LengthMismatch)
    else if StateOf(p[4]).None? then Err(UnknownEnum)
    else
      match TelemetryFault(RawTelemetry(p))
      case Some(e) => Err(e)
      case None => Ok(RawTelemetry(p))
  }

  // ---- Layout

  lemma ReportCodec(j: JointReport, p: seq<byte>, at: nat)
    requires at + 7 <= |p| && ReportFits(j)
    ensures |ReportBytes(j)| == 7
    ensures p[at..at + 7] == ReportBytes(j) <==> ReportAt(p, at) == j
  {
    U16RoundTrip(ToUnsigned(j.positionCdeg), p, at + 1);
    U16RoundTrip(ToUnsigned(j.velocityCdegS), p, at + 3);
    U16RoundTrip(j.currentMa, p, at + 5);
    var r := ReportBytes(j);
    assert r[0] == j.jointId && r[1..3] == WriteU16(ToUnsigned(j.positionCdeg));
    assert r[3..5] == WriteU16(ToUnsigned(j.velocityCdegS)) && r[5..7] == WriteU16(j.currentMa);
    SevenBytes(p[at..at + 7], r);
    assert p[at..at + 7][1..3] == p[at + 1..at + 3] && p[at..at + 7][3..5] == p[at + 3..at + 5];
    assert p[at..at + 7][5..7] == p[at + 5..at + 7];
  }

  lemma SevenBytes(a: seq<byte>, b: seq<byte>)
    requires |a| == |b| == 7
    ensures a == b <==> a[0] == b[0] && a[1..3] == b[1..3] && a[3..5] == b[3..5] && a[5..7] == b[5..7]
  {
    assert a == [a[0]] + a[1..3] + a[3..5] + a[5..7] && b == [b[0]] + b[1..3] + b[3..5] + b[5..7];
  }

  lemma ReportSlice(j: JointReport, p: seq<byte>, middle: seq<byte>, i: nat)
    requires ReportFits(j) && WIDTH * i + 7 <= |middle| && HEAD + |middle| <= |p| && middle == p[HEAD..HEAD + |middle|]
    ensures middle[i * WIDTH..i * WIDTH + WIDTH] == ReportBytes(j) <==> ReportAt(p, HEAD + WIDTH * i) == j
  {
    var k := WIDTH * i;
    assert i * WIDTH == k;
    SliceOfSlice(p, HEAD, HEAD + |middle|, k, k + 7);
    ReportCodec(j, p, HEAD + WIDTH * i);
  }

  lemma ReportsLayout(js: seq<JointReport>, p: seq<byte>)
    requires HEAD + WIDTH * |js| <= |p| && forall j :: j in js ==> ReportFits(j)
    ensures |AllReportBytes(js)| == WIDTH * |js|
    ensures p[HEAD..HEAD + WIDTH * |js|] == AllReportBytes(js) <==> ReportsAt(p, |js|) == js
  {
    FlatMapSlices<JointReport, byte>(ReportBytes, js, WIDTH);
    if ReportsAt(p, |js|) == js {
      ReportsAsBytes(js, p);
    }
    if p[HEAD..HEAD + WIDTH * |js|] == AllReportBytes(js) {
      BytesAsReports(js, p);
    }
  }

  lemma ReportsAsBytes(js: seq<JointReport>, p: seq<byte>)
    requires HEAD + WIDTH * |js| <= |p| && (forall j :: j in js ==> ReportFits(j)) && ReportsAt(p, |js|) == js
    ensures p[HEAD..HEAD + WIDTH * |js|] == AllReportBytes(js)
  {
    var middle := p[HEAD..HEAD + WIDTH * |js|];
    forall i | 0 <= i < |js|
      ensures 0 <= i * WIDTH <= i * WIDTH + WIDTH <= |middle|
      ensures middle[i * WIDTH..i * WIDTH + WIDTH] == ReportBytes(js[i])
    {
      assert ReportsAt(p, |js|)[i] == js[i];
      ReportSlice(js[i], p, middle, i);
    }
    FlatMapFromSlices<JointReport, byte>(ReportBytes, js, WIDTH, middle);
  }

  lemma BytesAsReports(js: seq<JointReport>, p: seq<byte>)
    requires HEAD + WIDTH * |js| <= |p| && (forall j :: j in js ==> ReportFits(j))
    requires p[HEAD..HEAD + WIDTH * |js|] == AllReportBytes(js)
    ensures ReportsAt(p, |js|) == js
  {
    FlatMapSlices<JointReport, byte>(ReportBytes, js, WIDTH);
    forall i | 0 <= i < |js|
      ensures ReportsAt(p, |js|)[i] == js[i]
    {
      ReportSlice(js[i], p, p[HEAD..HEAD + WIDTH * |js|], i);
    }
  }

  lemma LayoutParts(uptimeMs: u32, state: byte, flags: byte, supplyMv: u16, joints: seq<JointReport>, p: seq<byte>)
    requires |joints| <= MAX_JOINTS && (forall j :: j in joints ==> ReportFits(j)) && |p| == HEAD + WIDTH * |joints|
    ensures |Layout(uptimeMs, state, flags, supplyMv, joints)| == |p|
    ensures p == Layout(uptimeMs, state, flags, supplyMv, joints) <==>
      && ReadU32(p, 0) == uptimeMs && p[4] == state && p[5] == flags && ReadU16(p, 6) == supplyMv
      && p[8] == |joints| && ReportsAt(p, |joints|) == joints
  {
    ReportsLayout(joints, p);
    U32RoundTrip(uptimeMs, p, 0);
    U16RoundTrip(supplyMv, p, 6);
    var m := Layout(uptimeMs, state, flags, supplyMv, joints);
    assert m[0..4] == WriteU32(uptimeMs) && m[4] == state && m[5] == flags && m[6..8] == WriteU16(supplyMv);
    assert m[8] == |joints| && m[HEAD..] == AllReportBytes(joints);
    assert p == p[0..4] + [p[4], p[5]] + p[6..8] + [p[8]] + p[HEAD..];
    assert p[HEAD..] == p[HEAD..HEAD + WIDTH * |joints|];
  }

  lemma TelemetryCodec(t: RobotTelemetry, p: seq<byte>)
    ensures DecodeTelemetry(p) == Ok(t) <==> EncodeTelemetry(t) == Ok(p)
  {
    if TelemetryFault(t).None? {
      if |p| == HEAD + WIDTH * |t.joints| {
        LayoutParts(t.uptimeMs, t.state.Code(), t.flags, t.supplyMv, t.joints, p);
      } else {
        FlatMapSlices<JointReport, byte>(ReportBytes, t.joints, WIDTH);
      }
    }
  }

  // ---- The loops

  method EncodeRobotTelemetry(t: RobotTelemetry) returns (r: Result<seq<byte>, ProtocolError>)
    ensures r == EncodeTelemetry(t)
  {
    if !FitsU32(t.uptimeMs) || !FitsByte(t.flags) || !FitsU16(t.supplyMv) {
      return Err(FieldRange);
    }
    if !(1 <= |t.joints| <= MAX_JOINTS) {
      return Err(JointCount);
    }
    if !DistinctReports(t.joints) {
      return Err(DuplicateJoint);
    }
    ghost var head := WriteU32(t.uptimeMs) + [t.state.Code(), t.flags] + WriteU16(t.supplyMv) + [|t.joints|];
    var payload: seq<byte> := WriteU32(t.uptimeMs) + [t.state.Code(), t.flags] + WriteU16(t.supplyMv) + [|t.joints|];
    for i := 0 to |t.joints|
      invariant payload == head + AllReportBytes(t.joints[..i])
      invariant forall j :: j in t.joints[..i] ==> ReportFits(j)
    {
      var j := t.joints[i];
      if !ReportFits(j) {
        assert j in t.joints;
        return Err(FieldRange);
      }
      OneMoreReport(t.joints, i);
      payload := payload + ([j.jointId] + WriteU16(ToUnsigned(j.positionCdeg)) + WriteU16(ToUnsigned(j.velocityCdegS))
                            + WriteU16(j.currentMa));
      assert payload == head + (AllReportBytes(t.joints[..i]) + ReportBytes(j));
    }
    assert t.joints[..|t.joints|] == t.joints;
    assert TelemetryFault(t).None?;
    r := Ok(payload);
  }

  lemma OneMoreReport(joints: seq<JointReport>, i: nat)
    requires i < |joints|
    ensures AllReportBytes(joints[..i + 1]) == AllReportBytes(joints[..i]) + ReportBytes(joints[i])
    ensures joints[..i + 1] == joints[..i] + [joints[i]]
  {
    assert joints[..i + 1] == joints[..i] + [joints[i]];
    FlatMapConcat<JointReport, byte>(ReportBytes, joints[..i], [joints[i]]);
    FlatMapOne<JointReport, byte>(ReportBytes, joints[i]);
  }

  method DecodeRobotTelemetry(p: seq<byte>) returns (r: Result<RobotTelemetry, ProtocolError>)
    ensures r == DecodeTelemetry(p)
  {
    if |p| < HEAD + WIDTH {
      return Err(Truncated);
    }
    var count := CountAt(p);
    if !(1 <= count <= MAX_JOINTS) {
      return Err(JointCount);
    }
    if |p| != HEAD + count * WIDTH {
      return Err(LengthMismatch);
    }
    var state := StateOf(p[4]);
    if state.None? {
      return Err(UnknownEnum);
    }
    var joints: seq<JointReport> := [];
    var offset := HEAD;
    for i := 0 to count
      invariant offset == HEAD + WIDTH * i
      invariant |joints| == i && forall k :: 0 <= k < i ==> joints[k] == ReportAt(p, HEAD + WIDTH * k)
    {
      joints := joints + [ReportAt(p, offset)];
      offset := offset + WIDTH;
    }
    assert joints == ReportsAt(p, count);
    var decoded := RobotTelemetry(ReadU32(p, 0), state.value, p[5], ReadU16(p, 6), joints);
    var encoded := EncodeRobotTelemetry(decoded);
    r := if encoded.Err? then Err(encoded.error) else Ok(decoded);
  }

  // ---- Firmware

  /** The firmware's record: fields of fixed width, and a state code that is not checked. */
  datatype RawReport = RawReport(uptimeMs: u32, state: byte, flags: byte, supplyMv: u16, joints: seq<JointReport>)

  /** Fields of the widths the record has; the joint id may still be the reserved 0. */
  predicate Narrow(j: JointReport) {
    FitsByte(j.jointId) && FitsI16(j.positionCdeg) && FitsI16(j.velocityCdegS) && FitsU16(j.currentMa)
  }

  /** Writes one joint's seven bytes. */
  method WriteReport(j: JointReport, out: array<byte>, at: nat)
    requires ReportFits(j) && at + WIDTH <= out.Length
    modifies out
    ensures out[..] == old(out[..at]) + ReportBytes(j) + old(out[at + WIDTH..])
  {
    ghost var r := ReportBytes(j);
    var position, velocity := ToUnsigned(j.positionCdeg), ToUnsigned(j.velocityCdegS);
    out[at] := j.jointId;
    out[at + 1], out[at + 2] := position % 0x100, position / 0x100;
    out[at + 3], out[at + 4] := velocity % 0x100, velocity / 0x100;
    out[at + 5], out[at + 6] := j.currentMa % 0x100, j.currentMa / 0x100;
    ghost var s := out[..];
    assert s[at..at + WIDTH] == r && s[..at] == old(out[..at]) && s[at + WIDTH..] == old(out[at + WIDTH..]);
    Spliced(s, at, at + WIDTH);
  }

  lemma Spliced(s: seq<byte>, from: nat, to: nat)
    requires from <= to <= |s|
    ensures s == s[..from] + s[from..to] + s[to..]
  {
  }

  /**
   Writes the payload into the caller's buffer and returns its size; 0 if there are no joints or more than
   eight, if the buffer is too small, or if a joint has id 0, in which case part of it has been overwritten.
   */
  method EncodeRobotTelemetryPayload(t: RawReport, out: array?<byte>, capacity: nat) returns (size: nat)
    requires out != null ==> capacity <= out.Length
    requires |t.joints| < 0x100 && forall j :: j in t.joints ==> Narrow(j)
    modifies out
    ensures size > 0 <==>
      && out != null && 1 <= |t.joints| <= MAX_JOINTS && capacity >= HEAD + WIDTH * |t.joints|
      && forall j :: j in t.joints ==> j.jointId != 0
    ensures size > 0 ==> size <= out.Length && out[size..] == old(out[size..])
    ensures size > 0 ==> out[..size] == Layout(t.uptimeMs, t.state, t.flags, t.supplyMv, t.joints)
  {
    if |t.joints| == 0 || |t.joints| > MAX_JOINTS {
      return 0;
    }
    var required := HEAD + |t.joints| * WIDTH;
    if out == null || capacity < required {
      return 0;
    }
    ghost var head := WriteU32(t.uptimeMs) + [t.state, t.flags] + WriteU16(t.supplyMv) + [|t.joints|];
    WriteHead(t, out);
    var offset := HEAD;
    for i := 0 to |t.joints|
      invariant offset == HEAD + WIDTH * i && out[..offset] == head + AllReportBytes(t.joints[..i])
      invariant out[required..] == old(out[required..])
      invariant forall j :: j in t.joints[..i] ==> j.jointId != 0
    {
      var joint := t.joints[i];
      assert joint in t.joints;
      if joint.jointId == 0 {
        return 0;
      }
      OneMoreReport(t.joints, i);
      ghost var before := out[..offset];
      WriteReport(joint, out, offset);
      offset := offset + WIDTH;
      assert out[..offset] == before + ReportBytes(joint);
    }
    assert t.joints[..|t.joints|] == t.joints;
    size := offset;
  }

  method WriteHead(t: RawReport, out: array<byte>)
    requires out.Length >= HEAD && |t.joints| < 0x100
    modifies out
    ensures out[..HEAD] == WriteU32(t.uptimeMs) + [t.state, t.flags] + WriteU16(t.supplyMv) + [|t.joints|]
    ensures out[HEAD..] == old(out[HEAD..])
  {
    var low, high := t.uptimeMs % 0x1_0000, t.uptimeMs / 0x1_0000;
    out[0], out[1], out[2], out[3] := low % 0x100, low / 0x100, high % 0x100, high / 0x100;
    out[4], out[5] := t.state, t.flags;
    out[6], out[7] := t.supplyMv % 0x100, t.supplyMv / 0x100;
    out[8] := |t.joints|;
  }

  /** What the firmware sends the host can read, with the same fields, unless ids repeat or the state is unknown. */
  lemma FirmwareReportDecodes(t: RawReport)
    requires 1 <= |t.joints| <= MAX_JOINTS && forall j :: j in t.joints ==> ReportFits(j)
    ensures var p := Layout(t.uptimeMs, t.state, t.flags, t.supplyMv, t.joints);
      && (DecodeTelemetry(p).Ok? <==> StateOf(t.state).Some? && DistinctReports(t.joints))
      && (DecodeTelemetry(p).Ok? ==>
            DecodeTelemetry(p).value
              == RobotTelemetry(t.uptimeMs, StateOf(t.state).value, t.flags, t.supplyMv, t.joints))
  {
    var p := Layout(t.uptimeMs, t.state, t.flags, t.supplyMv, t.joints);
    FlatMapSlices<JointReport, byte>(ReportBytes, t.joints, WIDTH);
    LayoutParts(t.uptimeMs, t.state, t.flags, t.supplyMv, t.joints, p);
  }
}
