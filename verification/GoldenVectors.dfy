/** The test vectors that host and firmware share, byte for byte. */
module GoldenVectors {
  import opened Bytes
  import opened Folds
  import opened Framing
  import M = Messages
  import T = Telemetry

  lemma LittleEndian(low: byte, high: byte)
    ensures WriteU16(low + 0x100 * high) == [low, high]
  {
  }

  /** The robot, up for 123456 ms and idle. */
  lemma HeartbeatVector()
    ensures M.Heartbeat(M.Robot, 123456, M.Idle).Encode() == Ok([0x04, 0x40, 0xE2, 0x01, 0x00, 0x04])
  {
    assert WriteU32(123456) == [0x40, 0xE2, 0x01, 0x00];
    assert M.Heartbeat(M.Robot, 123456, M.Idle).Encode().value == [0x04, 0x40, 0xE2, 0x01, 0x00, 0x04];
  }

  /** Its frame number 7, up to the checksum. */
  lemma HeartbeatFrameVector()
    ensures var p := [0x04, 0x40, 0xE2, 0x01, 0x00, 0x04];
      Encode(AnyFrame.Frame(Heartbeat, 7, p))[..14] == [0x52, 0x43, 0x01, 0x02, 0x07, 0x00, 0x06, 0x00] + p
  {
    var p := [0x04, 0x40, 0xE2, 0x01, 0x00, 0x04];
    var f := AnyFrame.Frame(Heartbeat, 7, p);
    LittleEndian(7, 0);
    LittleEndian(6, 0);
    assert Body(f) == [0x52, 0x43, 0x01, 0x02, 0x07, 0x00, 0x06, 0x00] + p;
    assert Encode(f)[..14] == Body(f);
  }

  /** Acknowledgements of request 7, one for each status. */
  lemma AcknowledgementVectors()
    ensures M.Acknowledgement(7, M.AckOk).Encode() == Ok([0x07, 0x00, 0x00])
    ensures M.Acknowledgement(7, M.Rejected).Encode() == Ok([0x07, 0x00, 0x01])
    ensures M.Acknowledgement(7, M.Stale).Encode() == Ok([0x07, 0x00, 0x02])
    ensures M.Acknowledgement(7, M.Invalid).Encode() == Ok([0x07, 0x00, 0x03])
  {
    LittleEndian(7, 0);
    assert M.Acknowledgement(7, M.AckOk).Encode().value == [0x07, 0x00, 0x00];
    assert M.Acknowledgement(7, M.Rejected).Encode().value == [0x07, 0x00, 0x01];
    assert M.Acknowledgement(7, M.Stale).Encode().value == [0x07, 0x00, 0x02];
    assert M.Acknowledgement(7, M.Invalid).Encode().value == [0x07, 0x00, 0x03];
  }

  const JOINTS: seq<T.JointReport> :=
    [T.JointReport(1, 1250, 240, 210), T.JointReport(2, -350, -120, 180), T.JointReport(3, 9050, 0, 95),
     T.JointReport(4, 2000, 15, 110)]

  lemma JointVectors()
    ensures T.ReportBytes(JOINTS[0]) == [0x01, 0xE2, 0x04, 0xF0, 0x00, 0xD2, 0x00]
    ensures T.ReportBytes(JOINTS[1]) == [0x02, 0xA2, 0xFE, 0x88, 0xFF, 0xB4, 0x00]
    ensures T.ReportBytes(JOINTS[2]) == [0x03, 0x5A, 0x23, 0x00, 0x00, 0x5F, 0x00]
    ensures T.ReportBytes(JOINTS[3]) == [0x04, 0xD0, 0x07, 0x0F, 0x00, 0x6E, 0x00]
  {
  }

  lemma FourReports()
    ensures T.AllReportBytes(JOINTS)
         == [0x01, 0xE2, 0x04, 0xF0, 0x00, 0xD2, 0x00] + [0x02, 0xA2, 0xFE, 0x88, 0xFF, 0xB4, 0x00]
            + [0x03, 0x5A, 0x23, 0x00, 0x00, 0x5F, 0x00] + [0x04, 0xD0, 0x07, 0x0F, 0x00, 0x6E, 0x00]
  {
    JointVectors();
    FlatMapConcat(T.ReportBytes, [JOINTS[0]], [JOINTS[1]]);
    FlatMapConcat(T.ReportBytes, [JOINTS[0]] + [JOINTS[1]], [JOINTS[2]]);
    FlatMapConcat(T.ReportBytes, [JOINTS[0]] + [JOINTS[1]] + [JOINTS[2]], [JOINTS[3]]);
    FlatMapOne(T.ReportBytes, JOINTS[0]);
    FlatMapOne(T.ReportBytes, JOINTS[1]);
    FlatMapOne(T.ReportBytes, JOINTS[2]);
    FlatMapOne(T.ReportBytes, JOINTS[3]);
    assert JOINTS == [JOINTS[0]] + [JOINTS[1]] + [JOINTS[2]] + [JOINTS[3]];
  }

  lemma NothingWrong(t: T.RobotTelemetry)
    requires t == T.RobotTelemetry(123456, M.Executing, 3, 6000, JOINTS)
    ensures T.TelemetryFault(t).None?
  {
  }

  lemma Head(t: T.RobotTelemetry, reports: seq<byte>)
    requires t == T.RobotTelemetry(123456, M.Executing, 3, 6000, JOINTS) && T.TelemetryFault(t).None?
    requires reports == T.AllReportBytes(JOINTS)
    ensures T.TelemetryBytes(t) == [0x40, 0xE2, 0x01, 0x00, 0x06, 0x03, 0x70, 0x17, 0x04] + reports
  {
    assert WriteU32(123456) == [0x40, 0xE2, 0x01, 0x00];
    LittleEndian(0x70, 0x17);
  }

  /** The state report of the cross-language test: executing, flags 3, 6000 mV, four joints. */
  lemma TelemetryVector()
    ensures T.EncodeTelemetry(T.RobotTelemetry(123456, M.Executing, 3, 6000, JOINTS))
         == Ok([0x40, 0xE2, 0x01, 0x00, 0x06, 0x03, 0x70, 0x17, 0x04]
               + ([0x01, 0xE2, 0x04, 0xF0, 0x00, 0xD2, 0x00] + [0x02, 0xA2, 0xFE, 0x88, 0xFF, 0xB4, 0x00]
                  + [0x03, 0x5A, 0x23, 0x00, 0x00, 0x5F, 0x00] + [0x04, 0xD0, 0x07, 0x0F, 0x00, 0x6E, 0x00]))
  {
    var t := T.RobotTelemetry(123456, M.Executing, 3, 6000, JOINTS);
    FourReports();
    NothingWrong(t);
    Head(t, T.AllReportBytes(JOINTS));
  }
}
