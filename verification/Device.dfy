/** The protocol endpoint in front of the digital twin: one acknowledgement for every request. */
module Device {
  import opened Bytes
  import opened Framing
  import M = Messages
  import opened RobotModel
  import opened DigitalTwin

  datatype DispatchError = ProtocolFailure(error: M.ProtocolError) | TwinFailure(twinError: TwinError) | NotARequest

  /** What a request does to the twin, or why it is refused. */
  function Dispatched(model: Model, t: Twin, f: Frame): Result<Twin, DispatchError>
    requires model.Identified()
  {
    match f.messageType
    case Heartbeat =>
      (match M.DecodeHeartbeat(f.payload)
       case Ok(_) => Ok(t)
       case Err(e) => Err(ProtocolFailure(e)))
    case ValidatedMotionCommand =>
      (match M.DecodeMotion(f.payload)
       case Err(e) => Err(ProtocolFailure(e))
       case Ok(c) =>
         match Accepted(model, t, c)
         case Ok(u) => Ok(u)
         case Err(e) => Err(TwinFailure(e)))
    case Estop =>
      (match M.DecodeEmergencyStop(f.payload)
       case Ok(_) => Ok(Stopped(model, t))
       case Err(e) => Err(ProtocolFailure(e)))
    case _ => Err(NotARequest)
  }

  /** The twin after a request: unchanged if it was refused. */
  function AfterRequest(model: Model, t: Twin, f: Frame): Twin
    requires model.Identified()
  {
    match Dispatched(model, t, f)
    case Ok(u) => u
    case Err(_) => t
  }

  function StatusFor(ok: bool): M.AckStatus {
    if ok then M.AckOk else M.Invalid
  }

  function AcknowledgementBytes(sequence: u16, status: M.AckStatus): (p: seq<byte>)
    ensures |p| == 3
  {
    M.Acknowledgement(sequence, status).Encode().value
  }

  /** The device's answer to request number `request`, as its frame number `number`. */
  function Answer(request: u16, ok: bool, number: u16): Frame {
    AnyFrame.Frame(if ok then Ack else Nack, number, AcknowledgementBytes(request, StatusFor(ok)))
  }

  lemma AnswerSays(request: u16, ok: bool, number: u16)
    ensures M.DecodeAcknowledgement(Answer(request, ok, number).payload)
         == Ok(M.Acknowledgement(request, StatusFor(ok)))
  {
    M.AcknowledgementCodec(M.Acknowledgement(request, StatusFor(ok)), AcknowledgementBytes(request, StatusFor(ok)));
  }

  class DigitalTwinProtocolDevice {
    const twin: DigitalTwinRobot
    var responseSequence: u16

    predicate Valid()
      reads this, twin
    {
      twin.Valid()
    }

    constructor (twin: DigitalTwinRobot)
      requires twin.Valid()
      ensures Valid() && this.twin == twin && responseSequence == 0
    {
      this.twin := twin;
      responseSequence := 0;
    }

    method Dispatch(f: Frame) returns (ok: bool)
      requires Valid()
      modifies twin
      ensures Valid() && twin.View() == AfterRequest(twin.model, old(twin.View()), f)
      ensures ok <==> Dispatched(twin.model, old(twin.View()), f).Ok?
    {
      match f.messageType {
        case Heartbeat =>
          var heartbeat := M.DecodeHeartbeat(f.payload);
          return heartbeat.Ok?;
        case ValidatedMotionCommand =>
          var command := M.DecodeMotionCommand(f.payload);
          if command.Err? {
            return false;
          }
          var accepted := twin.Accept(command.value);
          return accepted.Ok?;
        case Estop =>
          var stop := M.DecodeEmergencyStop(f.payload);
          if stop.Err? {
            return false;
          }
          twin.Estop();
          return true;
        case _ =>
          return false;
      }
    }

    method NextSequence() returns (sequence: u16)
      modifies this
      ensures sequence == old(responseSequence) && responseSequence == (old(responseSequence) + 1) % 0x1_0000
    {
      sequence := responseSequence;
      responseSequence := (responseSequence + 1) % 0x1_0000;
    }

    /** The request has been received; the answer is what goes out. */
    method ServeOnce(request: Frame) returns (answer: Frame)
      requires Valid()
      modifies this, twin
      ensures Valid() && twin.View() == AfterRequest(twin.model, old(twin.View()), request)
      ensures answer == Answer(request.sequence, Dispatched(twin.model, old(twin.View()), request).Ok?,
                               old(responseSequence))
      ensures responseSequence == (old(responseSequence) + 1) % 0x1_0000
    {
      var ok := Dispatch(request);
      var number := NextSequence();
      answer := Answer(request.sequence, ok, number);
    }
  }
}
