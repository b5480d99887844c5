/** The host gateway: one outstanding request, matched to its acknowledgement by sequence number. */
module Gateway {
  import opened Bytes
  import opened Framing
  import M = Messages
  import opened Device

  datatype GatewayState = GatewayState(
    nextSequence: u16, sent: nat, acknowledged: nat, rejected: nat, lastAcknowledged: Option<u16>)

  datatype Receipt = Receipt(frameSequence: u16, messageType: MessageType, status: M.AckStatus)

  /** What waiting for the acknowledgement gave: a frame, or a timeout, a stream error or a closed link. */
  datatype Reply = GotFrame(frame: Frame) | NoReply

  datatype RequestError =
    | NotOpen | SendFailed | NoAcknowledgement | UnexpectedType | InvalidAcknowledgement | WrongSequence
    | RejectedByRobot(status: M.AckStatus)

  function Advanced(g: GatewayState): GatewayState {
    g.(nextSequence := (g.nextSequence + 1) % 0x1_0000)
  }

  /** The end of a request that was sent under this sequence number. */
  function Finished(g: GatewayState, sequence: u16, messageType: MessageType, reply: Reply)
    : (GatewayState, Result<Receipt, RequestError>)
  {
    if reply.NoReply? then (g, Err(NoAcknowledgement))
    else if reply.frame.messageType != Ack && reply.frame.messageType != Nack then (g, Err(UnexpectedType))
    else
      match M.DecodeAcknowledgement(reply.frame.payload)
      case Err(_) => (g, Err(InvalidAcknowledgement))
      case Ok(a) =>
        if a.sequence != sequence then (g, Err(WrongSequence))
        else
          var seen := g.(lastAcknowledged := Some(sequence));
          if reply.frame.messageType == Nack || !a.status.AckOk? then
            (seen.(rejected := seen.rejected + 1), Err(RejectedByRobot(a.status)))
          else (seen.(acknowledged := seen.acknowledged + 1), Ok(Receipt(sequence, messageType, a.status)))
  }

  /** The payload has three bytes: this number, low byte first, and one of the four status codes. */
  predicate Acknowledges(payload: seq<byte>, sequence: u16) {
    |payload| == 3 &&
    var low: int, high: int := payload[0], payload[1];
    low + 256 * high == sequence && payload[2] <= 3
  }

  /**
   Against any frame whatever. A receipt is given if and only if it is an ACK that names the outstanding number with
   status code 0; any other ACK or NACK that names it is a rejection with the status it carries. Only these two are
   counted, each as one; every other frame leaves the gateway as it was.
   */
  lemma FinishedExactly(g: GatewayState, sequence: u16, messageType: MessageType, frame: Frame)
    ensures var (h, r) := Finished(g, sequence, messageType, GotFrame(frame));
      var answer := (frame.messageType.Ack? || frame.messageType.Nack?) && Acknowledges(frame.payload, sequence);
      var good := frame.messageType.Ack? && answer && frame.payload[2] == 0;
      && (r.Ok? <==> good)
      && (good ==>
            && r.value == Receipt(sequence, messageType, M.AckOk)
            && h == g.(lastAcknowledged := Some(sequence), acknowledged := g.acknowledged + 1))
      && (answer && !good ==>
            && r.Err? && r.error.RejectedByRobot? && r.error.status.Code() == frame.payload[2]
            && h == g.(lastAcknowledged := Some(sequence), rejected := g.rejected + 1))
      && (!answer ==> h == g && r == Err(
            if !frame.messageType.Ack? && !frame.messageType.Nack? then UnexpectedType
            else if |frame.payload| != 3 || frame.payload[2] > 3 then InvalidAcknowledgement
            else WrongSequence))
  {
  }

  /** Without a frame there is no receipt, and nothing is counted. */
  lemma NothingWithoutFrame(g: GatewayState, sequence: u16, messageType: MessageType)
    ensures Finished(g, sequence, messageType, NoReply) == (g, Err(NoAcknowledgement))
  {
  }

  /** Against an answer of the device: a receipt exactly for a request of this number that was carried out. */
  lemma FinishedWithAnswer(g: GatewayState, sequence: u16, messageType: MessageType, request: u16, ok: bool,
                           number: u16)
    ensures var (h, r) := Finished(g, sequence, messageType, GotFrame(Answer(request, ok, number)));
      && (r.Ok? <==> request == sequence && ok)
      && (r.Ok? ==> r.value == Receipt(sequence, messageType, M.AckOk))
      && (request != sequence ==> h == g && r == Err(WrongSequence))
      && h.nextSequence == g.nextSequence && h.sent == g.sent
      && h.acknowledged == g.acknowledged + (if request == sequence && ok then 1 else 0)
      && h.rejected == g.rejected + (if request == sequence && !ok then 1 else 0)
  {
    AnswerSays(request, ok, number);
  }

  class RobotGateway {
    var sequence: u16
    var sentCount: nat
    var acknowledgedCount: nat
    var rejectedCount: nat
    var lastAcknowledgedSequence: Option<u16>

    function View(): GatewayState
      reads this
    {
      GatewayState(sequence, sentCount, acknowledgedCount, rejectedCount, lastAcknowledgedSequence)
    }

    predicate Valid()
      reads this
    {
      acknowledgedCount + rejectedCount <= sentCount
    }

    constructor (initialSequence: u16 := 0)
      ensures Valid() && View() == GatewayState(initialSequence, 0, 0, 0, None)
    {
      sequence := initialSequence;
      sentCount, acknowledgedCount, rejectedCount := 0, 0, 0;
      lastAcknowledgedSequence := None;
    }

    method NextSequence() returns (next: u16)
      modifies this
      ensures next == old(sequence) && View() == Advanced(old(View()))
    {
      next := sequence;
      sequence := (sequence + 1) % 0x1_0000;
    }

    /**
     One request, start to end: `open` and `sent` are what the transport says, `reply` is what is received.
     The sequence number is used up as soon as the transport is open.
     */
    method Request(messageType: MessageType, payload: seq<byte>, open: bool, sent: bool, reply: Reply)
      returns (frame: Option<Frame>, r: Result<Receipt, RequestError>)
      requires Valid() && |payload| <= MAX_PAYLOAD
      modifies this
      ensures Valid()
      ensures !open ==> frame == None && r == Err(NotOpen) && View() == old(View())
      ensures open ==> frame == Some(AnyFrame.Frame(messageType, old(sequence), payload))
      ensures open && !sent ==> r == Err(SendFailed) && View() == Advanced(old(View()))
      ensures open && sent ==>
        var waiting := Advanced(old(View())).(sent := old(sentCount) + 1);
        (View(), r) == Finished(waiting, old(sequence), messageType, reply)
    {
      if !open {
        return None, Err(NotOpen);
      }
      var number := NextSequence();
      frame := Some(AnyFrame.Frame(messageType, number, payload));
      if !sent {
        return frame, Err(SendFailed);
      }
      sentCount := sentCount + 1;
      if reply.NoReply? {
        return frame, Err(NoAcknowledgement);
      }
      if reply.frame.messageType != Ack && reply.frame.messageType != Nack {
        return frame, Err(UnexpectedType);
      }
      var acknowledgement := M.DecodeAcknowledgement(reply.frame.payload);
      if acknowledgement.Err? {
        return frame, Err(InvalidAcknowledgement);
      }
      if acknowledgement.value.sequence != number {
        return frame, Err(WrongSequence);
      }
      lastAcknowledgedSequence := Some(number);
      if reply.frame.messageType == Nack || acknowledgement.value.status != M.AckOk {
        rejectedCount := rejectedCount + 1;
        return frame, Err(RejectedByRobot(acknowledgement.value.status));
      }
      acknowledgedCount := acknowledgedCount + 1;
      return frame, Ok(Receipt(number, messageType, acknowledgement.value.status));
    }
  }
}
