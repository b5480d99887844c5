/** What the controller answers: the bytes it writes, decoded by the host, and what the gateway makes of them. */
module SerialReplies {
  import opened Bytes
  import opened Framing
  import M = Messages
  import opened FirmwareRuntime
  import opened FirmwareRuns
  import opened Stream
  import opened Traffic
  import opened SerialReceiver
  import opened SerialRuns
  import opened Gateway

  // ---- One reply

  /** The number is ahead of the last one by less than half the range. */
  predicate IsNext(m: Mcu, sequence: u16) {
    m.sequenceSeen ==> 1 <= (sequence - m.lastSequence) % 0x1_0000 <= 0x7FFF
  }

  /** Ready, with no stop input and a heartbeat within the timeout on the wrapping clock. */
  predicate CanMove(m: Mcu, nowMs: u32) {
    m.state.ReadyState? && !m.physicalEstop && m.heartbeatSeen && (nowMs - m.lastHeartbeatMs) % WORD <= m.timeoutMs
  }

  /** The status a request deserves, from the controller's state before it and the clock. */
  function Deserved(m: Mcu, sequence: u16, request: Request, nowMs: u32): M.AckStatus {
    if !IsNext(m, sequence) then M.Stale
    else
      match request
      case Beat => M.AckOk
      case Stop => M.AckOk
      case Motion(id) =>
        if !CanMove(m, nowMs) then M.Rejected else if m.lastCommand == Some(id) then M.Stale else M.AckOk
      case BadMotion => M.Invalid
      case Other => M.Invalid
  }

  /** The frame that says so. */
  function ReplyTo(m: Mcu, e: Event, number: u16): Frame
    requires IsMessage(e)
  {
    var status := Deserved(m, e.meaning.sequence, e.meaning.request, e.time % WORD);
    AnyFrame.Frame(if status == M.AckOk then Ack else Nack, number,
                   WriteU16(e.meaning.sequence) + [match status
                                                   case AckOk => 0
                                                   case Rejected => 1
                                                   case Stale => 2
                                                   case Invalid => 3])
  }

  /** The host reads it as the acknowledgement of that very request, with the deserved status. */
  lemma ReplyDecodes(m: Mcu, e: Event, number: u16)
    requires IsMessage(e)
    ensures var f := ReplyTo(m, e, number);
      var status := Deserved(m, e.meaning.sequence, e.meaning.request, e.time % WORD);
      && Decode(Encode(f)) == Ok(f) && f.sequence == number
      && M.DecodeAcknowledgement(f.payload) == Ok(M.Acknowledgement(e.meaning.sequence, status))
      && (f.messageType.Ack? <==> status.AckOk?) && (f.messageType.Nack? <==> !status.AckOk?)
  {
    var f := ReplyTo(m, e, number);
    var status := Deserved(m, e.meaning.sequence, e.meaning.request, e.time % WORD);
    DecodeInvertsEncode(f, Encode(f));
    M.AcknowledgementCodec(M.Acknowledgement(e.meaning.sequence, status), f.payload);
  }

  /** Heartbeat taken, stop latched, or motion taken on. */
  predicate CarriedOut(o: Outcome) {
    o == Dispatched(HeartbeatAccepted) || o == Dispatched(EstopLatched) || o == Dispatched(MotionDeferred)
  }

  lemma OkMeansCarriedOut(m: Mcu, e: Event)
    requires IsMessage(e)
    ensures Deserved(m, e.meaning.sequence, e.meaning.request, e.time % WORD).AckOk? <==> CarriedOut(Step(m, e).1)
  {
  }

  // ---- Everything written

  /** What an event leaves the controller and its output in. */
  function Served(desk: Desk, e: Event): Desk {
    var mcu := Step(desk.mcu, e).0;
    if IsMessage(e) then Wrote(mcu, desk, Encode(ReplyTo(desk.mcu, e, desk.number))) else desk.(mcu := mcu)
  }

  function Wrote(mcu: Mcu, desk: Desk, reply: seq<byte>): Desk {
    Desk(mcu, desk.written + reply, (desk.number + 1) % 0x1_0000)
  }

  function DeskAt(desk: Desk, run: seq<Event>, i: nat): Desk
    requires i <= |run|
  {
    if i == 0 then desk else Served(DeskAt(desk, run, i - 1), run[i - 1])
  }

  lemma ParsedSequence(data: seq<byte>)
    requires |data| >= OVERHEAD && MeaningOf(data).Message?
    ensures MeaningOf(data).sequence == ReadU16(data, 4)
  {
  }

  lemma StatusIsDeserved(m: Mcu, sequence: u16, request: Request, nowMs: u32)
    ensures var result := AfterMessage(m, Message(sequence, request), nowMs).1;
      !result.RejectedInvalidFrame? && StatusFor(result) == Deserved(m, sequence, request, nowMs)
  {
  }

  lemma ReplyFrameIs(m: Mcu, e: Event, number: u16, status: M.AckStatus)
    requires IsMessage(e) && status == Deserved(m, e.meaning.sequence, e.meaning.request, e.time % WORD)
    ensures ReplyFrame(e.meaning.sequence, status, number) == Encode(ReplyTo(m, e, number))
  {
  }

  lemma GarbageIsServed(desk: Desk, e: Event, mcu: Mcu, result: DispatchResult, request: u16)
    requires e.FrameIn? && e.meaning.Garbage? && (mcu, result) == AfterMessage(desk.mcu, e.meaning, e.time % WORD)
    ensures Replied(mcu, desk.written, desk.number, request, result) == Served(desk, e)
  {
  }

  lemma MessageIsServed(desk: Desk, e: Event, mcu: Mcu, result: DispatchResult)
    requires IsMessage(e) && (mcu, result) == AfterMessage(desk.mcu, e.meaning, e.time % WORD)
    ensures Replied(mcu, desk.written, desk.number, e.meaning.sequence, result) == Served(desk, e)
  {
    StatusIsDeserved(desk.mcu, e.meaning.sequence, e.meaning.request, e.time % WORD);
    ReplyFrameIs(desk.mcu, e, desk.number, StatusFor(result));
    StepIs(desk.mcu, e, mcu, result);
    RepliedIsWrote(desk, mcu, e.meaning.sequence, result, Encode(ReplyTo(desk.mcu, e, desk.number)));
  }

  lemma StepIs(m: Mcu, e: Event, mcu: Mcu, result: DispatchResult)
    requires e.FrameIn? && (mcu, result) == AfterMessage(m, e.meaning, e.time % WORD)
    ensures Step(m, e).0 == mcu
  {
  }

  lemma RepliedIsWrote(desk: Desk, mcu: Mcu, request: u16, result: DispatchResult, reply: seq<byte>)
    requires !result.RejectedInvalidFrame? && ReplyFrame(request, StatusFor(result), desk.number) == reply
    ensures Replied(mcu, desk.written, desk.number, request, result) == Wrote(mcu, desk, reply)
  {
  }

  /** What is written for a frame is what its request deserves. */
  lemma AnsweredIsServed(desk: Desk, data: seq<byte>, time: nat)
    requires |data| >= OVERHEAD
    ensures Answered(desk, data, time % WORD) == Served(desk, FrameIn(MeaningOf(data), time))
  {
    var e := FrameIn(MeaningOf(data), time);
    var (mcu, result) := AfterMessage(desk.mcu, e.meaning, time % WORD);
    if e.meaning.Message? {
      MessageIsServed(desk, e, mcu, result);
      ParsedSequence(data);
    } else {
      GarbageIsServed(desk, e, mcu, result, ReadU16(data, 4));
    }
  }

  lemma {:induction false} DeskOfPrefix(desk: Desk, a: seq<Event>, b: seq<Event>, i: nat)
    requires i <= |a|
    ensures DeskAt(desk, a + b, i) == DeskAt(desk, a, i)
    decreases i
  {
    if i > 0 {
      DeskOfPrefix(desk, a, b, i - 1);
    }
  }

  lemma {:induction false} DeskOfConcat(desk: Desk, a: seq<Event>, b: seq<Event>, i: nat)
    requires i <= |b|
    ensures DeskAt(desk, a + b, |a| + i) == DeskAt(DeskAt(desk, a, |a|), b, i)
    decreases i
  {
    if i == 0 {
      DeskOfPrefix(desk, a, b, |a|);
    } else {
      DeskOfConcat(desk, a, b, i - 1);
      assert (a + b)[|a| + i - 1] == b[i - 1];
    }
  }

  lemma DeskOneMore(desk: Desk, run: seq<Event>, e: Event)
    ensures DeskAt(desk, run + [e], |run| + 1) == Served(DeskAt(desk, run, |run|), e)
  {
    DeskOfPrefix(desk, run, [e], |run|);
    assert (run + [e])[|run|] == e;
  }

  lemma {:induction false} FramesAreServed(desk: Desk, frames: seq<seq<byte>>, time: nat)
    requires Complete(frames)
    ensures AnsweredAll(desk, frames, time % WORD) == DeskAt(desk, FrameEvents(MeaningsOf(frames), time), |frames|)
    decreases |frames|
  {
    if frames != [] {
      var before, last := frames[..|frames| - 1], frames[|frames| - 1];
      assert frames == before + [last];
      FramesAreServed(desk, before, time);
      OneMoreServed(desk, before, last, time);
    }
  }

  lemma OneMoreServed(desk: Desk, before: seq<seq<byte>>, last: seq<byte>, time: nat)
    requires Complete(before) && Complete(before + [last])
    requires AnsweredAll(desk, before, time % WORD) == DeskAt(desk, FrameEvents(MeaningsOf(before), time), |before|)
    ensures AnsweredAll(desk, before + [last], time % WORD)
         == DeskAt(desk, FrameEvents(MeaningsOf(before + [last]), time), |before| + 1)
  {
    var run := FrameEvents(MeaningsOf(before), time);
    AnsweredOneMore(desk, before, Some(last), time % WORD);
    AnsweredIsServed(AnsweredAll(desk, before, time % WORD), last, time);
    DeskOneMore(desk, run, FrameIn(MeaningOf(last), time));
    EventsOneMore(before, last, time);
  }

  lemma EventsOneMore(before: seq<seq<byte>>, last: seq<byte>, time: nat)
    ensures FrameEvents(MeaningsOf(before + [last]), time)
         == FrameEvents(MeaningsOf(before), time) + [FrameIn(MeaningOf(last), time)]
  {
  }

  lemma PassIsServed(desk: Desk, frames: seq<seq<byte>>, time: nat)
    requires Complete(frames)
    ensures var run := PassEvents(MeaningsOf(frames), time);
      Passed(desk, frames, time % WORD) == DeskAt(desk, run, |run|)
  {
    FramesAreServed(desk, frames, time);
    DeskOneMore(desk, FrameEvents(MeaningsOf(frames), time), TickAt(time));
  }

  /** After any passes over any bytes: the controller, and everything it wrote, are those of its run. */
  lemma {:induction false} PassesAreServed(b: Board, passes: seq<Pass>)
    requires Sound(b.receiver)
    ensures var run := EventsOf(b.receiver, passes);
      AfterPasses(b, passes).desk == DeskAt(b.desk, run, |run|)
    decreases |passes|
  {
    if passes != [] {
      var c := AfterPass(b, passes[0]);
      PassesAreServed(c, passes[1..]);
      var first := FirstEvents(b, passes[0]);
      FirstPassServed(b, passes[0], first);
      FirstPass(b, passes, first);
      JoinDesks(b.desk, c.desk, first, EventsOf(c.receiver, passes[1..]));
    }
  }

  lemma JoinDesks(desk: Desk, mid: Desk, a: seq<Event>, b: seq<Event>)
    requires mid == DeskAt(desk, a, |a|)
    ensures DeskAt(desk, a + b, |a + b|) == DeskAt(mid, b, |b|)
  {
    DeskOfConcat(desk, a, b, |b|);
  }

  lemma FirstPassServed(b: Board, p: Pass, run: seq<Event>)
    requires Sound(b.receiver) && run == PassEvents(MeaningsOf(AcceptAll(b.receiver, p.incoming).1), p.time)
    ensures AfterPass(b, p).desk == DeskAt(b.desk, run, |run|)
  {
    AcceptedAreComplete(b.receiver, p.incoming);
    PassIsServed(b.desk, AcceptAll(b.receiver, p.incoming).1, p.time);
  }

  // ---- As the host sees it

  function NumberAfter(start: u16, n: nat): u16 {
    if n == 0 then start else (NumberAfter(start, n - 1) + 1) % 0x1_0000
  }

  lemma {:induction false} NumberAfterIs(start: u16, n: nat)
    ensures NumberAfter(start, n) == (start + n) % 0x1_0000
  {
    if n > 0 {
      NumberAfterIs(start, n - 1);
      AddOne(start + n - 1);
    }
  }

  lemma AddOne(n: nat)
    ensures (n % 0x1_0000 + 1) % 0x1_0000 == (n + 1) % 0x1_0000
  {
  }

  /** The replies to the messages among the first i events, in order. */
  function Replies(desk: Desk, run: seq<Event>, i: nat): seq<Frame>
    requires i <= |run|
  {
    if i == 0 then []
    else
      Replies(desk, run, i - 1)
      + if IsMessage(run[i - 1]) then
          [ReplyTo(State(desk.mcu, run, i - 1), run[i - 1], NumberAfter(desk.number, |Replies(desk, run, i - 1)|))]
        else []
  }

  /** This is the controller, and these replies have been written since the start. */
  predicate Tells(start: Desk, mcu: Mcu, replies: seq<Frame>, desk: Desk) {
    && desk.mcu == mcu
    && desk.written == start.written + EncodeAll(replies)
    && desk.number == NumberAfter(start.number, |replies|)
  }

  lemma TellsOneMore(start: Desk, mcu: Mcu, replies: seq<Frame>, desk: Desk, next: Mcu, f: Frame)
    requires Tells(start, mcu, replies, desk)
    ensures Tells(start, next, replies + [f], Wrote(next, desk, Encode(f)))
  {
    WrittenGrows(start.written, desk.written, replies, f);
    NumberGrows(start.number, |replies|, next, desk, Encode(f));
    TellsFrom(start, next, replies + [f], Wrote(next, desk, Encode(f)), |replies| + 1);
  }

  lemma TellsFrom(start: Desk, mcu: Mcu, replies: seq<Frame>, desk: Desk, n: nat)
    requires desk.mcu == mcu && desk.written == start.written + EncodeAll(replies)
    requires |replies| == n && desk.number == NumberAfter(start.number, n)
    ensures Tells(start, mcu, replies, desk)
  {
  }

  lemma NumberGrows(start: u16, n: nat, mcu: Mcu, desk: Desk, reply: seq<byte>)
    requires desk.number == NumberAfter(start, n)
    ensures Wrote(mcu, desk, reply).number == NumberAfter(start, n + 1)
  {
  }

  lemma WrittenGrows(start: seq<byte>, written: seq<byte>, replies: seq<Frame>, f: Frame)
    requires written == start + EncodeAll(replies)
    ensures written + Encode(f) == start + EncodeAll(replies + [f])
  {
    EncodeAllAppend(replies, f);
    Associates(start, EncodeAll(replies), Encode(f));
  }

  lemma Associates(a: seq<byte>, b: seq<byte>, c: seq<byte>)
    ensures (a + b) + c == a + (b + c)
  {
  }

  lemma ServedTells(start: Desk, mcu: Mcu, replies: seq<Frame>, desk: Desk, e: Event)
    requires Tells(start, mcu, replies, desk)
    ensures var next := Step(mcu, e).0;
      if IsMessage(e)
      then Tells(start, next, replies + [ReplyTo(mcu, e, NumberAfter(start.number, |replies|))], Served(desk, e))
      else Tells(start, next, replies, Served(desk, e))
  {
    if IsMessage(e) {
      TellsOneMore(start, mcu, replies, desk, Step(mcu, e).0, ReplyTo(mcu, e, desk.number));
    }
  }

  lemma {:induction false} DeskTells(start: Desk, run: seq<Event>, i: nat)
    requires i <= |run|
    ensures Tells(start, State(start.mcu, run, i), Replies(start, run, i), DeskAt(start, run, i))
    decreases i
  {
    if i == 0 {
      assert start.written + EncodeAll([]) == start.written;
    } else {
      DeskTells(start, run, i - 1);
      TellsNext(start, run, i - 1);
    }
  }

  lemma TellsNext(start: Desk, run: seq<Event>, i: nat)
    requires i < |run| && Tells(start, State(start.mcu, run, i), Replies(start, run, i), DeskAt(start, run, i))
    ensures Tells(start, State(start.mcu, run, i + 1), Replies(start, run, i + 1), DeskAt(start, run, i + 1))
  {
    RepliesNext(start, run, i);
    StateNext(start.mcu, run, i);
    ServedTellsAll(start, State(start.mcu, run, i), Replies(start, run, i), DeskAt(start, run, i), run[i],
                   State(start.mcu, run, i + 1), Replies(start, run, i + 1));
  }

  lemma StateNext(m: Mcu, run: seq<Event>, i: nat)
    requires i < |run|
    ensures State(m, run, i + 1) == Step(State(m, run, i), run[i]).0
  {
  }

  lemma ServedTellsAll(start: Desk, mcu: Mcu, replies: seq<Frame>, desk: Desk, e: Event, next: Mcu, all: seq<Frame>)
    requires Tells(start, mcu, replies, desk) && next == Step(mcu, e).0
    requires all == if IsMessage(e)
                    then replies + [ReplyTo(mcu, e, NumberAfter(start.number, |replies|))] else replies
    ensures Tells(start, next, all, Served(desk, e))
  {
    ServedTells(start, mcu, replies, desk, e);
  }

  lemma RepliesNext(start: Desk, run: seq<Event>, i: nat)
    requires i < |run|
    ensures var n := |Replies(start, run, i)|;
      Replies(start, run, i + 1)
        == if IsMessage(run[i])
           then Replies(start, run, i) + [ReplyTo(State(start.mcu, run, i), run[i], NumberAfter(start.number, n))]
           else Replies(start, run, i)
  {
    assert !IsMessage(run[i]) ==> Replies(start, run, i) + [] == Replies(start, run, i);
  }

  /**
   Whatever bytes come in, in whatever passes: the host's decoder finds in the output exactly one reply to each message,
   in order, numbered one after the other, and nothing else.
   */
  lemma HostReadsReplies(b: Board, passes: seq<Pass>, limit: nat)
    requires Sound(b.receiver) && b.desk.written == [] && limit >= OVERHEAD + 3
    ensures var run := EventsOf(b.receiver, passes);
      var parsed := Parse(AfterPasses(b, passes).desk.written, limit);
      && FramesOf(parsed.segments) == Replies(b.desk, run, |run|)
      && IssuesOf(parsed.segments) == [] && parsed.rest == []
  {
    var run := EventsOf(b.receiver, passes);
    PassesAreServed(b, passes);
    DeskTells(b.desk, run, |run|);
    RepliesAreShort(b.desk, run, |run|);
    AllFramesArrive(Replies(b.desk, run, |run|), limit);
    assert [] + EncodeAll(Replies(b.desk, run, |run|)) == EncodeAll(Replies(b.desk, run, |run|));
  }

  lemma {:induction false} RepliesAreShort(desk: Desk, run: seq<Event>, i: nat)
    requires i <= |run|
    ensures forall f :: f in Replies(desk, run, i) ==> WireSize(f) == OVERHEAD + 3
    decreases i
  {
    if i > 0 {
      RepliesAreShort(desk, run, i - 1);
    }
  }

  lemma {:induction false} AllFramesArrive(frames: seq<Frame>, limit: nat)
    requires Fits(frames, limit)
    ensures var parsed := Parse(EncodeAll(frames), limit);
      FramesOf(parsed.segments) == frames && IssuesOf(parsed.segments) == [] && parsed.rest == []
  {
    if frames != [] {
      assert frames[0] in frames;
      AllFramesArrive(frames[1..], limit);
      FirstOfPrefix(frames[0], EncodeAll(frames[1..]), limit);
      assert EncodeAll(frames) == Encode(frames[0]) + EncodeAll(frames[1..]);
    }
  }

  /**
   What the gateway makes of a reply, with request `sequence` outstanding: a receipt if and only if it is the reply to
   that request and the controller took the heartbeat, latched the stop or took on the motion.
   */
  lemma ReceiptFromController(g: GatewayState, sequence: u16, messageType: MessageType, m: Mcu, e: Event, number: u16)
    requires IsMessage(e)
    ensures var (h, r) := Finished(g, sequence, messageType, GotFrame(ReplyTo(m, e, number)));
      && (r.Ok? <==> e.meaning.sequence == sequence && CarriedOut(Step(m, e).1))
      && h.acknowledged == g.acknowledged + (if r.Ok? then 1 else 0)
  {
    ReplyDecodes(m, e, number);
    OkMeansCarriedOut(m, e);
  }
}
