/** Bytes in, controller state out: what the controller has been through after any number of main-loop passes. */
module SerialRuns {
  import opened Bytes
  import opened Folds
  import opened Framing
  import opened FirmwareRuntime
  import opened FirmwareRuns
  import opened Traffic
  import opened SerialReceiver

  /** The bytes that a pass finds, and the true time of its one reading of the clock. */
  datatype Pass = Pass(incoming: seq<byte>, time: nat)

  datatype Board = Board(receiver: Receiver, desk: Desk)

  function AfterPass(b: Board, p: Pass): (after: Board)
    requires Sound(b.receiver)
    ensures Sound(after.receiver)
  {
    AcceptedAreComplete(b.receiver, p.incoming);
    var (r, frames) := AcceptAll(b.receiver, p.incoming);
    Board(r, Passed(b.desk, frames, p.time % WORD))
  }

  function AfterPasses(b: Board, passes: seq<Pass>): Board
    requires Sound(b.receiver)
    decreases |passes|
  {
    if passes == [] then b else AfterPasses(AfterPass(b, passes[0]), passes[1..])
  }

  // ---- The controller's run

  function MeaningsOf(frames: seq<seq<byte>>): seq<Meaning> {
    seq(|frames|, i requires 0 <= i < |frames| => MeaningOf(frames[i]))
  }

  function FrameEvents(meanings: seq<Meaning>, time: nat): seq<Event> {
    seq(|meanings|, i requires 0 <= i < |meanings| => FrameIn(meanings[i], time))
  }

  /** The completed frames of a pass, then the watchdog. */
  function PassEvents(meanings: seq<Meaning>, time: nat): seq<Event> {
    FrameEvents(meanings, time) + [TickAt(time)]
  }

  /** The events of the controller in any number of passes. */
  function EventsOf(r: Receiver, passes: seq<Pass>): seq<Event>
    decreases |passes|
  {
    if passes == [] then []
    else
      var (next, frames) := AcceptAll(r, passes[0].incoming);
      PassEvents(MeaningsOf(frames), passes[0].time) + EventsOf(next, passes[1..])
  }

  lemma {:induction false} StateOfPrefix(m: Mcu, a: seq<Event>, b: seq<Event>, i: nat)
    requires i <= |a|
    ensures State(m, a + b, i) == State(m, a, i)
    decreases i
  {
    if i > 0 {
      StateOfPrefix(m, a, b, i - 1);
    }
  }

  lemma {:induction false} StateOfConcat(m: Mcu, a: seq<Event>, b: seq<Event>, i: nat)
    requires i <= |b|
    ensures State(m, a + b, |a| + i) == State(State(m, a, |a|), b, i)
    decreases i
  {
    if i == 0 {
      StateOfPrefix(m, a, b, |a|);
    } else {
      StateOfConcat(m, a, b, i - 1);
      assert (a + b)[|a| + i - 1] == b[i - 1];
    }
  }

  /** The controller after these messages, all at one reading of the clock. */
  function Heard(m: Mcu, meanings: seq<Meaning>, nowMs: u32): Mcu {
    if meanings == [] then m
    else AfterMessage(Heard(m, meanings[..|meanings| - 1], nowMs), meanings[|meanings| - 1], nowMs).0
  }

  lemma {:induction false} FramesAreHeard(desk: Desk, frames: seq<seq<byte>>, nowMs: u32)
    requires Complete(frames)
    ensures AnsweredAll(desk, frames, nowMs).mcu == Heard(desk.mcu, MeaningsOf(frames), nowMs)
    decreases |frames|
  {
    if frames != [] {
      var before, last := frames[..|frames| - 1], frames[|frames| - 1];
      assert frames == before + [last];
      FramesAreHeard(desk, before, nowMs);
      OneMoreAnswered(desk, before, last, nowMs);
      OneMoreHeard(desk.mcu, before, last, nowMs);
    }
  }

  lemma OneMoreAnswered(desk: Desk, before: seq<seq<byte>>, last: seq<byte>, nowMs: u32)
    requires Complete(before) && Complete(before + [last])
    ensures AnsweredAll(desk, before + [last], nowMs).mcu
         == AfterMessage(AnsweredAll(desk, before, nowMs).mcu, MeaningOf(last), nowMs).0
  {
    assert (before + [last])[..|before|] == before && (before + [last])[|before|] == last;
  }

  lemma OneMoreHeard(m: Mcu, before: seq<seq<byte>>, last: seq<byte>, nowMs: u32)
    ensures Heard(m, MeaningsOf(before + [last]), nowMs)
         == AfterMessage(Heard(m, MeaningsOf(before), nowMs), MeaningOf(last), nowMs).0
  {
    assert MeaningsOf(before + [last])[..|before|] == MeaningsOf(before);
  }

  lemma {:induction false} HeardIsRun(m: Mcu, meanings: seq<Meaning>, time: nat)
    ensures Heard(m, meanings, time % WORD) == State(m, FrameEvents(meanings, time), |meanings|)
    decreases |meanings|
  {
    if meanings != [] {
      var before, last := meanings[..|meanings| - 1], meanings[|meanings| - 1];
      HeardIsRun(m, before, time);
      assert FrameEvents(meanings, time) == FrameEvents(before, time) + [FrameIn(last, time)];
      StateOfPrefix(m, FrameEvents(before, time), [FrameIn(last, time)], |before|);
    }
  }

  lemma TickIsEvent(m: Mcu, events: seq<Event>, time: nat)
    ensures State(m, events + [TickAt(time)], |events| + 1) == AfterTick(State(m, events, |events|), time % WORD)
  {
    StateOfPrefix(m, events, [TickAt(time)], |events|);
    assert (events + [TickAt(time)])[|events|] == TickAt(time);
  }

  lemma PassIsRun(desk: Desk, frames: seq<seq<byte>>, time: nat)
    requires Complete(frames)
    ensures var run := PassEvents(MeaningsOf(frames), time);
      Passed(desk, frames, time % WORD).mcu == State(desk.mcu, run, |run|)
  {
    FramesAreHeard(desk, frames, time % WORD);
    HeardIsRun(desk.mcu, MeaningsOf(frames), time);
    TickIsEvent(desk.mcu, FrameEvents(MeaningsOf(frames), time), time);
  }

  lemma JoinRuns(m: Mcu, n: Mcu, a: seq<Event>, b: seq<Event>)
    requires n == State(m, a, |a|)
    ensures State(m, a + b, |a + b|) == State(n, b, |b|)
  {
    StateOfConcat(m, a, b, |b|);
  }

  lemma FirstEvents(b: Board, p: Pass) returns (run: seq<Event>)
    requires Sound(b.receiver)
    ensures run == PassEvents(MeaningsOf(AcceptAll(b.receiver, p.incoming).1), p.time)
    ensures AfterPass(b, p).desk.mcu == State(b.desk.mcu, run, |run|)
    ensures AfterPass(b, p).receiver == AcceptAll(b.receiver, p.incoming).0
  {
    AcceptedAreComplete(b.receiver, p.incoming);
    var frames := AcceptAll(b.receiver, p.incoming).1;
    PassIsRun(b.desk, frames, p.time);
    run := PassEvents(MeaningsOf(frames), p.time);
  }

  lemma FirstPass(b: Board, passes: seq<Pass>, first: seq<Event>)
    requires Sound(b.receiver) && passes != []
    requires first == PassEvents(MeaningsOf(AcceptAll(b.receiver, passes[0].incoming).1), passes[0].time)
    ensures EventsOf(b.receiver, passes) == first + EventsOf(AcceptAll(b.receiver, passes[0].incoming).0, passes[1..])
    ensures AfterPasses(b, passes) == AfterPasses(AfterPass(b, passes[0]), passes[1..])
  {
  }

  /** The controller's state is that of its run: every property of runs is one of byte streams. */
  lemma {:induction false} PassesAreRun(b: Board, passes: seq<Pass>)
    requires Sound(b.receiver)
    ensures var run := EventsOf(b.receiver, passes);
      AfterPasses(b, passes).desk.mcu == State(b.desk.mcu, run, |run|)
    decreases |passes|
  {
    if passes != [] {
      var c := AfterPass(b, passes[0]);
      PassesAreRun(c, passes[1..]);
      var first := FirstEvents(b, passes[0]);
      FirstPass(b, passes, first);
      JoinRuns(b.desk.mcu, c.desk.mcu, first, EventsOf(c.receiver, passes[1..]));
    }
  }

  // ---- Which frames it is made of

  function Incoming(p: Pass): seq<byte> {
    p.incoming
  }

  function BytesOf(passes: seq<Pass>): seq<byte> {
    FlatMap(Incoming, passes)
  }

  function MeaningIn(e: Event): seq<Meaning> {
    if e.FrameIn? then [e.meaning] else []
  }

  /** What the frames of a run asked for, in order. */
  function Meanings(run: seq<Event>): seq<Meaning> {
    FlatMap(MeaningIn, run)
  }

  lemma {:induction false} FrameMeanings(meanings: seq<Meaning>, time: nat)
    ensures Meanings(FrameEvents(meanings, time)) == meanings
    decreases |meanings|
  {
    if meanings != [] {
      FrameMeanings(meanings[1..], time);
      assert FrameEvents(meanings, time)[1..] == FrameEvents(meanings[1..], time);
    }
  }

  lemma PassMeanings(meanings: seq<Meaning>, time: nat)
    ensures Meanings(PassEvents(meanings, time)) == meanings
  {
    FrameMeanings(meanings, time);
    FlatMapConcat(MeaningIn, FrameEvents(meanings, time), [TickAt(time)]);
    FlatMapOne(MeaningIn, TickAt(time));
  }

  lemma MeaningsJoin(frames: seq<seq<byte>>, later: seq<seq<byte>>)
    ensures MeaningsOf(frames + later) == MeaningsOf(frames) + MeaningsOf(later)
  {
  }

  /** How the bytes are spread over passes is of no consequence to what is handled. */
  lemma {:induction false} PassesDoNotMatter(r: Receiver, passes: seq<Pass>)
    ensures Meanings(EventsOf(r, passes)) == MeaningsOf(AcceptAll(r, BytesOf(passes)).1)
    decreases |passes|
  {
    if passes != [] {
      var p := passes[0];
      var (next, frames) := AcceptAll(r, p.incoming);
      PassesDoNotMatter(next, passes[1..]);
      PassMeanings(MeaningsOf(frames), p.time);
      FlatMapConcat(MeaningIn, PassEvents(MeaningsOf(frames), p.time), EventsOf(next, passes[1..]));
      AcceptConcat(r, p.incoming, BytesOf(passes[1..]));
      MeaningsJoin(frames, AcceptAll(next, BytesOf(passes[1..])).1);
    }
  }

  // ---- A host that counts its frames

  /** What a transmitted frame is understood as. */
  lemma EncodedMeans(f: Frame)
    ensures var x := MeaningOf(Encode(f));
      && x.Message? && x.sequence == f.sequence
      && (f.messageType.Estop? ==> x.request.Stop?) && (f.messageType.Heartbeat? ==> x.request.Beat?)
  {
    DecodeInvertsEncode(f, Encode(f));
    ParseFrameAgreesWithDecode(Encode(f));
  }

  /** Events up to i make up the first meanings; the next one, if i is a frame, is its own. */
  lemma MeaningAt(run: seq<Event>, i: nat)
    requires i < |run|
    ensures Meanings(run[..i + 1]) == Meanings(run[..i]) + MeaningIn(run[i])
    ensures run[i].FrameIn? ==> |Meanings(run[..i])| < |Meanings(run)|
    ensures run[i].FrameIn? ==> Meanings(run)[|Meanings(run[..i])|] == run[i].meaning
  {
    FlatMapConcat(MeaningIn, run[..i], [run[i]]);
    FlatMapOne(MeaningIn, run[i]);
    assert run[..i + 1] == run[..i] + [run[i]];
    FlatMapConcat(MeaningIn, run[..i + 1], run[i + 1..]);
    assert run == run[..i + 1] + run[i + 1..];
  }

  /** How many frames came before each event. */
  function Ranks(run: seq<Event>): seq<nat> {
    seq(|run|, i requires 0 <= i < |run| => |Meanings(run[..i])|)
  }

  predicate Counted(initial: u16, meanings: seq<Meaning>) {
    forall j :: 0 <= j < |meanings| ==> meanings[j].Message? && meanings[j].sequence == (initial + j) % 0x1_0000
  }

  lemma {:induction false} LastIsOneBefore(initial: u16, run: seq<Event>, i: nat)
    requires i <= |run| && Counted(initial, Meanings(run))
    ensures var n := |Meanings(run[..i])|; LastIndex(run, Ranks(run), i) == if n == 0 then None else Some(n - 1)
    decreases i
  {
    if i > 0 {
      LastIsOneBefore(initial, run, i - 1);
      MeaningAt(run, i - 1);
    } else {
      assert run[..0] == [];
    }
  }

  lemma CountedIsInOrder(initial: u16, run: seq<Event>)
    requires Counted(initial, Meanings(run))
    ensures InOrder(initial, run, Ranks(run), |run|)
  {
    forall i | 0 <= i < |run|
      ensures Numbered(initial, run, Ranks(run), i) && Follows(run, Ranks(run), i)
    {
      MeaningAt(run, i);
      LastIsOneBefore(initial, run, i);
    }
  }

  /** The host's i-th frame has sequence number initial + i. */
  predicate HostCounts(initial: u16, frames: seq<Frame>) {
    forall j :: 0 <= j < |frames| ==> frames[j].sequence == (initial + j) % 0x1_0000
  }

  /** The frames of the run are the host's, in order, one by one. */
  lemma EveryFrameArrives(items: seq<Item>, passes: seq<Pass>)
    requires AllHarmless(items) && BytesOf(passes) == Wire(items)
    ensures var heard := Meanings(EventsOf(IDLE, passes));
      && |heard| == |Sent(items)|
      && forall j :: 0 <= j < |heard| ==> heard[j] == MeaningOf(Encode(Sent(items)[j]))
  {
    PassesDoNotMatter(IDLE, passes);
    FirmwareHandles(items);
    EncodingsOfSent(items);
  }

  /**
   From power-on, with frames numbered one after the other, however many, separated by harmless noise and cut into
   main-loop passes anywhere: none is dropped as a replay. Every stop request latches the stop and every heartbeat
   is taken, at the clock of the pass in which its last byte arrived.
   */
  lemma EveryStopIsHeard(timeoutMs: u32, initial: u16, items: seq<Item>, passes: seq<Pass>, i: nat)
    requires AllHarmless(items) && BytesOf(passes) == Wire(items) && HostCounts(initial, Sent(items))
    requires i < |EventsOf(IDLE, passes)| && EventsOf(IDLE, passes)[i].FrameIn?
    ensures var m, run := PowerOn(timeoutMs), EventsOf(IDLE, passes);
      var j := |Meanings(run[..i])|;
      && j < |Sent(items)| && Advances(State(m, run, i), run[i])
      && (Sent(items)[j].messageType.Estop? ==> At(m, run, i) == Dispatched(EstopLatched))
      && (Sent(items)[j].messageType.Heartbeat? ==> At(m, run, i) == Dispatched(HeartbeatAccepted))
  {
    var run := EventsOf(IDLE, passes);
    EveryFrameArrives(items, passes);
    forall j | 0 <= j < |Sent(items)|
      ensures Meanings(run)[j].Message? && Meanings(run)[j].sequence == (initial + j) % 0x1_0000
    {
      EncodedMeans(Sent(items)[j]);
    }
    CountedIsInOrder(initial, run);
    MeaningAt(run, i);
    EncodedMeans(Sent(items)[|Meanings(run[..i])|]);
    InOrderFramesAreFresh(timeoutMs, initial, run, Ranks(run), i);
  }

  lemma {:induction false} EventOfFrame(run: seq<Event>, j: nat, k: nat) returns (i: nat)
    requires k <= |run| && j < |Meanings(run[..k])|
    ensures i < k && run[i].FrameIn? && |Meanings(run[..i])| == j
    decreases k
  {
    MeaningAt(run, k - 1);
    if j < |Meanings(run[..k - 1])| {
      i := EventOfFrame(run, j, k - 1);
    } else {
      i := k - 1;
    }
  }

  /** The main loop never resets the controller. */
  lemma {:induction false} LoopNeverResets(r: Receiver, passes: seq<Pass>)
    ensures forall e :: e in EventsOf(r, passes) ==> !e.ResetAt?
    decreases |passes|
  {
    if passes != [] {
      LoopNeverResets(AcceptAll(r, passes[0].incoming).0, passes[1..]);
    }
  }

  lemma LoopNeverResetsAt(m: Mcu, r: Receiver, passes: seq<Pass>, i: nat)
    requires i < |EventsOf(r, passes)|
    ensures At(m, EventsOf(r, passes), i) != ResetTried(true)
  {
    LoopNeverResets(r, passes);
    assert EventsOf(r, passes)[i] in EventsOf(r, passes);
  }

  /** So once a stop request is among the frames sent, the controller ends up stopped, and stays so. */
  lemma SentStopStops(timeoutMs: u32, initial: u16, items: seq<Item>, passes: seq<Pass>, j: nat, desk: Desk)
    requires AllHarmless(items) && BytesOf(passes) == Wire(items) && HostCounts(initial, Sent(items))
    requires j < |Sent(items)| && Sent(items)[j].messageType.Estop? && desk.mcu == PowerOn(timeoutMs)
    ensures AfterPasses(Board(IDLE, desk), passes).desk.mcu.state.EstopState?
  {
    var m, run := desk.mcu, EventsOf(IDLE, passes);
    EveryFrameArrives(items, passes);
    assert run[..|run|] == run;
    var i := EventOfFrame(run, j, |run|);
    EveryStopIsHeard(timeoutMs, initial, items, passes, i);
    forall r | i < r < |run|
      ensures At(m, run, r) != ResetTried(true)
    {
      LoopNeverResetsAt(m, IDLE, passes, r);
    }
    StaysStopped(m, run, i, |run|);
    PassesAreRun(Board(IDLE, desk), passes);
  }
}
