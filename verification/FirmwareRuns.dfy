/**
 Whole runs of the robot controller: what every sequence of frames, ticks, resets and emergency-stop
 inputs guarantees. Time is counted without bound here; the controller sees it modulo 2^32.
 */
module FirmwareRuns {
  import opened Bytes
  import opened Framing
  import opened Messages
  import opened FirmwareRuntime

  datatype Event =
    | FrameIn(meaning: Meaning, time: nat)
    | TickAt(time: nat)
    | ResetAt(time: nat)
    | Physical(active: bool)

  datatype Outcome = Dispatched(result: DispatchResult) | Ticked | ResetTried(ready: bool) | Observed(active: bool)

  function Step(m: Mcu, e: Event): (Mcu, Outcome) {
    match e
    case FrameIn(meaning, t) => var (n, r) := AfterMessage(m, meaning, t % WORD); (n, Dispatched(r))
    case TickAt(t) => (AfterTick(m, t % WORD), Ticked)
    case ResetAt(t) => var (n, ok) := AfterReset(m, t % WORD); (n, ResetTried(ok))
    case Physical(active) => (AfterObserve(m, active), Observed(active))
  }

  /** The controller's state after the first i events. */
  function State(m: Mcu, run: seq<Event>, i: nat): Mcu
    requires i <= |run|
  {
    if i == 0 then m else Step(State(m, run, i - 1), run[i - 1]).0
  }

  /** The outcome of event i. */
  function At(m: Mcu, run: seq<Event>, i: nat): Outcome
    requires i < |run|
  {
    Step(State(m, run, i), run[i]).1
  }

  // ---- Emergency stop

  predicate Consistent(m: Mcu) {
    && (m.physicalEstop ==> m.state.EstopState?)
    && (m.state.ReadyState? ==> m.heartbeatSeen && !m.physicalEstop)
  }

  lemma {:induction false} EveryStateIsConsistent(timeoutMs: u32, run: seq<Event>, i: nat)
    requires i <= |run|
    ensures Consistent(State(PowerOn(timeoutMs), run, i))
    decreases i
  {
    if i > 0 {
      EveryStateIsConsistent(timeoutMs, run, i - 1);
    }
  }

  predicate Latches(o: Outcome) {
    o == Dispatched(EstopLatched) || o == Observed(true)
  }

  lemma StoppedStep(m: Mcu, e: Event)
    requires m.state.EstopState? && Step(m, e).1 != ResetTried(true)
    ensures Step(m, e).0.state.EstopState? && Step(m, e).1 != Dispatched(MotionDeferred)
  {
  }

  lemma LatchingStep(m: Mcu, e: Event)
    requires Latches(Step(m, e).1)
    ensures Step(m, e).0.state.EstopState?
  {
  }

  lemma {:induction false} StaysStopped(m: Mcu, run: seq<Event>, i: nat, k: nat)
    requires i < k <= |run| && Latches(At(m, run, i))
    requires forall r :: i < r < k ==> At(m, run, r) != ResetTried(true)
    ensures State(m, run, k).state.EstopState?
    decreases k
  {
    if k - 1 > i {
      StaysStopped(m, run, i, k - 1);
      assert At(m, run, k - 1) != ResetTried(true);
      StoppedStep(State(m, run, k - 1), run[k - 1]);
    } else {
      LatchingStep(State(m, run, i), run[i]);
    }
  }

  /** No motion is taken on after an emergency stop unless a manual reset succeeded in between. */
  lemma MotionAfterStopNeedsReset(m: Mcu, run: seq<Event>, stop: nat, motion: nat)
    requires stop < motion < |run|
    requires Latches(At(m, run, stop)) && At(m, run, motion) == Dispatched(MotionDeferred)
    ensures exists r :: stop < r < motion && At(m, run, r) == ResetTried(true)
  {
    if forall r :: stop < r < motion ==> At(m, run, r) != ResetTried(true) {
      StaysStopped(m, run, stop, motion);
      StoppedStep(State(m, run, motion), run[motion]);
    }
  }

  /** A frame with a corrupted byte does nothing at all, whatever the state. */
  lemma CorruptedFrameIsInert(m: Mcu, f: Frame, data: seq<byte>, at: nat, time: nat)
    requires |data| == |Encode(f)| && at < |data|
    requires data == Encode(f)[at := data[at]] && data != Encode(f)
    ensures Step(m, FrameIn(MeaningOf(data), time)) == (m, Dispatched(RejectedInvalidFrame))
  {
    SingleByteCorruptionRejected(f, data, at);
    ParseFrameAgreesWithDecode(data);
  }

  // ---- Replay

  /** Serial number comparison of section 3.2 of RFC 1982 with SERIAL_BITS 16, undefined pairs excluded. */
  lemma FreshIsSerialGreater(c: u16, p: u16)
    ensures SequenceIsFresh(c, p) <==> (p < c && c - p < 0x8000) || (p > c && p - c > 0x8000)
  {
  }

  /** Seen from stream position `current`, exactly the last 0x8000 positions count as replays. */
  lemma ReplayWindow(first: u16, current: nat, position: nat)
    requires position <= current
    ensures !SequenceIsFresh((first + position) % 0x1_0000, (first + current) % 0x1_0000)
       <==> (current - position) % 0x1_0000 <= 0x8000
  {
    WrappedDifference(first + position, first + current);
    OppositeDifferences(first + position, first + current);
  }

  /** The two differences of a pair add up to 2^16, or are both zero. */
  lemma OppositeDifferences(a: nat, b: nat)
    ensures var x, y := (a - b) % 0x1_0000, (b - a) % 0x1_0000; (x == 0 && y == 0) || x + y == 0x1_0000
  {
  }

  lemma WrappedDifference(a: nat, b: nat)
    ensures (a % 0x1_0000 - b % 0x1_0000) % 0x1_0000 == (a - b) % 0x1_0000
  {
  }

  /** Does event e pass the sequence check? */
  predicate Advances(m: Mcu, e: Event) {
    && e.FrameIn? && e.meaning.Message?
    && (m.sequenceSeen ==> SequenceIsFresh(e.meaning.sequence, m.lastSequence))
  }

  /** How far event e moves the stream on. */
  function Increment(m: Mcu, e: Event): nat {
    if m.sequenceSeen && Advances(m, e) then (e.meaning.sequence - m.lastSequence) % 0x1_0000 else 0
  }

  /** Unbounded position in the sender's stream: the sum of all accepted increments. */
  function Position(m: Mcu, run: seq<Event>, i: nat): nat
    requires i <= |run|
  {
    if i == 0 then 0 else Position(m, run, i - 1) + Increment(State(m, run, i - 1), run[i - 1])
  }

  /** The first accepted frame sets the origin. */
  function NextOrigin(m: Mcu, e: Event, origin: u16): u16 {
    if !m.sequenceSeen && Advances(m, e) then e.meaning.sequence else origin
  }

  /** The sequence number at position 0: that of the first accepted frame. */
  function Origin(m: Mcu, run: seq<Event>, i: nat): u16
    requires i <= |run|
  {
    if i == 0 then m.lastSequence else NextOrigin(State(m, run, i - 1), run[i - 1], Origin(m, run, i - 1))
  }

  /** The sequence check after event e. */
  predicate SequenceChecked(m: Mcu, e: Event, n: Mcu) {
    && n.sequenceSeen == (m.sequenceSeen || Advances(m, e))
    && n.lastSequence == if Advances(m, e) then e.meaning.sequence else m.lastSequence
  }

  lemma SequenceStep(m: Mcu, e: Event)
    ensures SequenceChecked(m, e, Step(m, e).0)
  {
  }

  /** The last sequence number is that of this position in the stream, which is 0 before the first frame. */
  predicate OnTrack(m: Mcu, origin: u16, position: nat) {
    m.lastSequence == (origin + position) % 0x1_0000 && (!m.sequenceSeen ==> position == 0)
  }

  lemma {:induction false} PositionTracksSequence(m: Mcu, run: seq<Event>, i: nat)
    requires i <= |run|
    ensures OnTrack(State(m, run, i), Origin(m, run, i), Position(m, run, i))
    decreases i
  {
    if i > 0 {
      PositionTracksSequence(m, run, i - 1);
      TrackNext(m, run, i - 1);
    }
  }

  lemma TrackNext(m: Mcu, run: seq<Event>, i: nat)
    requires i < |run| && OnTrack(State(m, run, i), Origin(m, run, i), Position(m, run, i))
    ensures OnTrack(State(m, run, i + 1), Origin(m, run, i + 1), Position(m, run, i + 1))
  {
    StreamStep(m, run, i);
    TrackOne(State(m, run, i), run[i], State(m, run, i + 1), Origin(m, run, i), Position(m, run, i));
  }

  /** What event i does to the last sequence number, the origin and the position. */
  lemma StreamStep(m: Mcu, run: seq<Event>, i: nat)
    requires i < |run|
    ensures SequenceChecked(State(m, run, i), run[i], State(m, run, i + 1))
    ensures Origin(m, run, i + 1) == NextOrigin(State(m, run, i), run[i], Origin(m, run, i))
    ensures Position(m, run, i + 1) == Position(m, run, i) + Increment(State(m, run, i), run[i])
  {
    SequenceStep(State(m, run, i), run[i]);
  }

  lemma TrackOne(s: Mcu, e: Event, t: Mcu, origin: u16, position: nat)
    requires SequenceChecked(s, e, t)
    requires OnTrack(s, origin, position)
    ensures OnTrack(t, NextOrigin(s, e, origin), position + Increment(s, e))
  {
    if s.sequenceSeen && Advances(s, e) {
      AddIncrement(origin + position, s.lastSequence, e.meaning.sequence);
    }
  }

  /** Adding the wrapped difference to a position makes its number the next one. */
  lemma AddIncrement(position: nat, last: u16, next: u16)
    requires last == position % 0x1_0000
    ensures next == (position + (next - last) % 0x1_0000) % 0x1_0000
  {
  }

  lemma {:induction false} OriginIsSettled(m: Mcu, run: seq<Event>, i: nat, k: nat)
    requires i <= k <= |run| && State(m, run, i).sequenceSeen
    ensures State(m, run, k).sequenceSeen && Origin(m, run, k) == Origin(m, run, i)
    ensures Position(m, run, k) >= Position(m, run, i)
    decreases k
  {
    if k > i {
      OriginIsSettled(m, run, i, k - 1);
      SequenceStep(State(m, run, k - 1), run[k - 1]);
    }
  }

  /**
   A frame accepted once is refused, and changes nothing, whenever it comes again before the stream
   has moved on by more than 0x8000, however often the sequence numbers have wrapped in between.
   */
  lemma ReplayIsInert(m: Mcu, run: seq<Event>, i: nat, k: nat, time: nat)
    requires i < k <= |run| && Advances(State(m, run, i), run[i])
    requires Position(m, run, k) - Position(m, run, i + 1) <= 0x8000
    ensures var now := State(m, run, k);
      Step(now, FrameIn(run[i].meaning, time)) == (now, Dispatched(RejectedReplay))
  {
    AcceptedNumberIsOld(m, run, i, k);
    StaleIsRefused(State(m, run, k), run[i].meaning, time);
  }

  /** Its number is in the window of replays as long as the stream has not moved past it. */
  lemma AcceptedNumberIsOld(m: Mcu, run: seq<Event>, i: nat, k: nat)
    requires i < k <= |run| && Advances(State(m, run, i), run[i])
    requires Position(m, run, k) - Position(m, run, i + 1) <= 0x8000
    ensures State(m, run, k).sequenceSeen
    ensures !SequenceIsFresh(run[i].meaning.sequence, State(m, run, k).lastSequence)
  {
    StreamStep(m, run, i);
    PositionTracksSequence(m, run, i + 1);
    OriginIsSettled(m, run, i + 1, k);
    PositionTracksSequence(m, run, k);
    StillOld(State(m, run, i + 1), State(m, run, k), Origin(m, run, k), Position(m, run, i + 1), Position(m, run, k));
  }

  lemma StillOld(s: Mcu, t: Mcu, origin: u16, position: nat, current: nat)
    requires OnTrack(s, origin, position) && OnTrack(t, origin, current) && 0 <= current - position <= 0x8000
    ensures !SequenceIsFresh(s.lastSequence, t.lastSequence)
  {
    ReplayWindow(origin, current, position);
  }

  lemma StaleIsRefused(m: Mcu, meaning: Meaning, time: nat)
    requires meaning.Message? && m.sequenceSeen && !SequenceIsFresh(meaning.sequence, m.lastSequence)
    ensures Step(m, FrameIn(meaning, time)) == (m, Dispatched(RejectedReplay))
  {
  }

  // ---- A sender that counts its frames

  predicate IsMessage(e: Event) {
    e.FrameIn? && e.meaning.Message?
  }

  /** The sender's index of the last message among the first i events. */
  function LastIndex(run: seq<Event>, index: seq<nat>, i: nat): Option<nat>
    requires i <= |run| == |index|
  {
    if i == 0 then None
    else if IsMessage(run[i - 1]) then Some(index[i - 1])
    else LastIndex(run, index, i - 1)
  }

  /** The message at event i is the sender's frame number index[i], frame 0 having sequence number `initial`. */
  predicate Numbered(initial: u16, run: seq<Event>, index: seq<nat>, i: nat)
    requires i < |run| == |index|
  {
    IsMessage(run[i]) ==> run[i].meaning.sequence == (initial + index[i]) % 0x1_0000
  }

  /** Modulo 2^16, index comes 1 to 0x7FFF places after the last one. */
  predicate Near(last: Option<nat>, index: nat) {
    last.Some? ==> 0 < (index - last.value) % 0x1_0000 <= 0x7FFF
  }

  /** It comes after the last message received, and the messages lost in between are fewer than 32767. */
  predicate Follows(run: seq<Event>, index: seq<nat>, i: nat)
    requires i < |run| == |index|
  {
    var last := LastIndex(run, index, i);
    IsMessage(run[i]) && last.Some? ==> 0 < index[i] - last.value <= 0x7FFF
  }

  /** A counting sender's stream with losses, up to event k. */
  predicate InOrder(initial: u16, run: seq<Event>, index: seq<nat>, k: nat)
    requires k <= |run| == |index|
  {
    forall i :: 0 <= i < k ==> Numbered(initial, run, index, i) && Follows(run, index, i)
  }

  /** m remembers the sequence number of the sender's frame `last`, if there was one. */
  predicate Remembers(m: Mcu, initial: u16, last: Option<nat>) {
    && m.sequenceSeen == last.Some?
    && (last.Some? ==> m.lastSequence == (initial + last.value) % 0x1_0000)
  }

  lemma {:induction false} RemembersLastIndex(timeoutMs: u32, initial: u16, run: seq<Event>, index: seq<nat>, k: nat)
    requires k <= |run| == |index| && InOrder(initial, run, index, k)
    ensures Remembers(State(PowerOn(timeoutMs), run, k), initial, LastIndex(run, index, k))
    decreases k
  {
    if k > 0 {
      RemembersLastIndex(timeoutMs, initial, run, index, k - 1);
      assert Numbered(initial, run, index, k - 1) && Follows(run, index, k - 1);
      var m := State(PowerOn(timeoutMs), run, k - 1);
      FreshExactly(m, initial, run, index, k - 1);
      SequenceStep(m, run[k - 1]);
    }
  }

  lemma FreshExactly(m: Mcu, initial: u16, run: seq<Event>, index: seq<nat>, i: nat)
    requires i < |run| == |index| && Numbered(initial, run, index, i)
    requires Remembers(m, initial, LastIndex(run, index, i))
    ensures IsMessage(run[i]) ==> (Advances(m, run[i]) <==> Near(LastIndex(run, index, i), index[i]))
  {
    var last := LastIndex(run, index, i);
    if IsMessage(run[i]) && last.Some? {
      WrappedDifference(initial + index[i], initial + last.value);
    }
  }

  /**
   While a counting sender's messages arrive in order and fewer than 32767 in a row are lost, the next one, however
   far away, passes the sequence check if and only if its distance from the last is 1 to 0x7FFF modulo 2^16.
   */
  lemma NextIsFreshExactly(timeoutMs: u32, initial: u16, run: seq<Event>, index: seq<nat>, i: nat)
    requires i < |run| == |index| && InOrder(initial, run, index, i)
    requires IsMessage(run[i]) && Numbered(initial, run, index, i)
    ensures Advances(State(PowerOn(timeoutMs), run, i), run[i]) <==> Near(LastIndex(run, index, i), index[i])
  {
    RemembersLastIndex(timeoutMs, initial, run, index, i);
    FreshExactly(State(PowerOn(timeoutMs), run, i), initial, run, index, i);
  }

  /**
   In particular no message of such a stream is ever dropped as a replay: every heartbeat and every stop takes
   effect, whatever else happens in between and however often the numbers wrap.
   */
  lemma InOrderFramesAreFresh(timeoutMs: u32, initial: u16, run: seq<Event>, index: seq<nat>, i: nat)
    requires i < |run| == |index| && InOrder(initial, run, index, |run|) && IsMessage(run[i])
    ensures Advances(State(PowerOn(timeoutMs), run, i), run[i])
    ensures run[i].meaning.request.Stop? ==> At(PowerOn(timeoutMs), run, i) == Dispatched(EstopLatched)
    ensures run[i].meaning.request.Beat? ==> At(PowerOn(timeoutMs), run, i) == Dispatched(HeartbeatAccepted)
  {
    assert Numbered(initial, run, index, i) && Follows(run, index, i);
    NextIsFreshExactly(timeoutMs, initial, run, index, i);
  }

  predicate Commands(e: Event, id: CommandId) {
    e.FrameIn? && e.meaning.Message? && e.meaning.request == Motion(id)
  }

  lemma CommandStep(m: Mcu, e: Event)
    ensures var (n, o) := Step(m, e);
      if o == Dispatched(MotionDeferred)
      then n.lastCommand.Some? && Commands(e, n.lastCommand.value) && m.lastCommand != n.lastCommand
      else n.lastCommand == m.lastCommand
  {
  }

  lemma {:induction false} LastCommandKept(m: Mcu, run: seq<Event>, i: nat, k: nat)
    requires i < k <= |run|
    requires forall r :: i < r < k ==> At(m, run, r) != Dispatched(MotionDeferred)
    ensures State(m, run, k).lastCommand == State(m, run, i + 1).lastCommand
    decreases k
  {
    if k - 1 > i {
      LastCommandKept(m, run, i, k - 1);
      assert At(m, run, k - 1) != Dispatched(MotionDeferred);
      CommandStep(State(m, run, k - 1), run[k - 1]);
    }
  }

  /** No command is taken on twice in a row, whatever its frame's sequence number. */
  lemma ConsecutiveMotionsDiffer(m: Mcu, run: seq<Event>, i: nat, j: nat, id: CommandId, id': CommandId)
    requires i < j < |run| && Commands(run[i], id) && Commands(run[j], id')
    requires At(m, run, i) == At(m, run, j) == Dispatched(MotionDeferred)
    requires forall r :: i < r < j ==> At(m, run, r) != Dispatched(MotionDeferred)
    ensures id != id'
  {
    LastCommandKept(m, run, i, j);
    CommandStep(State(m, run, i), run[i]);
    CommandStep(State(m, run, j), run[j]);
  }

  // ---- Watchdog

  /** Does handling e compute the heartbeat's age? */
  predicate Looks(m: Mcu, e: Event) {
    e.TickAt? || e.ResetAt? || (Advances(m, e) && e.meaning.request.Motion?)
  }

  predicate Beats(m: Mcu, e: Event) {
    Advances(m, e) && e.meaning.request.Beat?
  }

  /** True times of the last accepted heartbeat and of the last look at its age. */
  datatype Watch = Watch(beat: nat, look: nat)

  function WatchStep(w: Watch, m: Mcu, e: Event): Watch {
    if Beats(m, e) then Watch(e.time, e.time)
    else if Looks(m, e) then w.(look := e.time)
    else w
  }

  function Watched(m: Mcu, run: seq<Event>, i: nat): Watch
    requires i <= |run|
  {
    if i == 0 then Watch(0, 0) else WatchStep(Watched(m, run, i - 1), State(m, run, i - 1), run[i - 1])
  }

  predicate Ordered(e: Event, f: Event) {
    !e.Physical? && !f.Physical? ==> e.time <= f.time
  }

  predicate TimesInOrder(run: seq<Event>) {
    forall i, j :: 0 <= i < j < |run| ==> Ordered(run[i], run[j])
  }

  // Whether motion follows a heartbeat

  /** The controller's copy of the last heartbeat's time, and what depends on it. */
  predicate Stamped(w: Watch, m: Mcu, timeoutMs: u32) {
    && m.timeoutMs == timeoutMs
    && (m.heartbeatSeen ==> m.lastHeartbeatMs == w.beat % WORD)
    && (m.state.ReadyState? ==> m.heartbeatSeen)
  }

  lemma StampStep(w: Watch, m: Mcu, e: Event, timeoutMs: u32)
    requires Stamped(w, m, timeoutMs)
    ensures Stamped(WatchStep(w, m, e), Step(m, e).0, timeoutMs)
  {
  }

  lemma {:induction false} HeartbeatIsStamped(timeoutMs: u32, run: seq<Event>, i: nat)
    requires i <= |run|
    ensures var m := PowerOn(timeoutMs); Stamped(Watched(m, run, i), State(m, run, i), timeoutMs)
    decreases i
  {
    if i > 0 {
      var m := PowerOn(timeoutMs);
      HeartbeatIsStamped(timeoutMs, run, i - 1);
      StampStep(Watched(m, run, i - 1), State(m, run, i - 1), run[i - 1], timeoutMs);
    }
  }

  /** A 32-bit age is the true age modulo 2^32. */
  lemma AgeWraps(beat: nat, time: nat)
    ensures Age(time % WORD, beat % WORD) == (time - beat) % WORD
  {
  }

  /** What a controller that takes on motion knows of the heartbeat. */
  lemma DeferralStep(w: Watch, m: Mcu, e: Event, timeoutMs: u32)
    requires Stamped(w, m, timeoutMs) && Step(m, e).1 == Dispatched(MotionDeferred)
    ensures e.FrameIn? && m.heartbeatSeen && (e.time - w.beat) % WORD <= timeoutMs
  {
    AgeWraps(w.beat, e.time);
  }

  /** The controller's view of the heartbeat is the true one, and readiness means it is recent. */
  predicate Tracks(w: Watch, m: Mcu) {
    && w.beat <= w.look
    && (m.heartbeatSeen ==> m.lastHeartbeatMs == w.beat % WORD)
    && (m.state.ReadyState? ==> m.heartbeatSeen && w.look - w.beat <= m.timeoutMs)
  }

  /**
   Time does not run backwards, a ready controller's watchdog is looked at more often than its counter could
   hide a missed timeout, and no manual reset comes 2^32 ms or more after the last heartbeat, if there was one.
   */
  predicate Punctual(w: Watch, m: Mcu, e: Event) {
    !e.Physical? ==>
      && w.beat <= w.look <= e.time
      && (Looks(m, e) && m.state.ReadyState? ==> e.time - w.look < WORD - m.timeoutMs)
      && (e.ResetAt? && m.heartbeatSeen ==> e.time - w.beat < WORD)
  }

  /** The watchdog looks in time: what it sees is the true age. */
  lemma TickTracks(w: Watch, m: Mcu, time: nat)
    requires Tracks(w, m) && w.look <= time && (m.state.ReadyState? ==> time - w.look < WORD - m.timeoutMs)
    ensures Tracks(w.(look := time), AfterTick(m, time % WORD))
  {
    AgeWraps(w.beat, time);
  }

  lemma ResetTracks(w: Watch, m: Mcu, time: nat)
    requires Tracks(w, m) && w.look <= time && (m.heartbeatSeen ==> time - w.beat < WORD)
    ensures Tracks(w.(look := time), AfterReset(m, time % WORD).0)
  {
    AgeWraps(w.beat, time);
  }

  lemma TrackStep(w: Watch, m: Mcu, e: Event)
    requires Tracks(w, m) && Punctual(w, m, e)
    ensures Tracks(WatchStep(w, m, e), Step(m, e).0) && Step(m, e).0.timeoutMs == m.timeoutMs
    ensures Step(m, e).1 == Dispatched(MotionDeferred) ==>
      m.heartbeatSeen && Commands(e, Step(m, e).0.lastCommand.value) && e.time - w.beat <= m.timeoutMs
  {
    match e
    case FrameIn(_, time) =>
      if Looks(m, e) {
        var s := m.(sequenceSeen := true, lastSequence := e.meaning.sequence);
        TickTracks(w, s, time);
      }
    case TickAt(time) => TickTracks(w, m, time);
    case ResetAt(time) => ResetTracks(w, m, time);
    case Physical(_) =>
  }

  predicate PunctualAt(m: Mcu, run: seq<Event>, n: nat)
    requires n < |run|
  {
    Punctual(Watched(m, run, n), State(m, run, n), run[n])
  }

  predicate PunctualRun(m: Mcu, run: seq<Event>) {
    forall n :: 0 <= n < |run| ==> PunctualAt(m, run, n)
  }

  lemma {:induction false} WatchdogTracks(m: Mcu, run: seq<Event>, i: nat)
    requires i <= |run| && PunctualRun(m, run) && !m.heartbeatSeen && !m.state.ReadyState?
    ensures Tracks(Watched(m, run, i), State(m, run, i)) && State(m, run, i).timeoutMs == m.timeoutMs
    decreases i
  {
    if i > 0 {
      WatchdogTracks(m, run, i - 1);
      assert PunctualAt(m, run, i - 1);
      TrackStep(Watched(m, run, i - 1), State(m, run, i - 1), run[i - 1]);
    }
  }

  /** Event h is the last accepted heartbeat before event i. */
  predicate LastBeat(m: Mcu, run: seq<Event>, h: nat, i: nat)
    requires i <= |run|
  {
    && h < i && At(m, run, h) == Dispatched(HeartbeatAccepted)
    && forall r :: h < r < i ==> At(m, run, r) != Dispatched(HeartbeatAccepted)
  }

  lemma BeatStep(m: Mcu, e: Event)
    ensures Beats(m, e) <==> Step(m, e).1 == Dispatched(HeartbeatAccepted)
    ensures !Beats(m, e) ==> Step(m, e).0.heartbeatSeen == m.heartbeatSeen
  {
  }

  lemma {:induction false} LastBeatHappened(m: Mcu, run: seq<Event>, i: nat) returns (h: nat)
    requires i <= |run| && !m.heartbeatSeen && State(m, run, i).heartbeatSeen
    ensures LastBeat(m, run, h, i) && run[h].FrameIn? && run[h].time == Watched(m, run, i).beat
    decreases i
  {
    var before := State(m, run, i - 1);
    BeatStep(before, run[i - 1]);
    if Beats(before, run[i - 1]) {
      h := i - 1;
    } else {
      h := LastBeatHappened(m, run, i - 1);
    }
  }

  /** Below 2^32 the age is its own remainder; from there on it exceeds every timeout. */
  lemma WithinTimeoutExactly(age: nat, timeoutMs: u32)
    requires age % WORD <= timeoutMs
    ensures age <= timeoutMs <==> age < WORD
  {
  }

  /**
   In every run from power-on in which time does not run backwards, motion is only taken on after a heartbeat
   whose age is at most the timeout modulo 2^32; and the last heartbeat is truly no older than the timeout
   if and only if it is less than 2^32 ms old.
   */
  lemma MotionNeedsRecentHeartbeat(timeoutMs: u32, run: seq<Event>, i: nat) returns (h: nat)
    requires TimesInOrder(run)
    requires i < |run| && At(PowerOn(timeoutMs), run, i) == Dispatched(MotionDeferred)
    ensures LastBeat(PowerOn(timeoutMs), run, h, i) && run[h].FrameIn? && run[i].FrameIn?
    ensures var age := run[i].time - run[h].time;
      0 <= age && age % WORD <= timeoutMs && (age <= timeoutMs <==> age < WORD)
  {
    var m := PowerOn(timeoutMs);
    HeartbeatIsStamped(timeoutMs, run, i);
    DeferralStep(Watched(m, run, i), State(m, run, i), run[i], timeoutMs);
    h := LastBeatHappened(m, run, i);
    assert Ordered(run[h], run[i]);
    WithinTimeoutExactly(run[i].time - run[h].time, timeoutMs);
  }

  /**
   So it is in every punctual run: motion is only ever taken on while the last heartbeat is no older, in true
   elapsed time, than the timeout. The clock may wrap at any point.
   */
  lemma PunctualMotionIsRecent(timeoutMs: u32, run: seq<Event>, i: nat) returns (h: nat)
    requires PunctualRun(PowerOn(timeoutMs), run)
    requires i < |run| && At(PowerOn(timeoutMs), run, i) == Dispatched(MotionDeferred)
    ensures LastBeat(PowerOn(timeoutMs), run, h, i)
    ensures run[h].FrameIn? && run[i].FrameIn? && 0 <= run[i].time - run[h].time <= timeoutMs
  {
    var m := PowerOn(timeoutMs);
    WatchdogTracks(m, run, i);
    assert PunctualAt(m, run, i);
    TrackStep(Watched(m, run, i), State(m, run, i), run[i]);
    h := LastBeatHappened(m, run, i);
  }

  /** With no look in between, a ready controller takes on motion 2^32 ms after the only heartbeat. */
  lemma UnwatchedControllerMoves(id: CommandId)
    ensures var run := [FrameIn(Message(0, Beat), 0), FrameIn(Message(1, Motion(id)), WORD)];
      At(PowerOn(DEFAULT_TIMEOUT_MS), run, 1) == Dispatched(MotionDeferred)
  {
    var run := [FrameIn(Message(0, Beat), 0), FrameIn(Message(1, Motion(id)), WORD)];
    LateResetSteps(id);
    assert State(PowerOn(DEFAULT_TIMEOUT_MS), run, 1) == Early(ReadyState, true, false);
  }

  /** Resets do trust the wrapped age: with no other obstacle, that alone decides. */
  lemma ResetTrustsWrappedAge(m: Mcu, beat: nat, time: nat)
    requires m.heartbeatSeen && m.lastHeartbeatMs == beat % WORD && !m.physicalEstop && beat <= time
    ensures Step(m, ResetAt(time)).1 == ResetTried(true) <==> (time - beat) % WORD <= m.timeoutMs
  {
    assert (time % WORD - beat % WORD) % WORD == (time - beat) % WORD;
  }

  /** So 2^32 ms after the only heartbeat, a stopped controller can be reset and will take on motion. */
  lemma LateResetRevivesMotion(id: CommandId)
    ensures var run := [FrameIn(Message(0, Beat), 0), Physical(true), TickAt(501), Physical(false),
                        ResetAt(WORD), FrameIn(Message(1, Motion(id)), WORD)];
      At(PowerOn(DEFAULT_TIMEOUT_MS), run, 5) == Dispatched(MotionDeferred)
  {
    var run := [FrameIn(Message(0, Beat), 0), Physical(true), TickAt(501), Physical(false),
                ResetAt(WORD), FrameIn(Message(1, Motion(id)), WORD)];
    LateResetSteps(id);
    var m := PowerOn(DEFAULT_TIMEOUT_MS);
    assert State(m, run, 1) == Early(ReadyState, true, false);
    assert State(m, run, 2) == Early(EstopState, true, true);
    assert State(m, run, 3) == Early(EstopState, false, true);
    assert State(m, run, 4) == Early(EstopState, false, false);
    assert State(m, run, 5) == Early(ReadyState, true, false);
  }

  /** A controller that took its only heartbeat, number 0, at time 0. */
  function Early(state: RuntimeState, healthy: bool, physical: bool): Mcu {
    Mcu(state, physical, true, healthy, true, 0, None, 0, DEFAULT_TIMEOUT_MS)
  }

  lemma LateResetSteps(id: CommandId)
    ensures Step(PowerOn(DEFAULT_TIMEOUT_MS), FrameIn(Message(0, Beat), 0)).0 == Early(ReadyState, true, false)
    ensures Step(Early(ReadyState, true, false), Physical(true)).0 == Early(EstopState, true, true)
    ensures Step(Early(EstopState, true, true), TickAt(501)).0 == Early(EstopState, false, true)
    ensures Step(Early(EstopState, false, true), Physical(false)).0 == Early(EstopState, false, false)
    ensures Step(Early(EstopState, false, false), ResetAt(WORD)).0 == Early(ReadyState, true, false)
    ensures Step(Early(ReadyState, true, false), FrameIn(Message(1, Motion(id)), WORD)).1 == Dispatched(MotionDeferred)
  {
  }
}
