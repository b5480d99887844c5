/** What the controller's fields say about everything that has happened since it was switched on. */
module FirmwareHistory {
  import opened Bytes
  import opened FirmwareRuntime
  import opened FirmwareRuns

  predicate Beats(o: Outcome) {
    o == Dispatched(HeartbeatAccepted)
  }

  predicate Resets(o: Outcome) {
    o == ResetTried(true)
  }

  /** Event k makes the controller ready: a reset that succeeds, or a heartbeat taken while not stopped. */
  predicate Readies(m: Mcu, run: seq<Event>, k: nat)
    requires k < |run|
  {
    Resets(At(m, run, k)) || (Beats(At(m, run, k)) && !State(m, run, k).state.EstopState?)
  }

  /** At event e the controller looks at the clock and finds the last heartbeat too old, on 32 bits. */
  predicate FindsStale(m: Mcu, e: Event) {
    && (e.TickAt? || e.ResetAt? || Step(m, e).1 == Dispatched(MotionRejectedUnsafe))
    && (e.time - m.lastHeartbeatMs) % WORD > m.timeoutMs
  }

  /** Event j takes readiness away: a stop, or a look that finds the heartbeat stale. */
  predicate Disturbs(m: Mcu, run: seq<Event>, j: nat)
    requires j < |run|
  {
    Latches(At(m, run, j)) || FindsStale(State(m, run, j), run[j])
  }

  ghost predicate StoppedSince(m: Mcu, run: seq<Event>, i: nat)
    requires i <= |run|
  {
    exists k :: 0 <= k < i && Latches(At(m, run, k)) && forall j :: k < j < i ==> !Resets(At(m, run, j))
  }

  ghost predicate ReadySince(m: Mcu, run: seq<Event>, i: nat)
    requires i <= |run|
  {
    exists k :: 0 <= k < i && Readies(m, run, k) && forall j :: k < j < i ==> !Disturbs(m, run, j)
  }

  /** Event k was the last heartbeat taken before event i. */
  ghost predicate LastBeat(m: Mcu, run: seq<Event>, i: nat, k: nat)
    requires i <= |run|
  {
    k < i && Beats(At(m, run, k)) && forall j :: k < j < i ==> !Beats(At(m, run, j))
  }

  /** Stopped exactly if a stop was latched and no reset has succeeded since. */
  lemma {:induction false} StoppedExactly(timeoutMs: u32, run: seq<Event>, i: nat)
    requires i <= |run|
    ensures State(PowerOn(timeoutMs), run, i).state.EstopState? <==> StoppedSince(PowerOn(timeoutMs), run, i)
  {
    if i > 0 {
      var m := PowerOn(timeoutMs);
      StoppedExactly(timeoutMs, run, i - 1);
      StoppedNext(m, run, i - 1);
      StopAfter(State(m, run, i - 1), run[i - 1]);
    }
  }

  lemma StopAfter(m: Mcu, e: Event)
    ensures Step(m, e).0.state.EstopState?
       <==> Latches(Step(m, e).1) || (m.state.EstopState? && !Resets(Step(m, e).1))
  {
  }

  lemma StoppedNext(m: Mcu, run: seq<Event>, i: nat)
    requires i < |run|
    ensures StoppedSince(m, run, i + 1)
       <==> Latches(At(m, run, i)) || (StoppedSince(m, run, i) && !Resets(At(m, run, i)))
  {
    if StoppedSince(m, run, i) && !Resets(At(m, run, i)) {
      var k :| 0 <= k < i && Latches(At(m, run, k)) && forall j :: k < j < i ==> !Resets(At(m, run, j));
      assert forall j :: k < j < i + 1 ==> !Resets(At(m, run, j));
    }
  }

  /** Ready exactly if something made it ready, and no stop and no stale look came since. */
  lemma {:induction false} ReadyExactly(timeoutMs: u32, run: seq<Event>, i: nat)
    requires i <= |run|
    ensures State(PowerOn(timeoutMs), run, i).state.ReadyState? <==> ReadySince(PowerOn(timeoutMs), run, i)
  {
    if i > 0 {
      var m := PowerOn(timeoutMs);
      ReadyExactly(timeoutMs, run, i - 1);
      ReadyNext(m, run, i - 1);
      EveryStateIsConsistent(timeoutMs, run, i - 1);
      ReadyAfter(State(m, run, i - 1), run[i - 1]);
    }
  }

  lemma ReadyAfter(m: Mcu, e: Event)
    requires Consistent(m)
    ensures Step(m, e).0.state.ReadyState?
       <==> || Resets(Step(m, e).1) || (Beats(Step(m, e).1) && !m.state.EstopState?)
            || (m.state.ReadyState? && !Latches(Step(m, e).1) && !FindsStale(m, e))
  {
    if e.TickAt? || e.ResetAt? || e.FrameIn? {
      SameAge(e.time, m.lastHeartbeatMs);
    }
  }

  lemma SameAge(time: nat, last: u32)
    ensures (time - last) % WORD == Age(time % WORD, last)
  {
  }

  lemma ReadyNext(m: Mcu, run: seq<Event>, i: nat)
    requires i < |run|
    ensures ReadySince(m, run, i + 1)
       <==> Readies(m, run, i) || (ReadySince(m, run, i) && !Disturbs(m, run, i))
  {
    if ReadySince(m, run, i) && !Disturbs(m, run, i) {
      var k :| 0 <= k < i && Readies(m, run, k) && forall j :: k < j < i ==> !Disturbs(m, run, j);
      assert forall j :: k < j < i + 1 ==> !Disturbs(m, run, j);
    }
  }

  ghost predicate EverBeat(m: Mcu, run: seq<Event>, i: nat)
    requires i <= |run|
  {
    exists k: nat :: LastBeat(m, run, i, k)
  }

  predicate CameAt(e: Event, last: u32) {
    e.FrameIn? && last == e.time % WORD
  }

  /** What it takes for the last heartbeat is the one taken last, by its arrival on the 32-bit clock. */
  lemma {:induction false} HeartbeatExactly(timeoutMs: u32, run: seq<Event>, i: nat)
    requires i <= |run|
    ensures State(PowerOn(timeoutMs), run, i).heartbeatSeen <==> EverBeat(PowerOn(timeoutMs), run, i)
    ensures forall k: nat :: LastBeat(PowerOn(timeoutMs), run, i, k) ==>
      CameAt(run[k], State(PowerOn(timeoutMs), run, i).lastHeartbeatMs)
  {
    if i > 0 {
      var m := PowerOn(timeoutMs);
      HeartbeatExactly(timeoutMs, run, i - 1);
      BeatAfter(State(m, run, i - 1), run[i - 1]);
      BeatNext(m, run, i - 1);
      EverBeatNext(m, run, i - 1);
    }
  }

  lemma EverBeatNext(m: Mcu, run: seq<Event>, i: nat)
    requires i < |run|
    ensures EverBeat(m, run, i + 1) <==> Beats(At(m, run, i)) || EverBeat(m, run, i)
  {
    BeatNext(m, run, i);
    if Beats(At(m, run, i)) {
      assert LastBeat(m, run, i + 1, i);
    } else {
      if EverBeat(m, run, i) {
        var k: nat :| LastBeat(m, run, i, k);
        assert LastBeat(m, run, i + 1, k);
      }
      if EverBeat(m, run, i + 1) {
        var k: nat :| LastBeat(m, run, i + 1, k);
        assert LastBeat(m, run, i, k);
      }
    }
  }

  lemma BeatAfter(m: Mcu, e: Event)
    ensures var (n, o) := Step(m, e);
      if Beats(o) then n.heartbeatSeen && CameAt(e, n.lastHeartbeatMs)
      else n.heartbeatSeen == m.heartbeatSeen && n.lastHeartbeatMs == m.lastHeartbeatMs
  {
  }

  lemma BeatNext(m: Mcu, run: seq<Event>, i: nat)
    requires i < |run|
    ensures forall k: nat :: LastBeat(m, run, i + 1, k)
                        <==> if Beats(At(m, run, i)) then k == i else LastBeat(m, run, i, k)
  {
    forall k: nat
      ensures LastBeat(m, run, i + 1, k) <==> if Beats(At(m, run, i)) then k == i else LastBeat(m, run, i, k)
    {
      if LastBeat(m, run, i, k) && !Beats(At(m, run, i)) {
        assert forall j :: k < j < i + 1 ==> !Beats(At(m, run, j));
      }
    }
  }
}
