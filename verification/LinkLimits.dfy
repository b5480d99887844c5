/** How large frames may be for a transport that reads in pieces of a given size, so that clean traffic stays clean. */
module LinkLimits {
  import opened Bytes
  import opened Folds
  import opened Framing
  import opened Stream
  import opened Traffic
  import opened FaultyTraffic
  import opened Link
  import opened LinkDamage

  /** What arrives are frames of at most this size, one after the other, the last one perhaps not whole yet. */
  predicate CleanUse(events: seq<Event>, frames: seq<Frame>, largest: nat, readSize: nat, limit: nat)
    requires readSize > 0
  {
    && Use(events, readSize, limit).arrived <= EncodeAll(frames)
    && forall f :: f in frames ==> WireSize(f) <= largest
  }

  /** On such traffic no issue is ever raised, and what the calls have returned is a prefix of the frames. */
  ghost predicate StaysClean(readSize: nat, limit: nat, largest: nat)
    requires readSize > 0
  {
    forall events, frames :: CleanUse(events, frames, largest, readSize, limit) ==>
      Unharmed(Use(events, readSize, limit), frames)
  }

  predicate Unharmed(u: Usage, frames: seq<Frame>) {
    u.raised == [] && u.side.issues == [] && u.returned + u.side.frames <= frames
  }

  // ---- Enough room

  lemma {:induction false} CleanChunks(pending: seq<Frame>, held: seq<byte>, wire: seq<byte>, chunks: seq<seq<byte>>,
                                       readSize: nat, limit: nat, largest: nat)
    requires InFlight(pending, held, wire) && Join(chunks) <= wire && forall c :: c in chunks ==> |c| <= readSize
    requires OVERHEAD <= largest <= limit && largest - 1 + readSize <= limit
    requires forall f :: f in pending ==> WireSize(f) <= largest
    ensures var p := FeedAll(held, chunks, limit); FramesOf(p.segments) <= pending && IssuesOf(p.segments) == []
    decreases |chunks|
  {
    if chunks != [] {
      var n := |chunks[0]|;
      assert chunks[0] in chunks;
      assert Join(chunks)[..n] == chunks[0] && Join(chunks)[n..] == Join(chunks[1..]);
      assert wire[..n] == chunks[0] && Join(chunks[1..]) <= wire[n..];
      assert pending != [] ==> pending[0] in pending;
      var d := FeedInFlight(pending, held, wire, n, limit);
      var p := FeedOnce(held, chunks[0], limit);
      CleanChunks(pending[d..], p.rest, wire[n..], chunks[1..], readSize, limit, largest);
      BothClean(p, FeedAll(p.rest, chunks[1..], limit), pending, d);
    }
  }

  lemma BothClean(p: Parsed, q: Parsed, pending: seq<Frame>, d: nat)
    requires d <= |pending| && FramesOf(p.segments) == pending[..d] && IssuesOf(p.segments) == []
    requires FramesOf(q.segments) <= pending[d..] && IssuesOf(q.segments) == []
    ensures var both := Parsed(p.segments + q.segments, q.rest);
      FramesOf(both.segments) <= pending && IssuesOf(both.segments) == []
  {
    FlatMapConcat(FrameOf, p.segments, q.segments);
    FlatMapConcat(IssueOf, p.segments, q.segments);
    PrefixAfter(pending, d, FramesOf(q.segments));
  }

  lemma PrefixAfter(pending: seq<Frame>, d: nat, x: seq<Frame>)
    requires d <= |pending| && x <= pending[d..]
    ensures pending[..d] + x <= pending
  {
    assert pending == pending[..d] + pending[d..];
  }

  lemma RoomIsEnough(events: seq<Event>, frames: seq<Frame>, readSize: nat, limit: nat, largest: nat)
    requires readSize > 0 && OVERHEAD <= largest <= limit && largest - 1 + readSize <= limit
    requires CleanUse(events, frames, largest, readSize, limit)
    ensures Unharmed(Use(events, readSize, limit), frames)
  {
    var u := Use(events, readSize, limit);
    var chunks := EverythingIsHandedOut(events, readSize, limit);
    var all := EncodeAll(frames);
    assert Join(chunks) <= all by {
      assert Join(chunks) == (Join(chunks) + u.side.wire)[..|Join(chunks)|];
    }
    assert [] + all == all;
    CleanChunks(frames, [], all, chunks, readSize, limit, largest);
  }

  // ---- Too little room

  /** The beginning of a frame is held back, in however many reads it comes. */
  lemma {:induction false} FillIncomplete(pending: seq<Frame>, s: Side, rest: seq<byte>, readSize: nat, limit: nat)
    returns (held: seq<byte>)
    requires readSize > 0 && s.frames == [] && s.issues == [] && rest != [] && |pending| == 1 && Fits(pending, limit)
    requires InFlight(pending, s.held, s.wire + rest)
    ensures Fill(s, readSize, limit) == Side([], held, [], []) && held + rest == EncodeAll(pending)
    decreases |s.wire|
  {
    if s.wire == [] {
      held := s.held;
      assert s.wire + rest == rest;
    } else {
      var n := ReadCount(s.wire, readSize);
      ReadIncomplete(pending, s.held, s.wire, rest, n, limit);
      held := FillIncomplete(pending, ReadOnce(s, readSize, limit), rest, readSize, limit);
    }
  }

  lemma ReadIncomplete(pending: seq<Frame>, held: seq<byte>, wire: seq<byte>, rest: seq<byte>, n: nat, limit: nat)
    requires n <= |wire| && rest != [] && |pending| == 1 && Fits(pending, limit) && InFlight(pending, held, wire + rest)
    ensures var p := FeedOnce(held, wire[..n], limit);
      FramesOf(p.segments) == [] && IssuesOf(p.segments) == [] && InFlight(pending, p.rest, wire[n..] + rest)
  {
    var all := wire + rest;
    assert all[..n] == wire[..n] && all[n..] == wire[n..] + rest;
    OneFrame(pending, held, all, limit);
    var d := FeedInFlight(pending, held, all, n, limit);
    NothingWhole(pending, d, FeedOnce(held, wire[..n], limit).rest, all[n..]);
    assert pending[..0] == [] && pending[0..] == pending;
  }

  lemma OneFrame(pending: seq<Frame>, held: seq<byte>, wire: seq<byte>, limit: nat)
    requires |pending| == 1 && Fits(pending, limit) && held + wire == EncodeAll(pending)
    ensures |held| + |wire| <= limit
  {
    var f := pending[0];
    assert f in pending && pending == [f];
    EncodeOne(f);
    assert |held + wire| == WireSize(f);
  }

  lemma NothingWhole(pending: seq<Frame>, d: nat, left: seq<byte>, wire: seq<byte>)
    requires d <= |pending| == 1 && InFlight(pending[d..], left, wire) && wire != []
    ensures d == 0
  {
    assert |left + wire| > 0 && pending[1..] == [];
  }

  lemma EncodeOne(f: Frame)
    ensures EncodeAll([f]) == Encode(f)
  {
    FlatMapOne(Encode, f);
  }

  function Copies(f: Frame, n: nat): seq<Frame> {
    seq(n, _ => f)
  }

  lemma {:induction false} CopiesAreLong(f: Frame, n: nat)
    requires n > 0
    ensures |EncodeAll(Copies(f, n))| >= n - 1 + WireSize(f) && Encode(f) <= EncodeAll(Copies(f, n))
  {
    assert Copies(f, n)[1..] == Copies(f, n - 1);
    if n > 1 {
      CopiesAreLong(f, n - 1);
    }
  }

  /** The beginning of a frame: with nothing else there, a call reads it and holds it back. */
  predicate HeldBack(first: seq<byte>, readSize: nat, limit: nat)
    requires readSize > 0
  {
    Fill(Side(first, [], [], []), readSize, limit) == Side([], first, [], [])
  }

  lemma AlmostFrame(f: Frame, readSize: nat, limit: nat)
    requires readSize > 0 && WireSize(f) <= limit
    ensures HeldBack(Encode(f)[..WireSize(f) - 1], readSize, limit)
  {
    EncodeOne(f);
    var first, rest := Encode(f)[..WireSize(f) - 1], Encode(f)[WireSize(f) - 1..];
    assert first + rest == Encode(f) && [] + (first + rest) == Encode(f);
    var held := FillIncomplete([f], Side(first, [], [], []), rest, readSize, limit);
    SameEnd(held, first, rest);
  }

  lemma SameEnd(a: seq<byte>, b: seq<byte>, end: seq<byte>)
    requires a + end == b + end
    ensures a == b
  {
    assert a == (a + end)[..|a|] && b == (b + end)[..|b|];
  }

  lemma TightTraffic(f: Frame, readSize: nat, limit: nat)
    returns (frames: seq<Frame>, first: seq<byte>, second: seq<byte>)
    requires readSize > 0 && WireSize(f) <= limit
    ensures (forall g :: g in frames ==> g == f) && first + second <= EncodeAll(frames)
    ensures |first| == WireSize(f) - 1 && |second| == readSize && HeldBack(first, readSize, limit)
  {
    AlmostFrame(f, readSize, limit);
    frames, first, second := EnoughCopies(f, readSize);
  }

  lemma EnoughCopies(f: Frame, more: nat) returns (frames: seq<Frame>, first: seq<byte>, second: seq<byte>)
    ensures (forall g :: g in frames ==> g == f) && first + second <= EncodeAll(frames)
    ensures first == Encode(f)[..WireSize(f) - 1] && |second| == more
  {
    var n := more + 1;
    frames := Copies(f, n);
    CopiesAreLong(f, n);
    var all, k := EncodeAll(frames), WireSize(f) - 1;
    first, second := all[..k], all[k..k + more];
    assert first == all[..k + 1][..k] && all[..k + 1] == Encode(f);
    assert first + second == all[..k + more];
  }

  /**
   All but the last byte of a frame arrives and is read, and then as much as one read takes: an overflow is raised,
   and everything held and read is gone.
   */
  lemma TooLittleRoom(f: Frame, readSize: nat, limit: nat)
    returns (events: seq<Event>, frames: seq<Frame>)
    requires readSize > 0 && WireSize(f) <= limit && WireSize(f) - 1 + readSize > limit
    ensures CleanUse(events, frames, WireSize(f), readSize, limit)
    ensures Use(events, readSize, limit).raised == [StreamIssue(BufferOverflow, WireSize(f) - 1 + readSize)]
  {
    var first, second;
    frames, first, second := TightTraffic(f, readSize, limit);
    var u;
    events, u := TightUseOverflows(first, second, readSize, limit);
    StillClean(events, frames, f, u, readSize, limit);
  }

  lemma StillClean(events: seq<Event>, frames: seq<Frame>, f: Frame, u: Usage, readSize: nat, limit: nat)
    requires readSize > 0 && u == Use(events, readSize, limit) && u.arrived <= EncodeAll(frames)
    requires forall g :: g in frames ==> g == f
    ensures CleanUse(events, frames, WireSize(f), readSize, limit)
  {
  }

  function TightUse(first: seq<byte>, second: seq<byte>): seq<Event> {
    [Arrive(first), Call] + [Arrive(second), Call]
  }

  lemma TightUseOverflows(first: seq<byte>, second: seq<byte>, readSize: nat, limit: nat)
    returns (events: seq<Event>, v: Usage)
    requires readSize > 0 && |first| + readSize > limit && |second| == readSize && HeldBack(first, readSize, limit)
    ensures v == Use(events, readSize, limit)
    ensures v.raised == [StreamIssue(BufferOverflow, |first| + readSize)] && v.arrived == first + second
  {
    AfterFirst(first, readSize, limit);
    events := TightUse(first, second);
    v := AfterSecond(first, second, readSize, limit);
  }

  lemma AfterFirst(first: seq<byte>, readSize: nat, limit: nat)
    requires readSize > 0 && HeldBack(first, readSize, limit)
    ensures Use([Arrive(first), Call], readSize, limit) == Usage(first, [], [], Side([], first, [], []))
  {
    assert [] + [Arrive(first), Call] == [Arrive(first), Call];
    UseTwo(UNUSED, [Arrive(first), Call], [], Arrive(first), Call, readSize, limit);
    assert [] + first == first;
  }

  lemma AfterSecond(first: seq<byte>, second: seq<byte>, readSize: nat, limit: nat) returns (v: Usage)
    requires readSize > 0 && |second| == readSize && |first| + readSize > limit
    requires Use([Arrive(first), Call], readSize, limit) == Usage(first, [], [], Side([], first, [], []))
    ensures v == Use(TightUse(first, second), readSize, limit)
    ensures v.raised == [StreamIssue(BufferOverflow, |first| + readSize)] && v.arrived == first + second
  {
    var u := Usage(first, [], [], Side([], first, [], []));
    UseTwo(u, TightUse(first, second), [Arrive(first), Call], Arrive(second), Call, readSize, limit);
    v := SecondCall(first, second, u, readSize, limit);
  }

  lemma SecondCall(first: seq<byte>, second: seq<byte>, u: Usage, readSize: nat, limit: nat) returns (v: Usage)
    requires readSize > 0 && |second| == readSize && |first| + readSize > limit
    requires u == Usage(first, [], [], Side([], first, [], []))
    ensures v == Step(Step(u, Arrive(second), readSize, limit), Call, readSize, limit)
    ensures v.raised == [StreamIssue(BufferOverflow, |first| + readSize)] && v.arrived == first + second
  {
    assert [] + second == second;
    Overflows(Side(second, first, [], []), readSize, limit);
    var lost := [StreamIssue(BufferOverflow, |first| + readSize)];
    assert [] + lost == lost;
    v := Usage(first + second, [], lost, Side([], [], [], []));
  }

  /** The last two events of a use. */
  lemma UseTwo(u: Usage, events: seq<Event>, before: seq<Event>, d: Event, e: Event, readSize: nat, limit: nat)
    requires readSize > 0 && events == before + [d, e] && u == Use(before, readSize, limit)
    ensures Use(events, readSize, limit) == Step(Step(u, d, readSize, limit), e, readSize, limit)
  {
    var mid := before + [d];
    assert events[..|events| - 1] == mid && mid[..|mid| - 1] == before;
  }

  lemma Overflows(s: Side, readSize: nat, limit: nat)
    requires readSize > 0 && |s.wire| == readSize && |s.held| + readSize > limit && s.frames == [] && s.issues == []
    ensures Receive(s, readSize, limit)
         == (Side([], [], [], []), StreamError(StreamIssue(BufferOverflow, |s.held| + readSize)))
  {
    assert s.wire[..readSize] == s.wire && s.wire[readSize..] == [];
    OverflowExactly(s.held, s.wire, limit);
    var t := ReadOnce(s, readSize, limit);
    assert t == Side([], [], [], [StreamIssue(BufferOverflow, |s.held| + readSize)]);
    assert Fill(t, readSize, limit) == t;
  }

  // ---- Exactly

  /** Clean traffic stays clean if and only if a whole read fits behind all but one byte of the largest frame. */
  lemma RoomExactly(readSize: nat, limit: nat, largest: nat)
    requires readSize > 0 && OVERHEAD <= largest <= OVERHEAD + MAX_PAYLOAD && largest <= limit
    ensures StaysClean(readSize, limit, largest) <==> largest - 1 + readSize <= limit
  {
    if largest - 1 + readSize <= limit {
      forall events, frames | CleanUse(events, frames, largest, readSize, limit)
        ensures Unharmed(Use(events, readSize, limit), frames)
      {
        RoomIsEnough(events, frames, readSize, limit, largest);
      }
    } else {
      var f := AnyFrame.Frame(RobotTelemetry, 0, seq(largest - OVERHEAD, _ => 0));
      var events, frames := TooLittleRoom(f, readSize, limit);
      assert !Unharmed(Use(events, readSize, limit), frames);
    }
  }

  /** With the defaults, reads of 128 bytes and the decoder's own bound: payloads of up to 449 bytes, not 512. */
  lemma DefaultRoom(largest: nat)
    requires OVERHEAD <= largest <= OVERHEAD + MAX_PAYLOAD
    ensures StaysClean(128, DEFAULT_LIMIT, largest) <==> largest - OVERHEAD <= 449
  {
    RoomExactly(128, DEFAULT_LIMIT, largest);
  }
}
