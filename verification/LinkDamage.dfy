/** The transport on any traffic: every frame and every issue the decoder finds is handed out once, in order. */
module LinkDamage {
  import opened Bytes
  import opened Folds
  import opened Framing
  import opened Stream
  import opened FaultyTraffic
  import opened Link

  datatype Event = Arrive(bytes: seq<byte>) | Call

  /** A receiving link in use: what has arrived, what the calls returned and raised, and what is in between. */
  datatype Usage = Usage(arrived: seq<byte>, returned: seq<Frame>, raised: seq<StreamIssue>, side: Side)

  function Handed(u: Usage, s: Side, r: Received): Usage {
    match r
    case Frame(f) => u.(returned := u.returned + [f], side := s)
    case StreamError(i) => u.(raised := u.raised + [i], side := s)
    case _ => u.(side := s)
  }

  function Step(u: Usage, e: Event, readSize: nat, limit: nat): Usage
    requires readSize > 0
  {
    match e
    case Arrive(bytes) => u.(arrived := u.arrived + bytes, side := u.side.(wire := u.side.wire + bytes))
    case Call => var (s, r) := Receive(u.side, readSize, limit); Handed(u, s, r)
  }

  const UNUSED: Usage := Usage([], [], [], Side([], [], [], []))

  function Use(events: seq<Event>, readSize: nat, limit: nat): Usage
    requires readSize > 0
  {
    if events == [] then UNUSED
    else Step(Use(events[..|events| - 1], readSize, limit), events[|events| - 1], readSize, limit)
  }

  /** Read in these chunks, the bytes gave the frames and issues handed out so far and those queued. */
  predicate Accounted(u: Usage, chunks: seq<seq<byte>>, readSize: nat, limit: nat) {
    && (forall c :: c in chunks ==> |c| <= readSize)
    && Join(chunks) + u.side.wire == u.arrived
    && Yields(FeedAll([], chunks, limit), u.returned + u.side.frames, u.raised + u.side.issues, u.side.held)
  }

  predicate Yields(p: Parsed, frames: seq<Frame>, issues: seq<StreamIssue>, rest: seq<byte>) {
    FramesOf(p.segments) == frames && IssuesOf(p.segments) == issues && p.rest == rest
  }

  // ---- One more chunk

  lemma {:induction false} FeedOneMore(buffer: seq<byte>, chunks: seq<seq<byte>>, last: seq<byte>, limit: nat)
    ensures var p := FeedAll(buffer, chunks, limit);
            var q := FeedOnce(p.rest, last, limit);
      FeedAll(buffer, chunks + [last], limit) == Parsed(p.segments + q.segments, q.rest)
    decreases |chunks|
  {
    if chunks == [] {
      FeedJust(buffer, last, limit);
      assert [] + [last] == [last];
      var q := FeedOnce(buffer, last, limit);
      assert [] + q.segments == q.segments;
    } else {
      var first := FeedOnce(buffer, chunks[0], limit);
      FeedOneMore(first.rest, chunks[1..], last, limit);
      assert (chunks + [last])[1..] == chunks[1..] + [last] && (chunks + [last])[0] == chunks[0];
      var mid := FeedAll(first.rest, chunks[1..], limit);
      var q := FeedOnce(mid.rest, last, limit);
      assert first.segments + (mid.segments + q.segments) == (first.segments + mid.segments) + q.segments;
    }
  }

  lemma FeedJust(buffer: seq<byte>, last: seq<byte>, limit: nat)
    ensures FeedAll(buffer, [last], limit) == FeedOnce(buffer, last, limit)
  {
    var q := FeedOnce(buffer, last, limit);
    assert FeedAll(q.rest, [last][1..], limit) == Parsed([], q.rest);
    assert q.segments + [] == q.segments;
  }

  /** q, read after p, adds to both queues. */
  lemma YieldsMore(p: Parsed, q: Parsed, returned: seq<Frame>, raised: seq<StreamIssue>, s: Side, t: Side)
    requires Yields(p, returned + s.frames, raised + s.issues, s.held)
    requires t.frames == s.frames + FramesOf(q.segments) && t.issues == s.issues + IssuesOf(q.segments)
    requires t.held == q.rest
    ensures Yields(Parsed(p.segments + q.segments, q.rest), returned + t.frames, raised + t.issues, t.held)
  {
    FlatMapConcat(FrameOf, p.segments, q.segments);
    FlatMapConcat(IssueOf, p.segments, q.segments);
    assert returned + t.frames == (returned + s.frames) + FramesOf(q.segments);
    assert raised + t.issues == (raised + s.issues) + IssuesOf(q.segments);
  }

  lemma {:induction false} JoinOneMore(chunks: seq<seq<byte>>, last: seq<byte>)
    ensures Join(chunks + [last]) == Join(chunks) + last
  {
    if chunks == [] {
      assert [] + [last] == [last] && [last][1..] == [];
      assert Join([last]) == last + Join([]) == last;
    } else {
      JoinOneMore(chunks[1..], last);
      assert (chunks + [last])[1..] == chunks[1..] + [last];
    }
  }

  lemma WireMore(chunks: seq<seq<byte>>, chunk: seq<byte>, wire: seq<byte>, left: seq<byte>, arrived: seq<byte>,
                 readSize: nat)
    requires Join(chunks) + wire == arrived && wire == chunk + left && |chunk| <= readSize
    requires forall c :: c in chunks ==> |c| <= readSize
    ensures Join(chunks + [chunk]) + left == arrived
    ensures forall c :: c in chunks + [chunk] ==> |c| <= readSize
  {
    JoinOneMore(chunks, chunk);
    assert (Join(chunks) + chunk) + left == Join(chunks) + (chunk + left);
  }

  lemma ReadMeans(s: Side, readSize: nat, limit: nat) returns (chunk: seq<byte>, q: Parsed)
    ensures q == FeedOnce(s.held, chunk, limit) && |chunk| <= readSize
    ensures var t := ReadOnce(s, readSize, limit);
      && s.wire == chunk + t.wire && t.held == q.rest
      && t.frames == s.frames + FramesOf(q.segments) && t.issues == s.issues + IssuesOf(q.segments)
  {
    chunk := s.wire[..ReadCount(s.wire, readSize)];
    q := FeedOnce(s.held, chunk, limit);
  }

  lemma ReadAccounts(u: Usage, chunks: seq<seq<byte>>, readSize: nat, limit: nat) returns (more: seq<seq<byte>>)
    requires Accounted(u, chunks, readSize, limit)
    ensures Accounted(u.(side := ReadOnce(u.side, readSize, limit)), more, readSize, limit)
  {
    var chunk, q := ReadMeans(u.side, readSize, limit);
    more := chunks + [chunk];
    ChunkAccounts(u, chunks, chunk, q, ReadOnce(u.side, readSize, limit), readSize, limit);
  }

  lemma ChunkAccounts(u: Usage, chunks: seq<seq<byte>>, chunk: seq<byte>, q: Parsed, t: Side, readSize: nat,
                      limit: nat)
    requires Accounted(u, chunks, readSize, limit) && q == FeedOnce(u.side.held, chunk, limit)
    requires |chunk| <= readSize && u.side.wire == chunk + t.wire && t.held == q.rest
    requires t.frames == u.side.frames + FramesOf(q.segments) && t.issues == u.side.issues + IssuesOf(q.segments)
    ensures Accounted(u.(side := t), chunks + [chunk], readSize, limit)
  {
    WireMore(chunks, chunk, u.side.wire, t.wire, u.arrived, readSize);
    FeedOneMore([], chunks, chunk, limit);
    YieldsMore(FeedAll([], chunks, limit), q, u.returned, u.raised, u.side, t);
  }

  lemma {:induction false} FillAccounts(u: Usage, chunks: seq<seq<byte>>, readSize: nat, limit: nat)
    returns (more: seq<seq<byte>>)
    requires readSize > 0 && Accounted(u, chunks, readSize, limit)
    ensures Accounted(u.(side := Fill(u.side, readSize, limit)), more, readSize, limit)
    ensures var t := Fill(u.side, readSize, limit); t.issues != [] || t.frames != [] || t.wire == []
    decreases |u.side.wire|
  {
    if u.side.issues != [] || u.side.frames != [] || u.side.wire == [] {
      more := chunks;
      assert u.(side := u.side) == u;
    } else {
      var s := ReadOnce(u.side, readSize, limit);
      var read := ReadAccounts(u, chunks, readSize, limit);
      more := FillAccounts(u.(side := s), read, readSize, limit);
    }
  }

  // ---- Handing out

  /** What a call must not do: return a frame before an issue, or wait while something is left. */
  predicate RightAnswer(t: Side, r: Received) {
    && (r.StreamError? <==> t.issues != [])
    && (r.Frame? <==> t.issues == [] && t.frames != [])
    && (r.Pending? <==> t.issues == [] && t.frames == [] && t.wire == [])
  }

  lemma CallAccounts(u: Usage, chunks: seq<seq<byte>>, readSize: nat, limit: nat) returns (more: seq<seq<byte>>)
    requires readSize > 0 && Accounted(u, chunks, readSize, limit)
    ensures Accounted(Step(u, Call, readSize, limit), more, readSize, limit)
    ensures RightAnswer(Fill(u.side, readSize, limit), Receive(u.side, readSize, limit).1)
  {
    more := FillAccounts(u, chunks, readSize, limit);
    var t := Fill(u.side, readSize, limit);
    var (s, r) := Receive(u.side, readSize, limit);
    HandingOut(u, t, s, r);
  }

  lemma HandingOut(u: Usage, t: Side, s: Side, r: Received)
    requires if t.issues != [] then s == t.(issues := t.issues[1..]) && r == StreamError(t.issues[0])
             else if t.frames != [] then s == t.(frames := t.frames[1..]) && r == Received.Frame(t.frames[0])
             else s == t && r == Pending
    ensures var v := Handed(u, s, r);
      && v.side.wire == t.wire && v.side.held == t.held && v.arrived == u.arrived
      && v.returned + v.side.frames == u.returned + t.frames && v.raised + v.side.issues == u.raised + t.issues
  {
    if t.issues != [] {
      assert [t.issues[0]] + t.issues[1..] == t.issues;
      assert (u.raised + [t.issues[0]]) + t.issues[1..] == u.raised + t.issues;
    } else if t.frames != [] {
      assert (u.returned + [t.frames[0]]) + t.frames[1..] == u.returned + t.frames;
    }
  }

  lemma ArrivalAccounts(u: Usage, chunks: seq<seq<byte>>, bytes: seq<byte>, readSize: nat, limit: nat)
    requires readSize > 0 && Accounted(u, chunks, readSize, limit)
    ensures Accounted(Step(u, Arrive(bytes), readSize, limit), chunks, readSize, limit)
  {
    assert Join(chunks) + (u.side.wire + bytes) == (Join(chunks) + u.side.wire) + bytes;
  }

  /**
   However bytes and calls interleave: the frames returned and then those queued, and the issues raised and then
   those queued, are what the decoder makes of the bytes read, in order.
   */
  lemma {:induction false} EverythingIsHandedOut(events: seq<Event>, readSize: nat, limit: nat)
    returns (chunks: seq<seq<byte>>)
    requires readSize > 0
    ensures Accounted(Use(events, readSize, limit), chunks, readSize, limit)
  {
    if events == [] {
      chunks := [];
    } else {
      var before, e := events[..|events| - 1], events[|events| - 1];
      var u := Use(before, readSize, limit);
      chunks := EverythingIsHandedOut(before, readSize, limit);
      if e.Arrive? {
        ArrivalAccounts(u, chunks, e.bytes, readSize, limit);
      } else {
        chunks := CallAccounts(u, chunks, readSize, limit);
      }
    }
  }

  // ---- Damaged traffic

  lemma {:induction false} RoomForChunks(buffer: seq<byte>, chunks: seq<seq<byte>>, readSize: nat, limit: nat)
    requires |buffer| < OVERHEAD + MAX_PAYLOAD <= limit && readSize + OVERHEAD + MAX_PAYLOAD <= limit + 1
    requires forall c :: c in chunks ==> |c| <= readSize
    ensures NoOverflow(buffer, chunks, limit)
    decreases |chunks|
  {
    if chunks != [] {
      assert chunks[0] in chunks;
      ParseSettles(buffer + chunks[0], limit);
      RoomForChunks(FeedOnce(buffer, chunks[0], limit).rest, chunks[1..], readSize, limit);
    }
  }

  /** Nothing is queued or on the wire. */
  predicate Drained(u: Usage) {
    u.side.frames == [] && u.side.issues == [] && u.side.wire == []
  }

  /** Once a damaged transmission is received to the end, the calls have returned exactly its intact frames in order. */
  lemma DamagedLinkDelivers(events: seq<Event>, pieces: seq<Piece>, readSize: nat, limit: nat)
    requires readSize > 0 && OVERHEAD + MAX_PAYLOAD <= limit && readSize + OVERHEAD + MAX_PAYLOAD <= limit + 1
    requires AllProper(pieces, limit)
    requires Use(events, readSize, limit).arrived == Transmission(pieces) && Drained(Use(events, readSize, limit))
    ensures Use(events, readSize, limit).returned == FlatMap(PieceFrames, pieces)
  {
    var u := Use(events, readSize, limit);
    var chunks := EverythingIsHandedOut(events, readSize, limit);
    RoomForChunks([], chunks, readSize, limit);
    assert Join(chunks) + [] == Join(chunks);
    DamageInChunks(pieces, chunks, limit);
    assert u.returned + [] == u.returned;
  }
}
