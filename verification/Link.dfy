/** The bounded in-memory byte channel and the frame transport on top of it. */
module Link {
  import opened Bytes
  import opened Framing
  import opened Stream
  import opened Traffic
  import opened Decoder

  datatype WriteOutcome = Written | Waiting | CapacityError | WriterClosed

  datatype ReadOutcome = Data(bytes: seq<byte>) | NothingYet

  /** One direction of the link. A call that would have to wait reports so and changes nothing. */
  class MemoryChannel {
    const capacityBytes: nat
    var buffer: seq<byte>
    var closed: bool
    ghost var everWritten: seq<byte>
    ghost var everRead: seq<byte>

    /** Never over capacity; what went in comes out, in order. */
    ghost predicate Valid()
      reads this
    {
      capacityBytes > 0 && |buffer| <= capacityBytes && everWritten == everRead + buffer
    }

    constructor (capacityBytes: nat)
      requires capacityBytes > 0
      ensures Valid() && buffer == [] && !closed && everWritten == [] && this.capacityBytes == capacityBytes
    {
      this.capacityBytes := capacityBytes;
      buffer, closed := [], false;
      everWritten, everRead := [], [];
    }

    method Write(data: seq<byte>) returns (outcome: WriteOutcome)
      requires Valid()
      modifies this
      ensures Valid() && closed == old(closed) && everRead == old(everRead)
      ensures outcome ==
        if |data| > capacityBytes then CapacityError
        else if data == [] then Written
        else if closed then WriterClosed
        else if |old(buffer)| + |data| > capacityBytes then Waiting
        else Written
      ensures buffer == if outcome == Written then old(buffer) + data else old(buffer)
    {
      if |data| > capacityBytes {
        return CapacityError;
      }
      if data == [] {
        return Written;
      }
      if !closed && |buffer| + |data| > capacityBytes {
        return Waiting;
      }
      if closed {
        return WriterClosed;
      }
      buffer := buffer + data;
      everWritten := everWritten + data;
      return Written;
    }

    method Read(maxBytes: nat) returns (outcome: ReadOutcome)
      requires Valid() && maxBytes > 0
      modifies this
      ensures Valid() && closed == old(closed) && everWritten == old(everWritten)
      ensures outcome.NothingYet? <==> old(buffer) == [] && !closed
      ensures outcome.Data? ==>
        && outcome.bytes == old(buffer)[..ReadCount(old(buffer), maxBytes)]
        && buffer == old(buffer)[ReadCount(old(buffer), maxBytes)..]
      ensures outcome.NothingYet? ==> buffer == old(buffer)
    {
      if buffer == [] && !closed {
        return NothingYet;
      }
      if buffer == [] && closed {
        return Data([]);
      }
      var count := if maxBytes < |buffer| then maxBytes else |buffer|;
      outcome := Data(buffer[..count]);
      everRead := everRead + buffer[..count];
      buffer := buffer[count..];
    }

    method Close()
      requires Valid()
      modifies this
      ensures Valid() && closed && buffer == old(buffer)
    {
      closed := true;
    }
  }

  function ReadCount(wire: seq<byte>, maxBytes: nat): (n: nat)
    ensures n <= |wire|
  {
    if maxBytes < |wire| then maxBytes else |wire|
  }

  // ---- Receiving frames

  /** The receiving half of a link: bytes on the wire, held by the decoder, and the two queues. */
  datatype Side = Side(wire: seq<byte>, held: seq<byte>, frames: seq<Frame>, issues: seq<StreamIssue>)

  datatype Received = Frame(frame: Frame) | StreamError(issue: StreamIssue) | RemoteClosed | Pending

  function ReadOnce(s: Side, readSize: nat, limit: nat): Side {
    var n := ReadCount(s.wire, readSize);
    var p := FeedOnce(s.held, s.wire[..n], limit);
    Side(s.wire[n..], p.rest, s.frames + FramesOf(p.segments), s.issues + IssuesOf(p.segments))
  }

  /** Read until something is queued or the wire is empty. */
  function Fill(s: Side, readSize: nat, limit: nat): Side
    requires readSize > 0
    decreases |s.wire|
  {
    if s.issues != [] || s.frames != [] || s.wire == [] then s
    else Fill(ReadOnce(s, readSize, limit), readSize, limit)
  }

  function Receive(s: Side, readSize: nat, limit: nat): (Side, Received)
    requires readSize > 0
  {
    var t := Fill(s, readSize, limit);
    if t.issues != [] then (t.(issues := t.issues[1..]), StreamError(t.issues[0]))
    else if t.frames != [] then (t.(frames := t.frames[1..]), Received.Frame(t.frames[0]))
    else (t, Pending)
  }

  class ProtocolTransport {
    const channel: MemoryChannel
    const decoder: FrameStreamDecoder
    const readSize: nat
    var frames: seq<Frame>
    var issues: seq<StreamIssue>

    ghost predicate Valid()
      reads this, channel, decoder
    {
      readSize > 0 && channel.Valid() && decoder.Valid()
    }

    function View(): Side
      reads this, channel, decoder
    {
      Side(channel.buffer, decoder.buffer, frames, issues)
    }

    constructor (channel: MemoryChannel, decoder: FrameStreamDecoder, readSize: nat := 128)
      requires readSize > 0 && channel.Valid() && decoder.Valid()
      ensures Valid() && this.channel == channel && this.decoder == decoder && this.readSize == readSize
      ensures frames == [] && issues == []
    {
      this.channel, this.decoder, this.readSize := channel, decoder, readSize;
      frames, issues := [], [];
    }

    method SendFrame(frame: Frame) returns (outcome: WriteOutcome)
      requires Valid()
      modifies channel
      ensures Valid() && frames == old(frames) && issues == old(issues)
      ensures channel.buffer == if outcome == Written then old(channel.buffer) + Encode(frame) else old(channel.buffer)
    {
      outcome := channel.Write(Encode(frame));
    }

    /** The next frame, any stream corruption first; Pending if it would have to wait for more bytes. */
    method ReceiveFrame() returns (result: Received)
      requires Valid()
      modifies this, channel, decoder
      ensures Valid()
      ensures var (s, r) := Receive(old(View()), readSize, decoder.maxBufferBytes);
        View() == s && result == if r == Pending && channel.closed then RemoteClosed else r
    {
      ghost var start := View();
      while true
        invariant Valid() && channel.closed == old(channel.closed)
        invariant Fill(View(), readSize, decoder.maxBufferBytes) == Fill(start, readSize, decoder.maxBufferBytes)
        decreases |channel.buffer|
      {
        if issues != [] {
          result := StreamError(issues[0]);
          issues := issues[1..];
          return;
        }
        if frames != [] {
          result := Received.Frame(frames[0]);
          frames := frames[1..];
          return;
        }
        var chunk := channel.Read(readSize);
        if chunk.NothingYet? {
          return Pending;
        }
        if chunk.bytes == [] {
          return RemoteClosed;
        }
        var batch := decoder.Feed(chunk.bytes);
        issues := issues + batch.issues;
        frames := frames + batch.frames;
      }
    }
  }

  // ---- Clean traffic: the link is a queue of frames

  /** The bytes held and on the wire are the pending frames, the first of them incomplete so far. */
  predicate InFlight(pending: seq<Frame>, held: seq<byte>, wire: seq<byte>) {
    && held + wire == EncodeAll(pending)
    && |held| < if pending == [] then 1 else WireSize(pending[0])
  }

  /** `returned` has been handed out, the queue comes next, and nothing was reported. */
  predicate Delivering(sent: seq<Frame>, returned: seq<Frame>, s: Side) {
    && s.issues == []
    && returned + s.frames <= sent
    && InFlight(sent[|returned + s.frames|..], s.held, s.wire)
  }

  predicate Sized(sent: seq<Frame>, readSize: nat, limit: nat, largest: nat) {
    && largest <= limit && largest - 1 + readSize <= limit
    && forall f :: f in sent ==> WireSize(f) <= largest
  }

  lemma FeedInFlight(pending: seq<Frame>, held: seq<byte>, wire: seq<byte>, n: nat, limit: nat) returns (d: nat)
    requires InFlight(pending, held, wire) && Fits(pending, limit) && n <= |wire| && |held| + n <= limit
    ensures var p := FeedOnce(held, wire[..n], limit);
      && d <= |pending| && FramesOf(p.segments) == pending[..d] && IssuesOf(p.segments) == []
      && InFlight(pending[d..], p.rest, wire[n..])
  {
    var all := EncodeAll(pending);
    var m := |held| + n;
    assert all[..m] == held + wire[..n] && all[m..] == wire[n..] by {
      assert held + wire == (held + wire[..n]) + wire[n..];
    }
    d := CleanPrefix(pending, m, limit);
  }

  lemma ReadKeepsDelivering(sent: seq<Frame>, returned: seq<Frame>, s: Side, readSize: nat, limit: nat, largest: nat)
    requires Delivering(sent, returned, s) && Sized(sent, readSize, limit, largest)
    ensures Delivering(sent, returned, ReadOnce(s, readSize, limit))
  {
    var done := returned + s.frames;
    var pending := sent[|done|..];
    assert forall f :: f in pending ==> f in sent;
    assert pending != [] ==> pending[0] in sent;
    var d := FeedInFlight(pending, s.held, s.wire, ReadCount(s.wire, readSize), limit);
    MoreDone(sent, returned, s.frames, d);
  }

  lemma MoreDone(sent: seq<Frame>, returned: seq<Frame>, frames: seq<Frame>, d: nat)
    requires returned + frames <= sent && d <= |sent[|returned + frames|..]|
    ensures var pending := sent[|returned + frames|..];
      && returned + (frames + pending[..d]) <= sent
      && sent[|returned + (frames + pending[..d])|..] == pending[d..]
  {
    var done := returned + frames;
    var pending := sent[|done|..];
    assert returned + (frames + pending[..d]) == done + pending[..d];
    assert sent == done + pending;
  }

  lemma {:induction false} FillKeepsDelivering(sent: seq<Frame>, returned: seq<Frame>, s: Side, readSize: nat,
                                               limit: nat,
                                               largest: nat)
    requires readSize > 0 && Delivering(sent, returned, s) && Sized(sent, readSize, limit, largest)
    ensures Delivering(sent, returned, Fill(s, readSize, limit))
    ensures var t := Fill(s, readSize, limit); t.frames != [] || t.wire == []
    decreases |s.wire|
  {
    if s.frames == [] && s.wire != [] {
      ReadKeepsDelivering(sent, returned, s, readSize, limit, largest);
      FillKeepsDelivering(sent, returned, ReadOnce(s, readSize, limit), readSize, limit, largest);
    }
  }

  /** A queued frame is the oldest not returned; with nothing queued or on the wire, all were returned. */
  lemma HandOut(sent: seq<Frame>, returned: seq<Frame>, t: Side)
    requires Delivering(sent, returned, t) && (t.frames != [] || t.wire == [])
    ensures returned <= sent && (t.frames == [] <==> returned == sent)
    ensures t.frames != [] ==>
      && t.frames[0] == sent[|returned|]
      && Delivering(sent, returned + [t.frames[0]], t.(frames := t.frames[1..]))
  {
    var done := returned + t.frames;
    assert returned == done[..|returned|];
    if t.frames != [] {
      assert done[|returned|] == t.frames[0];
      assert (returned + [t.frames[0]]) + t.frames[1..] == done;
    } else {
      assert done == returned;
      var pending := sent[|returned|..];
      assert t.held + t.wire == t.held;
      if pending != [] {
        FirstFrameFits(pending);
      }
    }
  }

  lemma FirstFrameFits(pending: seq<Frame>)
    requires pending != []
    ensures |EncodeAll(pending)| >= WireSize(pending[0])
  {
  }

  /**
   On clean traffic each call returns the oldest frame not yet returned, and waits only when every
   frame sent has been returned. No issue is ever raised.
   */
  lemma ReceiveIsFifo(sent: seq<Frame>, returned: seq<Frame>, s: Side, readSize: nat, limit: nat, largest: nat)
    requires readSize > 0 && Delivering(sent, returned, s) && Sized(sent, readSize, limit, largest)
    ensures returned <= sent
    ensures var (t, r) := Receive(s, readSize, limit);
      if returned == sent then r == Pending && Delivering(sent, returned, t)
      else r == Received.Frame(sent[|returned|]) && Delivering(sent, returned + [sent[|returned|]], t)
  {
    FillKeepsDelivering(sent, returned, s, readSize, limit, largest);
    HandOut(sent, returned, Fill(s, readSize, limit));
  }

  lemma SendKeepsDelivering(sent: seq<Frame>, returned: seq<Frame>, s: Side, f: Frame)
    requires Delivering(sent, returned, s)
    ensures Delivering(sent + [f], returned, s.(wire := s.wire + Encode(f)))
  {
    var done := returned + s.frames;
    var pending := sent[|done|..];
    assert (sent + [f])[|done|..] == pending + [f];
    SendInFlight(pending, s.held, s.wire, f);
  }

  lemma SendInFlight(pending: seq<Frame>, held: seq<byte>, wire: seq<byte>, f: Frame)
    requires InFlight(pending, held, wire)
    ensures InFlight(pending + [f], held, wire + Encode(f))
  {
    EncodeAllAppend(pending, f);
    Appended(held, wire, Encode(f), EncodeAll(pending), EncodeAll(pending + [f]));
  }

  lemma Appended(held: seq<byte>, wire: seq<byte>, more: seq<byte>, all: seq<byte>, all': seq<byte>)
    requires held + wire == all && all' == all + more
    ensures held + (wire + more) == all'
  {
  }

  // ---- Runs of the link

  datatype LinkEvent = Send(frame: Frame) | ReceiveCall

  /** A link in use: everything sent, everything returned, and what is in between. */
  datatype LinkState = LinkState(sent: seq<Frame>, returned: seq<Frame>, errors: nat, side: Side)

  function LinkStep(l: LinkState, e: LinkEvent, readSize: nat, limit: nat): LinkState
    requires readSize > 0
  {
    match e
    case Send(f) => l.(sent := l.sent + [f], side := l.side.(wire := l.side.wire + Encode(f)))
    case ReceiveCall =>
      var (s, r) := Receive(l.side, readSize, limit);
      match r
      case Frame(f) => l.(returned := l.returned + [f], side := s)
      case StreamError(_) => l.(errors := l.errors + 1, side := s)
      case _ => l.(side := s)
  }

  function LinkRun(events: seq<LinkEvent>, readSize: nat, limit: nat): LinkState
    requires readSize > 0
  {
    if events == [] then LinkState([], [], 0, Side([], [], [], []))
    else LinkStep(LinkRun(events[..|events| - 1], readSize, limit), events[|events| - 1], readSize, limit)
  }

  /** However sends and receives interleave, what has been returned is a prefix of what was sent. */
  lemma {:induction false} LinkDeliversInOrder(events: seq<LinkEvent>, readSize: nat, limit: nat, largest: nat)
    requires readSize > 0 && largest <= limit && largest - 1 + readSize <= limit
    requires forall e :: e in events && e.Send? ==> WireSize(e.frame) <= largest
    ensures var l := LinkRun(events, readSize, limit);
      && l.errors == 0 && l.returned <= l.sent
      && Delivering(l.sent, l.returned, l.side) && Sized(l.sent, readSize, limit, largest)
  {
    if events != [] {
      var before := events[..|events| - 1];
      var e := events[|events| - 1];
      assert e in events;
      LinkDeliversInOrder(before, readSize, limit, largest);
      var l := LinkRun(before, readSize, limit);
      if e.Send? {
        SendKeepsDelivering(l.sent, l.returned, l.side, e.frame);
      } else {
        ReceiveIsFifo(l.sent, l.returned, l.side, readSize, limit, largest);
      }
    }
  }
}
