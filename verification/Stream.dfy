/**
 The bounded, resynchronising stream decoder. One pass over a buffer is specified as a parse into
 segments, each a decoded frame or a run of discarded bytes; `Feed` is proved to perform that parse,
 and the parse is proved insensitive to how the stream was cut into chunks.
 */
module Stream {
  import opened Bytes
  import opened Folds
  import opened Framing

  datatype IssueKind = Desync | InvalidHeader | ChecksumMismatch | InvalidFrame | BufferOverflow

  datatype StreamIssue = StreamIssue(kind: IssueKind, discarded: nat)

  datatype DecodeBatch = DecodeBatch(frames: seq<Frame>, issues: seq<StreamIssue>, buffered: nat)

  /** Default buffer bound: one largest frame and 64 bytes. */
  const DEFAULT_LIMIT: nat := MAX_PAYLOAD + OVERHEAD + 64

  datatype Segment = Got(frame: Frame) | Lost(kind: IssueKind, bytes: seq<byte>)

  datatype Parsed = Parsed(segments: seq<Segment>, rest: seq<byte>)

  // ---- Specification

  predicate MagicAt(s: seq<byte>, i: int) {
    0 <= i && i + 2 <= |s| && s[i] == MAGIC[0] && s[i + 1] == MAGIC[1]
  }

  /** First position of the magic, or -1. */
  function Find(s: seq<byte>): (i: int)
    ensures -1 <= i < |s|
    ensures i >= 0 ==> MagicAt(s, i) && forall j :: 0 <= j < i ==> !MagicAt(s, j)
    ensures i == -1 ==> forall j :: !MagicAt(s, j)
  {
    FindFrom(s, 0)
  }

  function FindFrom(s: seq<byte>, from: nat): (i: int)
    requires from <= |s|
    ensures i == -1 || from <= i < |s|
    ensures i >= 0 ==> MagicAt(s, i) && forall j :: from <= j < i ==> !MagicAt(s, j)
    ensures i == -1 ==> forall j :: from <= j ==> !MagicAt(s, j)
    decreases |s| - from
  {
    if from == |s| then -1 else if MagicAt(s, from) then from else FindFrom(s, from + 1)
  }

  predicate HeaderValid(buffer: seq<byte>)
    requires |buffer| >= HEADER_SIZE
  {
    buffer[2] == VERSION && MessageTypeOf(buffer[3]).Some? && ReadU16(buffer, 6) <= MAX_PAYLOAD
  }

  /** What the next iteration over the buffer does: wait for more, drop bytes, or deliver a frame. */
  datatype Action = Wait | Drop(kind: IssueKind, count: nat) | Deliver(frame: Frame, count: nat)

  function Next(buffer: seq<byte>, limit: nat): (a: Action)
    ensures !a.Wait? ==> 0 < a.count <= |buffer|
  {
    if |buffer| < 2 then Wait
    else if !MagicAt(buffer, 0) then
      var at := Find(buffer);
      if at != -1 then Drop(Desync, at)
      else Drop(Desync, |buffer| - if buffer[|buffer| - 1] == MAGIC[0] then 1 else 0)
    else if |buffer| < HEADER_SIZE then Wait
    else if !HeaderValid(buffer) then Drop(InvalidHeader, 1)
    else
      var size := OVERHEAD + ReadU16(buffer, 6);
      if size > limit then Drop(InvalidHeader, 1)
      else if |buffer| < size then Wait
      else
        match Decode(buffer[..size])
        case Ok(f) => Deliver(f, size)
        case Err(e) =>
          if e.ChecksumMismatch? then Drop(IssueKind.ChecksumMismatch, size) else Drop(InvalidFrame, 1)
  }

  function SegmentFor(a: Action, buffer: seq<byte>): Segment
    requires !a.Wait? && a.count <= |buffer|
  {
    if a.Deliver? then Got(a.frame) else Lost(a.kind, buffer[..a.count])
  }

  function Parse(buffer: seq<byte>, limit: nat): Parsed
    decreases |buffer|
  {
    var a := Next(buffer, limit);
    if a.Wait? then Parsed([], buffer)
    else
      var p := Parse(buffer[a.count..], limit);
      Parsed([SegmentFor(a, buffer)] + p.segments, p.rest)
  }

  /** One call of feed on a decoder holding `buffer`. */
  function FeedOnce(buffer: seq<byte>, data: seq<byte>, limit: nat): Parsed {
    if |buffer| + |data| > limit then Parsed([Lost(BufferOverflow, buffer + data)], [])
    else Parse(buffer + data, limit)
  }

  function FeedAll(buffer: seq<byte>, chunks: seq<seq<byte>>, limit: nat): Parsed
    decreases |chunks|
  {
    if chunks == [] then Parsed([], buffer)
    else
      var first := FeedOnce(buffer, chunks[0], limit);
      var others := FeedAll(first.rest, chunks[1..], limit);
      Parsed(first.segments + others.segments, others.rest)
  }

  predicate NoOverflow(buffer: seq<byte>, chunks: seq<seq<byte>>, limit: nat)
    decreases |chunks|
  {
    chunks == [] ||
    (|buffer| + |chunks[0]| <= limit
     && NoOverflow(FeedOnce(buffer, chunks[0], limit).rest, chunks[1..], limit))
  }

  // ---- Views of a parse

  function FrameOf(segment: Segment): seq<Frame> {
    match segment case Got(f) => [f] case Lost(_, _) => []
  }

  function IssueOf(segment: Segment): seq<StreamIssue> {
    match segment case Got(_) => [] case Lost(kind, bytes) => [StreamIssue(kind, |bytes|)]
  }

  function Raw(segment: Segment): seq<byte> {
    match segment case Got(f) => Encode(f) case Lost(_, bytes) => bytes
  }

  function LostTo(kind: IssueKind): Segment -> nat {
    (segment: Segment) => if segment.Lost? && segment.kind == kind then |segment.bytes| else 0
  }

  function FramesOf(segments: seq<Segment>): seq<Frame> {
    FlatMap(FrameOf, segments)
  }

  function IssuesOf(segments: seq<Segment>): seq<StreamIssue> {
    FlatMap(IssueOf, segments)
  }

  function Flatten(segments: seq<Segment>): seq<byte> {
    FlatMap(Raw, segments)
  }

  /** Bytes discarded for one kind of issue. */
  function Discarded(segments: seq<Segment>, kind: IssueKind): nat {
    Sum(LostTo(kind), segments)
  }

  function Join(chunks: seq<seq<byte>>): seq<byte> {
    if chunks == [] then [] else chunks[0] + Join(chunks[1..])
  }

  // ---- One parse: nothing is invented, nothing vanishes

  lemma ValidHeaderDecodes(buffer: seq<byte>, limit: nat)
    requires |buffer| >= HEADER_SIZE && MagicAt(buffer, 0) && HeaderValid(buffer)
    requires |buffer| >= OVERHEAD + ReadU16(buffer, 6)
    ensures var d := Decode(buffer[..OVERHEAD + ReadU16(buffer, 6)]);
            d.Ok? || d.error.ChecksumMismatch?
  {
    var data := buffer[..OVERHEAD + ReadU16(buffer, 6)];
    assert data[..2] == [data[0], data[1]];
    assert ReadU16(data, 6) == ReadU16(buffer, 6);
  }

  lemma DeliverIsEncoding(buffer: seq<byte>, limit: nat)
    requires Next(buffer, limit).Deliver?
    ensures var a := Next(buffer, limit); buffer[..a.count] == Encode(a.frame)
  {
    var a := Next(buffer, limit);
    DecodeInvertsEncode(a.frame, buffer[..a.count]);
  }

  /** The segments and the residual spell the input, so every frame was on the wire verbatim. */
  lemma {:induction false} ParseConserves(buffer: seq<byte>, limit: nat)
    ensures var p := Parse(buffer, limit); Flatten(p.segments) + p.rest == buffer
    decreases |buffer|
  {
    var a := Next(buffer, limit);
    if !a.Wait? {
      var head := SegmentFor(a, buffer);
      var p := Parse(buffer[a.count..], limit);
      ParseConserves(buffer[a.count..], limit);
      assert Raw(head) == buffer[..a.count] by {
        if a.Deliver? {
          DeliverIsEncoding(buffer, limit);
        }
      }
      FlatMapConcat(Raw, [head], p.segments);
      FlatMapOne(Raw, head);
      assert buffer == buffer[..a.count] + buffer[a.count..];
    }
  }

  /** What is left over waits for more input, and is shorter than a frame. */
  lemma {:induction false} ParseSettles(buffer: seq<byte>, limit: nat)
    requires limit >= OVERHEAD
    ensures var p := Parse(buffer, limit);
            Next(p.rest, limit).Wait? && |p.rest| < limit && |p.rest| < OVERHEAD + MAX_PAYLOAD
    decreases |buffer|
  {
    var a := Next(buffer, limit);
    if !a.Wait? {
      ParseSettles(buffer[a.count..], limit);
    }
  }

  /** With the default bound, chunks of up to 65 bytes never overflow the buffer, however many there are. */
  lemma {:induction false} SmallChunksNeverOverflow(buffer: seq<byte>, chunks: seq<seq<byte>>)
    requires |buffer| < OVERHEAD + MAX_PAYLOAD && forall c :: c in chunks ==> |c| <= 65
    ensures NoOverflow(buffer, chunks, DEFAULT_LIMIT)
    decreases |chunks|
  {
    if chunks != [] {
      assert chunks[0] in chunks;
      ParseSettles(buffer + chunks[0], DEFAULT_LIMIT);
      SmallChunksNeverOverflow(FeedOnce(buffer, chunks[0], DEFAULT_LIMIT).rest, chunks[1..]);
    }
  }

  /** The INVALID_FRAME branch is dead: a validated header leaves only the checksum to fail. */
  lemma {:induction false} InvalidFrameUnreachable(buffer: seq<byte>, limit: nat)
    ensures forall s :: s in Parse(buffer, limit).segments && s.Lost? ==>
              s.kind in {Desync, InvalidHeader, IssueKind.ChecksumMismatch} && s.bytes != []
    decreases |buffer|
  {
    var a := Next(buffer, limit);
    if !a.Wait? {
      InvalidFrameUnreachable(buffer[a.count..], limit);
      if |buffer| >= HEADER_SIZE && MagicAt(buffer, 0) && HeaderValid(buffer)
         && |buffer| >= OVERHEAD + ReadU16(buffer, 6) {
        ValidHeaderDecodes(buffer, limit);
      }
    }
  }

  function FrameSize(frame: Frame): nat {
    |Encode(frame)|
  }

  function IssueSize(issue: StreamIssue): nat {
    issue.discarded
  }

  function FrameBytes(frames: seq<Frame>): nat {
    Sum(FrameSize, frames)
  }

  function IssueBytes(issues: seq<StreamIssue>): nat {
    Sum(IssueSize, issues)
  }

  lemma {:induction false} FlattenLength(segments: seq<Segment>)
    ensures |Flatten(segments)| == FrameBytes(FramesOf(segments)) + IssueBytes(IssuesOf(segments))
  {
    if segments != [] {
      FlattenLength(segments[1..]);
      SumConcat(FrameSize, FrameOf(segments[0]), FramesOf(segments[1..]));
      SumConcat(IssueSize, IssueOf(segments[0]), IssuesOf(segments[1..]));
    }
  }

  lemma FeedOnceConserves(buffer: seq<byte>, data: seq<byte>, limit: nat)
    ensures var p := FeedOnce(buffer, data, limit); Flatten(p.segments) + p.rest == buffer + data
  {
    if |buffer| + |data| <= limit {
      ParseConserves(buffer + data, limit);
    } else {
      FlatMapOne(Raw, Lost(BufferOverflow, buffer + data));
    }
  }

  /** Byte accounting for every call, overflow included. */
  lemma FeedAccountsForEveryByte(buffer: seq<byte>, data: seq<byte>, limit: nat)
    ensures var p := FeedOnce(buffer, data, limit);
      |buffer| + |data| == FrameBytes(FramesOf(p.segments)) + IssueBytes(IssuesOf(p.segments)) + |p.rest|
  {
    FlattenLength(FeedOnce(buffer, data, limit).segments);
    FeedOnceConserves(buffer, data, limit);
  }

  lemma {:induction false} FeedAllConserves(buffer: seq<byte>, chunks: seq<seq<byte>>, limit: nat)
    ensures var p := FeedAll(buffer, chunks, limit); Flatten(p.segments) + p.rest == buffer + Join(chunks)
    decreases |chunks|
  {
    if chunks != [] {
      var first := FeedOnce(buffer, chunks[0], limit);
      var others := FeedAll(first.rest, chunks[1..], limit);
      FeedOnceConserves(buffer, chunks[0], limit);
      FeedAllConserves(first.rest, chunks[1..], limit);
      FlatMapConcat(Raw, first.segments, others.segments);
      Reassociate(Flatten(first.segments), Flatten(others.segments), first.rest, others.rest,
                  buffer, chunks[0], Join(chunks[1..]));
    }
  }

  lemma Reassociate(x: seq<byte>, y: seq<byte>, r: seq<byte>, q: seq<byte>, a: seq<byte>, b: seq<byte>, c: seq<byte>)
    requires x + r == a + b && y + q == r + c
    ensures (x + y) + q == a + (b + c)
  {
    assert (x + y) + q == x + (y + q) == (x + r) + c == a + (b + c);
  }
}
