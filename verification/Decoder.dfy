/** The host's decoder object. */
module Decoder {
  import opened Bytes
  import opened Folds
  import opened Framing
  import opened Stream

  /** Of `goal`, `frames` and `issues` are done and `buffer` is still to be parsed. */
  ghost predicate Progress(goal: Parsed, frames: seq<Frame>, issues: seq<StreamIssue>, buffer: seq<byte>, limit: nat) {
    var p := Parse(buffer, limit);
    && FramesOf(goal.segments) == frames + FramesOf(p.segments)
    && IssuesOf(goal.segments) == issues + IssuesOf(p.segments)
    && goal.rest == p.rest
  }

  lemma AfterDrop(goal: Parsed, frames: seq<Frame>, issues: seq<StreamIssue>, buffer: seq<byte>, limit: nat,
                  kind: IssueKind, n: nat)
    requires Progress(goal, frames, issues, buffer, limit) && Next(buffer, limit) == Drop(kind, n)
    ensures n <= |buffer| && Progress(goal, frames, issues + [StreamIssue(kind, n)], buffer[n..], limit)
  {
    var p := Parse(buffer[n..], limit);
    var s := Lost(kind, buffer[..n]);
    assert ([s] + p.segments)[1..] == p.segments;
    assert FramesOf([s] + p.segments) == FramesOf(p.segments);
    assert IssuesOf([s] + p.segments) == [StreamIssue(kind, n)] + IssuesOf(p.segments);
  }

  lemma AfterDeliver(goal: Parsed, frames: seq<Frame>, issues: seq<StreamIssue>, buffer: seq<byte>, limit: nat,
                     frame: Frame, n: nat)
    requires Progress(goal, frames, issues, buffer, limit) && Next(buffer, limit) == Deliver(frame, n)
    ensures n <= |buffer| && Progress(goal, frames + [frame], issues, buffer[n..], limit)
  {
    var p := Parse(buffer[n..], limit);
    assert ([Got(frame)] + p.segments)[1..] == p.segments;
    assert FramesOf([Got(frame)] + p.segments) == [frame] + FramesOf(p.segments);
    assert IssuesOf([Got(frame)] + p.segments) == IssuesOf(p.segments);
  }

  lemma Finished(goal: Parsed, frames: seq<Frame>, issues: seq<StreamIssue>, buffer: seq<byte>, limit: nat)
    requires Progress(goal, frames, issues, buffer, limit) && Next(buffer, limit).Wait?
    ensures goal.rest == buffer && frames == FramesOf(goal.segments) && issues == IssuesOf(goal.segments)
  {
  }

  lemma FeedOverflows(buffer: seq<byte>, data: seq<byte>, limit: nat)
    requires |buffer| + |data| > limit
    ensures var p := FeedOnce(buffer, data, limit);
      && FramesOf(p.segments) == [] && p.rest == []
      && IssuesOf(p.segments) == [StreamIssue(BufferOverflow, |buffer| + |data|)]
  {
    FlatMapOne(FrameOf, Lost(BufferOverflow, buffer + data));
    FlatMapOne(IssueOf, Lost(BufferOverflow, buffer + data));
  }

  class FrameStreamDecoder {
    const maxBufferBytes: nat
    var buffer: seq<byte>

    /** The buffer holds less than it may, less than a frame, and nothing decodable. */
    predicate Valid()
      reads this
    {
      && maxBufferBytes >= OVERHEAD
      && |buffer| < maxBufferBytes && |buffer| < OVERHEAD + MAX_PAYLOAD
      && Next(buffer, maxBufferBytes).Wait?
    }

    constructor (maxBufferBytes: nat := DEFAULT_LIMIT)
      requires maxBufferBytes >= OVERHEAD
      ensures Valid() && buffer == [] && this.maxBufferBytes == maxBufferBytes
    {
      this.maxBufferBytes := maxBufferBytes;
      buffer := [];
    }

    method Reset()
      requires Valid()
      modifies this
      ensures Valid() && buffer == []
    {
      buffer := [];
    }

    /** Drops the garbage in front of the magic, or all but a final 'R' when there is none. */
    method Resynchronise() returns (discarded: nat)
      requires |buffer| >= 2 && !MagicAt(buffer, 0)
      modifies this
      ensures Next(old(buffer), maxBufferBytes) == Drop(Desync, discarded)
      ensures buffer == old(buffer)[discarded..]
    {
      var magicIndex := Find(buffer);
      if magicIndex == -1 {
        var keep := if buffer[|buffer| - 1] == MAGIC[0] then 1 else 0;
        discarded := |buffer| - keep;
      } else {
        discarded := magicIndex;
      }
      buffer := buffer[discarded..];
    }

    /** Deals with a buffer that starts with the magic and holds a complete header. */
    method DecodeFront() returns (outcome: Action)
      requires |buffer| >= HEADER_SIZE && MagicAt(buffer, 0)
      modifies this
      ensures outcome == Next(old(buffer), maxBufferBytes)
      ensures buffer == if outcome.Wait? then old(buffer) else old(buffer)[outcome.count..]
    {
      if !HeaderValid(buffer) {
        buffer := buffer[1..];
        return Drop(InvalidHeader, 1);
      }
      var frameSize := OVERHEAD + ReadU16(buffer, 6);
      if frameSize > maxBufferBytes {
        buffer := buffer[1..];
        return Drop(InvalidHeader, 1);
      }
      if |buffer| < frameSize {
        return Wait;
      }
      match Decode(buffer[..frameSize]) {
        case Ok(frame) =>
          buffer := buffer[frameSize..];
          return Deliver(frame, frameSize);
        case Err(error) =>
          if error.ChecksumMismatch? {
            buffer := buffer[frameSize..];
            return Drop(IssueKind.ChecksumMismatch, frameSize);
          } else {
            buffer := buffer[1..];
            return Drop(InvalidFrame, 1);
          }
      }
    }

    method Feed(data: seq<byte>) returns (batch: DecodeBatch)
      requires Valid()
      modifies this
      ensures Valid()
      ensures var p := FeedOnce(old(buffer), data, maxBufferBytes);
        buffer == p.rest && batch == DecodeBatch(FramesOf(p.segments), IssuesOf(p.segments), |p.rest|)
      ensures |old(buffer)| + |data|
           == FrameBytes(batch.frames) + IssueBytes(batch.issues) + batch.buffered
    {
      FeedAccountsForEveryByte(buffer, data, maxBufferBytes);
      if |buffer| + |data| > maxBufferBytes {
        var discarded := |buffer| + |data|;
        FeedOverflows(buffer, data, maxBufferBytes);
        buffer := [];
        return DecodeBatch([], [StreamIssue(BufferOverflow, discarded)], 0);
      }

      ParseSettles(buffer + data, maxBufferBytes);
      buffer := buffer + data;
      ghost var goal := Parse(buffer, maxBufferBytes);
      var frames, issues := DecodeAll(goal);
      batch := DecodeBatch(frames, issues, |buffer|);
    }

    /** The decoding loop of `Feed`. */
    method DecodeAll(ghost goal: Parsed) returns (frames: seq<Frame>, issues: seq<StreamIssue>)
      requires goal == Parse(buffer, maxBufferBytes)
      modifies this
      ensures frames == FramesOf(goal.segments) && issues == IssuesOf(goal.segments) && buffer == goal.rest
    {
      frames, issues := [], [];
      while true
        invariant Progress(goal, frames, issues, buffer, maxBufferBytes)
        decreases |buffer|
      {
        if |buffer| < 2 {
          break;
        }
        ghost var before := buffer;
        if !MagicAt(buffer, 0) {
          var discarded := Resynchronise();
          AfterDrop(goal, frames, issues, before, maxBufferBytes, Desync, discarded);
          issues := issues + [StreamIssue(Desync, discarded)];
        }
        if |buffer| < HEADER_SIZE {
          break;
        }
        before := buffer;
        var outcome := DecodeFront();
        match outcome {
          case Wait =>
            break;
          case Drop(kind, n) =>
            AfterDrop(goal, frames, issues, before, maxBufferBytes, kind, n);
            issues := issues + [StreamIssue(kind, n)];
          case Deliver(frame, n) =>
            AfterDeliver(goal, frames, issues, before, maxBufferBytes, frame, n);
            frames := frames + [frame];
        }
      }
      Finished(goal, frames, issues, buffer, maxBufferBytes);
    }
  }
}
