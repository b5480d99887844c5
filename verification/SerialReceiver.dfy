/** The firmware's byte-at-a-time frame receiver and its acknowledgements. */
module SerialReceiver {
  import opened Bytes
  import opened Folds
  import opened Framing
  import M = Messages
  import opened FirmwareRuntime
  import opened Stream
  import opened Traffic

  const CAPACITY: nat := OVERHEAD + MAX_PAYLOAD

  datatype Receiver = Receiver(held: seq<byte>, expected: nat)

  const IDLE := Receiver([], 0)

  /** A partial frame starts with the magic and knows its size once its header is complete. */
  predicate Sound(r: Receiver) {
    && (|r.held| >= 1 ==> r.held[0] == MAGIC[0])
    && (|r.held| >= 2 ==> r.held[1] == MAGIC[1])
    && (|r.held| < HEADER_SIZE ==> r.expected == 0)
    && (|r.held| >= HEADER_SIZE ==>
          r.expected == OVERHEAD + ReadU16(r.held, 6) && |r.held| < r.expected <= CAPACITY)
  }

  /** One byte: the next state, and the completed frame if there is one. */
  function Accept(r: Receiver, b: byte): (Receiver, Option<seq<byte>>) {
    if |r.held| == 0 && b != MAGIC[0] then (r, None)
    else if |r.held| == 1 && b != MAGIC[1] then (if b == MAGIC[0] then r.(held := [b]) else IDLE, None)
    else if |r.held| >= CAPACITY then (IDLE, None)
    else
      var h := r.held + [b];
      if |h| == HEADER_SIZE && ReadU16(h, 6) > MAX_PAYLOAD then (IDLE, None)
      else
        var e := if |h| == HEADER_SIZE then OVERHEAD + ReadU16(h, 6) else r.expected;
        if e > 0 && |h| == e then (IDLE, Some(h)) else (Receiver(h, e), None)
  }

  lemma AcceptKeepsSound(r: Receiver, b: byte)
    requires Sound(r)
    ensures Sound(Accept(r, b).0) && |r.held| < CAPACITY
    ensures Accept(r, b).1.Some? ==> OVERHEAD <= |Accept(r, b).1.value| <= CAPACITY
  {
  }

  /** Which reply a handled frame gets; frames that do not parse get none. */
  function StatusFor(result: DispatchResult): M.AckStatus {
    match result
    case HeartbeatAccepted => M.AckOk
    case EstopLatched => M.AckOk
    case MotionDeferred => M.AckOk
    case MotionRejectedUnsafe => M.Rejected
    case RejectedReplay => M.Stale
    case _ => M.Invalid
  }

  function ReplyFrame(request: u16, status: M.AckStatus, number: u16): seq<byte> {
    Encode(AnyFrame.Frame(if status.AckOk? then Ack else Nack, number, WriteU16(request) + [status.Code()]))
  }

  /** The controller, everything written so far, and the number of the next reply. */
  datatype Desk = Desk(mcu: Mcu, written: seq<byte>, number: u16)

  /** After the reply to a handled frame, if it gets one. */
  function Replied(mcu: Mcu, written: seq<byte>, number: u16, request: u16, result: DispatchResult): Desk {
    if result.RejectedInvalidFrame? then Desk(mcu, written, number)
    else Desk(mcu, written + ReplyFrame(request, StatusFor(result), number), (number + 1) % 0x1_0000)
  }

  /** A complete frame is handled and, if it parses, answered. */
  function Answered(desk: Desk, data: seq<byte>, nowMs: u32): Desk
    requires |data| >= OVERHEAD
  {
    var (mcu, result) := AfterMessage(desk.mcu, MeaningOf(data), nowMs);
    Replied(mcu, desk.written, desk.number, ReadU16(data, 4), result)
  }

  predicate Complete(frames: seq<seq<byte>>) {
    forall f :: f in frames ==> |f| >= OVERHEAD
  }

  /** Frames completed in one pass of the main loop are handled in order, at the same clock. */
  function AnsweredAll(desk: Desk, frames: seq<seq<byte>>, nowMs: u32): Desk
    requires Complete(frames)
  {
    if frames == [] then desk
    else Answered(AnsweredAll(desk, frames[..|frames| - 1], nowMs), frames[|frames| - 1], nowMs)
  }

  function AcceptAll(r: Receiver, data: seq<byte>): (Receiver, seq<seq<byte>>)
    decreases |data|
  {
    if data == [] then (r, [])
    else
      var (next, frame) := Accept(r, data[0]);
      var (last, frames) := AcceptAll(next, data[1..]);
      (last, Listed(frame) + frames)
  }

  function Listed(frame: Option<seq<byte>>): seq<seq<byte>> {
    match frame case None => [] case Some(f) => [f]
  }

  lemma {:induction false} AcceptedAreComplete(r: Receiver, data: seq<byte>)
    requires Sound(r)
    ensures Sound(AcceptAll(r, data).0) && Complete(AcceptAll(r, data).1)
    decreases |data|
  {
    if data != [] {
      AcceptKeepsSound(r, data[0]);
      AcceptedAreComplete(Accept(r, data[0]).0, data[1..]);
    }
  }

  class SerialPort {
    const buffer: array<byte>
    var length: nat
    var expected: nat
    var txSequence: u16
    const runtime: RobotRuntime
    /** Everything passed to Serial.write. */
    var written: seq<byte>

    predicate Valid()
      reads this, buffer
    {
      buffer.Length == CAPACITY && length <= CAPACITY && Sound(View())
    }

    function View(): Receiver
      reads this, buffer
      requires length <= buffer.Length
    {
      Receiver(buffer[..length], expected)
    }

    constructor (runtime: RobotRuntime)
      ensures Valid() && View() == IDLE && this.runtime == runtime && txSequence == 0 && written == []
    {
      this.runtime := runtime;
      buffer := new byte[CAPACITY](_ => 0);
      length, expected, txSequence, written := 0, 0, 0, [];
    }

    function Standing(): Desk
      reads this, runtime
    {
      Desk(runtime.View(), written, txSequence)
    }

    method ResetReceiveBuffer()
      requires length <= buffer.Length
      modifies this`length, this`expected
      ensures length <= buffer.Length && View() == IDLE
    {
      length, expected := 0, 0;
    }

    method SendAcknowledgement(request: u16, result: DispatchResult)
      modifies this`txSequence, this`written
      ensures Standing() == Replied(runtime.View(), old(written), old(txSequence), request, result)
    {
      if result.RejectedInvalidFrame? {
        return;
      }
      WriteReply(request, StatusFor(result));
    }

    method WriteReply(request: u16, status: M.AckStatus)
      modifies this`txSequence, this`written
      ensures written == old(written) + ReplyFrame(request, status, old(txSequence))
      ensures txSequence == (old(txSequence) + 1) % 0x1_0000
    {
      var frame := new byte[OVERHEAD + 3];
      var size := BuildAcknowledgement(request, status, txSequence, frame);
      txSequence := (txSequence + 1) % 0x1_0000;
      if size > 0 {
        written := written + frame[..size];
      }
    }

    static method BuildAcknowledgement(request: u16, status: M.AckStatus, number: u16, frame: array<byte>)
      returns (size: nat)
      requires frame.Length == OVERHEAD + 3
      modifies frame
      ensures size == frame.Length && frame[..size] == ReplyFrame(request, status, number)
    {
      var payload := WriteU16(request) + [status.Code()];
      assert payload[..3] == payload;
      size := BuildFrame(if status.AckOk? then Ack else Nack, number, Some(payload), 3, frame, frame.Length);
      assert |frame[..size]| == size;
    }

    method IngestByte(value: byte, nowMs: u32)
      requires Valid() && (runtime as object) != this
      modifies this, buffer, runtime
      ensures Valid()
      ensures View() == Accept(old(View()), value).0
      ensures match Accept(old(View()), value).1
              case None => Standing() == old(Standing())
              case Some(data) => |data| >= OVERHEAD && Standing() == Answered(old(Standing()), data, nowMs)
    {
      AcceptKeepsSound(View(), value);
      if length == 0 && value != MAGIC[0] {
        return;
      }
      if length == 1 && value != MAGIC[1] {
        Resynchronise(value);
        return;
      }
      if length >= CAPACITY {
        // The buffer would be reset here; a sound partial frame never gets this long.
        assert false;
      }
      var complete := StoreByte(value);
      if complete {
        HandleReceived(nowMs);
      }
    }

    /** The second byte is not the magic's: it may be its first, or the buffer is dropped. */
    method Resynchronise(value: byte)
      requires Valid() && length == 1
      modifies this`length, this`expected, buffer
      ensures Valid() && View() == if value == MAGIC[0] then Receiver([value], old(expected)) else IDLE
    {
      if value == MAGIC[0] {
        buffer[0] := value;
        assert buffer[..length] == [value];
        return;
      }
      ResetReceiveBuffer();
    }

    /** The rest of IngestByte for a byte that belongs to a frame: store it, and see whether the frame is complete. */
    method StoreByte(value: byte) returns (complete: bool)
      requires Valid() && length < CAPACITY
      requires (length == 0 ==> value == MAGIC[0]) && (length == 1 ==> value == MAGIC[1])
      modifies this`length, this`expected, buffer
      ensures length <= CAPACITY
      ensures match Accept(old(View()), value).1
              case Some(data) => complete && buffer[..length] == data
              case None => !complete && View() == Accept(old(View()), value).0
    {
      ghost var held := buffer[..length];
      buffer[length] := value;
      length := length + 1;
      assert buffer[..length] == held + [value];
      if length == HEADER_SIZE {
        var payloadLength := ReadU16(buffer[..length], 6);
        if payloadLength > MAX_PAYLOAD {
          ResetReceiveBuffer();
          return false;
        }
        expected := OVERHEAD + payloadLength;
      }
      complete := expected > 0 && length == expected;
    }

    /** A complete frame: dispatch it, answer it, start over. */
    method HandleReceived(nowMs: u32)
      requires OVERHEAD <= length <= buffer.Length && (runtime as object) != this
      modifies this`length, this`expected, this`txSequence, this`written, runtime
      ensures length <= buffer.Length && View() == IDLE
      ensures Standing() == Answered(old(Standing()), old(buffer[..length]), nowMs)
    {
      var data := buffer[..length];
      var result := runtime.HandleFrame(data, nowMs);
      SendAcknowledgement(ReadU16(data, 4), result);
      ResetReceiveBuffer();
    }

    /** One pass of the main loop: all bytes that are there, then the watchdog, at one reading of the clock. */
    method Loop(incoming: seq<byte>, nowMs: u32)
      requires Valid() && (runtime as object) != this
      modifies this, buffer, runtime
      ensures Valid() && View() == AcceptAll(old(View()), incoming).0
      ensures Complete(AcceptAll(old(View()), incoming).1)
      ensures Standing() == Passed(old(Standing()), AcceptAll(old(View()), incoming).1, nowMs)
    {
      IngestAll(incoming, nowMs);
      runtime.Tick(nowMs);
    }

    /** The while loop over the bytes that are there. */
    method IngestAll(incoming: seq<byte>, nowMs: u32)
      requires Valid() && (runtime as object) != this
      modifies this, buffer, runtime
      ensures Valid() && View() == AcceptAll(old(View()), incoming).0
      ensures Complete(AcceptAll(old(View()), incoming).1)
      ensures Standing() == AnsweredAll(old(Standing()), AcceptAll(old(View()), incoming).1, nowMs)
    {
      ghost var start, desk := View(), Standing();
      var taken := 0;
      assert incoming[..0] == [];
      while taken < |incoming|
        invariant taken <= |incoming| && Valid() && Handled(start, desk, incoming[..taken], nowMs, View(), Standing())
      {
        ghost var held, before := View(), Standing();
        IngestByte(incoming[taken], nowMs);
        OneMoreByte(start, desk, incoming, taken, nowMs, held, before, View(), Standing());
        taken := taken + 1;
      }
      assert incoming[..|incoming|] == incoming;
    }
  }

  /** The frames of one pass, and then the watchdog. */
  function Passed(desk: Desk, frames: seq<seq<byte>>, nowMs: u32): Desk
    requires Complete(frames)
  {
    var after := AnsweredAll(desk, frames, nowMs);
    after.(mcu := AfterTick(after.mcu, nowMs))
  }

  /** Where these bytes lead: all of them received, and every frame they complete handled. */
  predicate Handled(start: Receiver, desk: Desk, data: seq<byte>, nowMs: u32, r: Receiver, after: Desk) {
    && r == AcceptAll(start, data).0 && Complete(AcceptAll(start, data).1)
    && after == AnsweredAll(desk, AcceptAll(start, data).1, nowMs)
  }

  /** One more byte, and the frame it completes, if it does. */
  lemma OneMoreByte(start: Receiver, desk: Desk, incoming: seq<byte>, taken: nat, nowMs: u32,
                    held: Receiver, before: Desk, r: Receiver, after: Desk)
    requires taken < |incoming| && Sound(start) && Handled(start, desk, incoming[..taken], nowMs, held, before)
    requires r == Accept(held, incoming[taken]).0
    requires match Accept(held, incoming[taken]).1
             case None => after == before
             case Some(data) => |data| >= OVERHEAD && after == Answered(before, data, nowMs)
    ensures Handled(start, desk, incoming[..taken + 1], nowMs, r, after)
  {
    var frames, frame := AcceptAll(start, incoming[..taken]).1, Accept(held, incoming[taken]).1;
    assert incoming[..taken + 1] == incoming[..taken] + [incoming[taken]];
    AcceptConcat(start, incoming[..taken], [incoming[taken]]);
    AcceptOne(held, incoming[taken]);
    AcceptedAreComplete(start, incoming[..taken + 1]);
    AnsweredOneMore(desk, frames, frame, nowMs);
  }

  lemma AnsweredOneMore(desk: Desk, frames: seq<seq<byte>>, frame: Option<seq<byte>>, nowMs: u32)
    requires Complete(frames) && Complete(frames + Listed(frame))
    ensures frame.Some? ==> |frame.value| >= OVERHEAD
    ensures AnsweredAll(desk, frames + Listed(frame), nowMs)
         == if frame.Some? then Answered(AnsweredAll(desk, frames, nowMs), frame.value, nowMs)
            else AnsweredAll(desk, frames, nowMs)
  {
    var all := frames + Listed(frame);
    if frame.Some? {
      assert all[|frames|] == frame.value && all[..|frames|] == frames;
    } else {
      assert all == frames;
    }
  }

  // ---- Whole streams

  lemma AcceptOne(r: Receiver, b: byte)
    ensures AcceptAll(r, [b]) == (Accept(r, b).0, Listed(Accept(r, b).1))
  {
    assert [b][1..] == [];
    assert Listed(Accept(r, b).1) + [] == Listed(Accept(r, b).1);
  }

  lemma {:induction false} AcceptConcat(r: Receiver, a: seq<byte>, b: seq<byte>)
    ensures var (mid, first) := AcceptAll(r, a);
      var (last, second) := AcceptAll(mid, b);
      AcceptAll(r, a + b) == (last, first + second)
    decreases |a|
  {
    if a == [] {
      assert a + b == b;
      assert [] + AcceptAll(r, b).1 == AcceptAll(r, b).1;
    } else {
      assert (a + b)[1..] == a[1..] + b;
      var (next, frame) := Accept(r, a[0]);
      AcceptConcat(next, a[1..], b);
      var (mid, first) := AcceptAll(next, a[1..]);
      var second := AcceptAll(mid, b).1;
      assert Listed(frame) + (first + second) == (Listed(frame) + first) + second;
    }
  }

  /** Bytes that the receiver takes for a frame. It looks at the magic and the payload length only. */
  predicate Framed(e: seq<byte>) {
    && |e| >= OVERHEAD && MagicAt(e, 0)
    && |e| == OVERHEAD + ReadU16(e, 6) && |e| <= CAPACITY
  }

  lemma EncodingIsFramed(f: Frame)
    ensures Framed(Encode(f))
  {
    EncodingHeader(f, []);
    assert Encode(f) + [] == Encode(f);
  }

  /** The receiver having taken the first n of such bytes. */
  function Partway(e: seq<byte>, n: nat): Receiver
    requires n < |e|
  {
    Receiver(e[..n], if n < HEADER_SIZE then 0 else |e|)
  }

  lemma PrefixHeader(e: seq<byte>, n: nat)
    requires n <= |e| && HEADER_SIZE <= |e|
    ensures n >= HEADER_SIZE ==> ReadU16(e[..n], 6) == ReadU16(e, 6)
  {
  }

  lemma ByteTaken(e: seq<byte>, n: nat)
    requires Framed(e) && n < |e|
    ensures Accept(Partway(e, n), e[n]) == if n + 1 == |e| then (IDLE, Some(e)) else (Partway(e, n + 1), None)
  {
    PrefixHeader(e, n + 1);
    assert e[..n] + [e[n]] == e[..n + 1];
    if n + 1 == |e| {
      assert e[..n + 1] == e;
    }
  }

  lemma {:induction false} TakenWhole(e: seq<byte>, n: nat)
    requires Framed(e) && n < |e|
    ensures AcceptAll(Partway(e, n), e[n..]) == (IDLE, [e])
    decreases |e| - n
  {
    ByteTaken(e, n);
    assert e[n..][0] == e[n] && e[n..][1..] == e[n + 1..];
    if n + 1 < |e| {
      TakenWhole(e, n + 1);
      assert [] + [e] == [e];
    } else {
      assert e[n + 1..] == [];
      assert AcceptAll(IDLE, e[n + 1..]) == (IDLE, []);
      assert [e] + [] == [e];
    }
  }

  /** The state after line noise: idle, or holding a last byte that may begin the magic. */
  function AfterNoise(g: seq<byte>): Receiver {
    if g != [] && g[|g| - 1] == MAGIC[0] then Receiver([MAGIC[0]], 0) else IDLE
  }

  lemma {:induction false} NoiseAccepted(g: seq<byte>, n: nat)
    requires Noise(g) && n <= |g|
    ensures AcceptAll(IDLE, g[..n]) == (AfterNoise(g[..n]), [])
    decreases n
  {
    if n > 0 {
      NoiseAccepted(g, n - 1);
      assert g[..n] == g[..n - 1] + [g[n - 1]];
      AcceptConcat(IDLE, g[..n - 1], [g[n - 1]]);
      AcceptOne(AfterNoise(g[..n - 1]), g[n - 1]);
      NoiseByte(g, n - 1);
      assert [] + Listed(None) == [];
    }
  }

  lemma NoiseByte(g: seq<byte>, n: nat)
    requires Noise(g) && n < |g|
    ensures Accept(AfterNoise(g[..n]), g[n]) == (AfterNoise(g[..n + 1]), None)
  {
    assert [] + [g[n]] == [g[n]];
    if n >= 1 {
      assert !MagicAt(g + MAGIC, n - 1);
      assert (g + MAGIC)[n - 1] == g[n - 1] && (g + MAGIC)[n] == g[n];
    }
  }

  /** Nothing held, or one byte that may begin the magic: the next frame, whatever it is, is received whole. */
  lemma FrameFromShort(r: Receiver, e: seq<byte>)
    requires Sound(r) && |r.held| <= 1 && Framed(e)
    ensures AcceptAll(r, e) == (IDLE, [e])
  {
    assert e[..1] == [e[0]];
    TakenWhole(e, 1);
    assert e[0] == MAGIC[0] != MAGIC[1];
    assert [] + [e[0]] == [MAGIC[0]];
    assert r == IDLE || r == Receiver([MAGIC[0]], 0);
    assert Accept(r, e[0]) == (Partway(e, 1), None);
    assert [] + [e] == [e];
  }

  /** Noise that completes no frame and leaves at most a first magic byte held. */
  predicate Harmless(g: seq<byte>) {
    var (r, frames) := AcceptAll(IDLE, g);
    frames == [] && |r.held| <= 1
  }

  lemma NoiseIsHarmless(g: seq<byte>)
    requires Noise(g)
    ensures Harmless(g)
  {
    NoiseAccepted(g, |g|);
    assert g[..|g|] == g;
  }

  predicate AllHarmless(items: seq<Item>) {
    forall i :: i in items ==> Harmless(i.noise)
  }

  lemma HarmlessThenFrame(g: seq<byte>, f: Frame)
    requires Harmless(g)
    ensures AcceptAll(IDLE, g + Encode(f)) == (IDLE, [Encode(f)])
  {
    AcceptedAreComplete(IDLE, g);
    EncodingIsFramed(f);
    FrameFromShort(AcceptAll(IDLE, g).0, Encode(f));
    AcceptConcat(IDLE, g, Encode(f));
    assert [] + [Encode(f)] == [Encode(f)];
  }

  /** Frames separated by harmless noise are handed to HandleFrame exactly as transmitted, in order. */
  lemma {:induction false} FirmwareHandles(items: seq<Item>)
    requires AllHarmless(items)
    ensures AcceptAll(IDLE, Wire(items)) == (IDLE, Encodings(items))
  {
    if items != [] {
      assert items[0] in items;
      FirmwareHandles(items[1..]);
      FirstItemHandled(items[0], Wire(items[1..]), Encodings(items[1..]));
    }
  }

  lemma FirstItemHandled(item: Item, later: seq<byte>, encodings: seq<seq<byte>>)
    requires Harmless(item.noise) && AcceptAll(IDLE, later) == (IDLE, encodings)
    ensures AcceptAll(IDLE, ItemBytes(item) + later) == (IDLE, [Encode(item.frame)] + encodings)
  {
    HarmlessThenFrame(item.noise, item.frame);
    AcceptConcat(IDLE, ItemBytes(item), later);
  }

  /**
   Firmware and host make the same of any sequence of frames separated by noise without a magic: the firmware hands
   exactly the transmitted encodings to HandleFrame, the host decodes exactly the same frames.
   */
  lemma ReceiversAgree(items: seq<Item>, limit: nat)
    requires Noisy(items, limit)
    ensures AcceptAll(IDLE, Wire(items)) == (IDLE, Encodings(items))
    ensures FramesOf(Parse(Wire(items), limit).segments) == Sent(items)
    ensures |Encodings(items)| == |Sent(items)|
    ensures forall i :: 0 <= i < |Sent(items)| ==> Encodings(items)[i] == Encode(Sent(items)[i])
  {
    NoiseIsSkipped(items, limit);
    forall i | i in items
      ensures Harmless(i.noise)
    {
      NoiseIsHarmless(i.noise);
    }
    FirmwareHandles(items);
    EncodingsOfSent(items);
  }

  lemma {:induction false} EncodingsOfSent(items: seq<Item>)
    ensures |Encodings(items)| == |Sent(items)|
    ensures forall i :: 0 <= i < |Sent(items)| ==> Encodings(items)[i] == Encode(Sent(items)[i])
  {
    if items != [] {
      EncodingsOfSent(items[1..]);
    }
  }

  function ItemEncoding(item: Item): seq<seq<byte>> {
    [Encode(item.frame)]
  }

  function Encodings(items: seq<Item>): seq<seq<byte>> {
    FlatMap(ItemEncoding, items)
  }
}
