/** The protocol v1 frame: host codec, firmware builder and parser. */
module Framing {
  import opened Bytes
  import opened Checksum

  const MAGIC: seq<byte> := [0x52, 0x43]
  const VERSION: byte := 1
  const HEADER_SIZE: nat := 8
  const OVERHEAD: nat := 10
  const MAX_PAYLOAD: nat := 512

  datatype MessageType =
    | GloveTelemetry | Heartbeat | ValidatedMotionCommand | Estop | Ack | Nack | RobotTelemetry
  {
    function Code(): byte {
      match this
      case GloveTelemetry => 1
      case Heartbeat => 2
      case ValidatedMotionCommand => 3
      case Estop => 4
      case Ack => 5
      case Nack => 6
      case RobotTelemetry => 7
    }
  }

  function MessageTypeOf(code: byte): (t: Option<MessageType>)
    ensures forall m: MessageType :: t == Some(m) <==> code == m.Code()
  {
    match code
    case 1 => Some(GloveTelemetry)
    case 2 => Some(Heartbeat)
    case 3 => Some(ValidatedMotionCommand)
    case 4 => Some(Estop)
    case 5 => Some(Ack)
    case 6 => Some(Nack)
    case 7 => Some(RobotTelemetry)
    case _ => None
  }

  datatype AnyFrame = Frame(messageType: MessageType, sequence: u16, payload: seq<byte>)

  /** Construction rejects an oversized payload, so every frame can be encoded. */
  type Frame = f: AnyFrame | |f.payload| <= MAX_PAYLOAD witness AnyFrame.Frame(Ack, 0, [])

  datatype DecodeError =
    | Truncated | InvalidMagic | UnsupportedVersion | PayloadTooLarge | LengthMismatch
    | UnknownType | ChecksumMismatch

  function Body(f: Frame): (s: seq<byte>)
    ensures |s| == HEADER_SIZE + |f.payload|
  {
    MAGIC + [VERSION, f.messageType.Code()] + WriteU16(f.sequence) + WriteU16(|f.payload|)
    + f.payload
  }

  function WireSize(f: Frame): nat {
    OVERHEAD + |f.payload|
  }

  function Encode(f: Frame): (s: seq<byte>)
    ensures |s| == WireSize(f)
  {
    Body(f) + WriteU16(Crc(Body(f)))
  }

  function Decode(data: seq<byte>): Result<Frame, DecodeError> {
    if |data| < OVERHEAD then Err(Truncated)
    else if data[..2] != MAGIC then Err(InvalidMagic)
    else if data[2] != VERSION then Err(UnsupportedVersion)
    else if ReadU16(data, 6) > MAX_PAYLOAD then Err(PayloadTooLarge)
    else if |data| != OVERHEAD + ReadU16(data, 6) then Err(LengthMismatch)
    else if MessageTypeOf(data[3]).None? then Err(UnknownType)
    else if ReadU16(data, |data| - 2) != Crc(data[..|data| - 2]) then Err(ChecksumMismatch)
    else Ok(AnyFrame.Frame(MessageTypeOf(data[3]).value, ReadU16(data, 4), data[8..|data| - 2]))
  }

  lemma BodyLayout(f: Frame, s: seq<byte>)
    requires |s| == HEADER_SIZE + |f.payload|
    ensures s == Body(f) <==>
      && s[..2] == MAGIC && s[2] == VERSION && s[3] == f.messageType.Code()
      && ReadU16(s, 4) == f.sequence && ReadU16(s, 6) == |f.payload| && s[8..] == f.payload
  {
    U16RoundTrip(f.sequence, s, 4);
    U16RoundTrip(|f.payload|, s, 6);
    var b := Body(f);
    assert b[..2] == MAGIC && b[2] == VERSION && b[3] == f.messageType.Code();
    assert b[4..6] == WriteU16(f.sequence) && b[6..8] == WriteU16(|f.payload|);
    assert b[8..] == f.payload;
    assert s == s[..2] + [s[2], s[3]] + s[4..6] + s[6..8] + s[8..];
  }

  /** A byte string is an encoding if its body is right and the checksum of that follows. */
  lemma EncodingParts(f: Frame, data: seq<byte>)
    requires |data| == WireSize(f)
    ensures var n := |data| - 2;
      data == Encode(f) <==> data[..n] == Body(f) && ReadU16(data, n) == Crc(data[..n])
  {
    var n := |data| - 2;
    U16RoundTrip(Crc(data[..n]), data, n);
    assert data[n..n + 2] == data[n..];
    assert data == data[..n] + data[n..];
    assert Encode(f)[..n] == Body(f) && Encode(f)[n..] == WriteU16(Crc(Body(f)));
  }

  /** The decoder accepts exactly the encodings, each as the frame it encodes. */
  lemma DecodeInvertsEncode(f: Frame, data: seq<byte>)
    ensures Decode(data) == Ok(f) <==> data == Encode(f)
  {
    if |data| == WireSize(f) {
      EncodingFields(f, data);
    }
  }

  /** An encoding, field by field. */
  lemma EncodingFields(f: Frame, data: seq<byte>)
    requires |data| == WireSize(f)
    ensures var n := |data| - 2;
      data == Encode(f) <==>
        && data[..2] == MAGIC && data[2] == VERSION && data[3] == f.messageType.Code()
        && ReadU16(data, 4) == f.sequence && ReadU16(data, 6) == |f.payload| && data[8..n] == f.payload
        && ReadU16(data, n) == Crc(data[..n])
  {
    var n := |data| - 2;
    EncodingParts(f, data);
    BodyLayout(f, data[..n]);
    assert data[..n][8..] == data[8..n];
    assert data[..n][..2] == data[..2];
  }

  /** A decoder that has seen a whole frame knows it: no encoding is a prefix of another. */
  lemma EncodingsArePrefixFree(f: Frame, g: Frame, x: seq<byte>, y: seq<byte>)
    requires Encode(f) + x == Encode(g) + y
    ensures f == g && x == y
  {
    var s := Encode(f) + x;
    BodyLayout(f, Body(f));
    BodyLayout(g, Body(g));
    assert ReadU16(s, 6) == ReadU16(Body(f), 6);
    assert ReadU16(s, 6) == ReadU16(Body(g), 6);
    assert Encode(f) == s[..|Encode(f)|] == Encode(g);
    assert x == s[|Encode(f)|..] == y;
    DecodeInvertsEncode(f, Encode(f));
    DecodeInvertsEncode(g, Encode(g));
  }

  // ---- Corruption

  lemma AcceptedChecksum(data: seq<byte>)
    requires Decode(data).Ok?
    ensures |data| >= OVERHEAD && data[|data| - 2..] == WriteU16(Crc(data[..|data| - 2]))
  {
    U16RoundTrip(Crc(data[..|data| - 2]), data, |data| - 2);
  }

  /** Changing any single byte of a frame, the checksum included, makes it undecodable. */
  lemma SingleByteCorruptionRejected(f: Frame, data: seq<byte>, at: nat)
    requires |data| == |Encode(f)| && at < |data|
    requires data == Encode(f)[at := data[at]] && data != Encode(f)
    ensures Decode(data).Err?
  {
    if Decode(data).Ok? {
      var n := |data| - 2;
      AcceptedChecksum(data);
      assert Encode(f)[..n] == Body(f) && data == data[..n] + data[n..];
      if at < n {
        assert data[n..] == Encode(f)[n..];
        AdjacentBytesChangeCrc(data[..n], Body(f), at);
      }
    }
  }

  /** So does any change within 16 consecutive bits that the checksum covers. */
  lemma BurstCorruptionRejected(f: Frame, body: seq<byte>, start: nat)
    requires |body| == |Body(f)| && body != Body(f)
    requires forall i :: 0 <= i < 8 * |body| && !(start <= i < start + 16) ==>
      MessageBits(body)[i] == MessageBits(Body(f))[i]
    ensures Decode(body + WriteU16(Crc(Body(f)))).Err?
  {
    var crc := Crc(Body(f));
    var data := body + WriteU16(crc);
    assert data[..|data| - 2] == body && data[|data| - 2..] == WriteU16(crc);
    BurstChangesCrc(body, Body(f), start);
    if Decode(data).Ok? {
      AcceptedChecksum(data);
      WordsDiffer(crc, Crc(body));
    }
  }

  lemma WordsDiffer(a: u16, b: u16)
    requires WriteU16(a) == WriteU16(b)
    ensures a == b
  {
    assert WriteU16(a)[0] == WriteU16(b)[0] && WriteU16(a)[1] == WriteU16(b)[1];
  }

  lemma {:induction false} MessageBitsConcat(a: seq<byte>, b: seq<byte>)
    ensures MessageBits(a + b) == MessageBits(a) + MessageBits(b)
  {
    if b == [] {
      assert a + b == a;
      assert MessageBits(a) + [] == MessageBits(a);
    } else {
      var before, last := b[..|b| - 1], b[|b| - 1];
      MessageBitsConcat(a, before);
      BitsOfLast(a + b);
      BitsOfLast(b);
      assert (a + b)[..|a + b| - 1] == a + before && (a + b)[|a + b| - 1] == last;
      JoinAssociates(MessageBits(a), MessageBits(before), ToBits(last, 8));
    }
  }

  lemma BitsOfLast(b: seq<byte>)
    requires b != []
    ensures MessageBits(b) == MessageBits(b[..|b| - 1]) + ToBits(b[|b| - 1], 8)
  {
  }

  lemma JoinAssociates(a: seq<bool>, b: seq<bool>, c: seq<bool>)
    ensures (a + b) + c == a + (b + c)
  {
  }

  lemma OddWord(v: u16)
    ensures Odd(MessageBits(WriteU16(v))) == Odd(ToBits(v, 16))
  {
    var low, high := v % 0x100, v / 0x100;
    FromBitsBound([]);
    ToBitsJoined(high, low, 8, 8);
    OddConcat(ToBits(high, 8), ToBits(low, 8));
    assert WriteU16(v)[..1] == [low];
    assert MessageBits([low]) == ToBits(low, 8);
    OddConcat(ToBits(low, 8), ToBits(high, 8));
  }

  /** Every decodable byte string has an even number of one bits ... */
  lemma AcceptedFramesAreEven(data: seq<byte>)
    requires Decode(data).Ok?
    ensures !Odd(MessageBits(data))
  {
    var body := Body(Decode(data).value);
    DecodeInvertsEncode(Decode(data).value, data);
    MessageBitsConcat(body, WriteU16(Crc(body)));
    OddConcat(MessageBits(body), MessageBits(WriteU16(Crc(body))));
    OddWord(Crc(body));
    CrcKeepsParity(body);
  }

  /** ... so flipping an odd number of bits anywhere in a frame is always noticed. */
  lemma OddBitErrorsRejected(f: Frame, data: seq<byte>)
    requires |data| == |Encode(f)|
    requires Odd(XorBits(MessageBits(data), MessageBits(Encode(f))))
    ensures Decode(data).Err?
  {
    if Decode(data).Ok? {
      DecodeInvertsEncode(f, Encode(f));
      AcceptedFramesAreEven(data);
      AcceptedFramesAreEven(Encode(f));
      OddXor(MessageBits(data), MessageBits(Encode(f)));
    }
  }

  // ---- Firmware

  datatype ParsedFrame = ParsedFrame(messageType: MessageType, sequence: u16, payload: seq<byte>)

  function ParseFrame(data: seq<byte>): Option<ParsedFrame> {
    if |data| < OVERHEAD then None
    else if data[0] != MAGIC[0] || data[1] != MAGIC[1] || data[2] != VERSION then None
    else
      var payloadLength := ReadU16(data, 6);
      if payloadLength > MAX_PAYLOAD then None
      else if |data| != OVERHEAD + payloadLength then None
      else if ReadU16(data, HEADER_SIZE + payloadLength) != Crc(data[..HEADER_SIZE + payloadLength]) then None
      else
        match MessageTypeOf(data[3])
        case None => None
        case Some(t) =>
          Some(ParsedFrame(t, ReadU16(data, 4), data[HEADER_SIZE..HEADER_SIZE + payloadLength]))
  }

  /** Firmware and host accept the same byte strings and read the same fields from them. */
  lemma ParseFrameAgreesWithDecode(data: seq<byte>)
    ensures match Decode(data)
            case Ok(f) => ParseFrame(data) == Some(ParsedFrame(f.messageType, f.sequence, f.payload))
            case Err(_) => ParseFrame(data).None?
  {
    if |data| >= 2 {
      assert data[..2] == [data[0], data[1]];
    }
  }

  method WriteU16Le(out: array<byte>, at: nat, value: u16)
    requires at + 2 <= out.Length
    modifies out
    ensures out[..] == old(out[..at]) + WriteU16(value) + old(out[at + 2..])
  {
    out[at], out[at + 1] := value % 0x100, value / 0x100;
  }

  method WriteHeader(messageType: MessageType, sequence: u16, payloadLength: u16, out: array<byte>)
    requires payloadLength <= MAX_PAYLOAD && out.Length >= HEADER_SIZE
    modifies out
    ensures out[..HEADER_SIZE] == MAGIC + [VERSION, messageType.Code()] + WriteU16(sequence) + WriteU16(payloadLength)
    ensures out[HEADER_SIZE..] == old(out[HEADER_SIZE..])
  {
    out[0], out[1], out[2], out[3] := MAGIC[0], MAGIC[1], VERSION, messageType.Code();
    assert out[..4] == MAGIC + [VERSION, messageType.Code()];
    WriteU16Le(out, 4, sequence);
    assert out[..6] == MAGIC + [VERSION, messageType.Code()] + WriteU16(sequence);
    assert out[HEADER_SIZE..] == old(out[HEADER_SIZE..]);
    WriteU16Le(out, 6, payloadLength);
  }

  /** Writes a frame into the caller's buffer and returns its size, or 0 with nothing written. */
  method BuildFrame(messageType: MessageType, sequence: u16, payload: Option<seq<byte>>,
                    payloadLength: u16, out: array?<byte>, capacity: nat)
    returns (size: nat)
    requires out != null ==> capacity <= out.Length
    requires payload.Some? ==> payloadLength <= |payload.value|
    modifies out
    ensures size > 0 <==>
      && out != null && payloadLength <= MAX_PAYLOAD && capacity >= OVERHEAD + payloadLength
      && (payloadLength > 0 ==> payload.Some?)
    ensures size == 0 && out != null ==> out[..] == old(out[..])
    ensures size > 0 ==> size <= out.Length && out[size..] == old(out[size..])
    ensures size > 0 ==>
      var content := if payloadLength == 0 then [] else payload.value[..payloadLength];
      out[..size] == Encode(AnyFrame.Frame(messageType, sequence, content))
  {
    if out == null || payloadLength > MAX_PAYLOAD || capacity < OVERHEAD + payloadLength
       || (payloadLength > 0 && payload.None?) {
      return 0;
    }
    ghost var content := if payloadLength == 0 then [] else payload.value[..payloadLength];
    size := OVERHEAD + payloadLength;
    WriteHeader(messageType, sequence, payloadLength, out);
    ghost var header := out[..HEADER_SIZE];
    for i := 0 to payloadLength
      invariant out[..HEADER_SIZE + i] == header + content[..i]
      invariant out[size..] == old(out[size..])
    {
      out[HEADER_SIZE + i] := payload.value[i];
      assert content[..i + 1] == content[..i] + [content[i]];
    }
    var n := HEADER_SIZE + payloadLength;
    assert content[..payloadLength] == content;
    assert out[..n] == Body(AnyFrame.Frame(messageType, sequence, content));
    var crc := Crc16CcittFalse(out[..n]);
    label signed:
    WriteU16Le(out, n, crc);
    assert out[..size] == old@signed(out[..n]) + WriteU16(crc);
  }
}
