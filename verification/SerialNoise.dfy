/**
 Noise that contains a magic: the firmware's receiver believes any length behind it, and can swallow a frame that the
 host, which checks the header first, still finds. Exactly which noise is harmless to the firmware is proved.
 */
module SerialNoise {
  import opened Bytes
  import opened Folds
  import opened Framing
  import opened Stream
  import opened Chunking
  import opened Traffic
  import opened SerialReceiver

  function Length(frame: seq<byte>): nat {
    |frame|
  }

  /** The receiver hands over no more bytes than it got. */
  lemma {:induction false} HandedOver(r: Receiver, data: seq<byte>)
    ensures Sum(Length, AcceptAll(r, data).1) <= |r.held| + |data|
    decreases |data|
  {
    if data != [] {
      var (next, frame) := Accept(r, data[0]);
      HandedOver(next, data[1..]);
      SumConcat(Length, Listed(frame), AcceptAll(next, data[1..]).1);
      assert Sum(Length, Listed(frame)) + |next.held| <= |r.held| + 1;
    }
  }

  lemma {:induction false} HandedOne(frames: seq<seq<byte>>, e: seq<byte>)
    requires e in frames
    ensures |e| <= Sum(Length, frames)
  {
    if frames[0] != e {
      assert e in frames[1..];
      HandedOne(frames[1..], e);
    }
  }

  /** Too few bytes for e. */
  lemma NoRoomFor(data: seq<byte>, e: seq<byte>)
    requires |data| < |e|
    ensures e !in AcceptAll(IDLE, data).1
  {
    HandedOver(IDLE, data);
    if e in AcceptAll(IDLE, data).1 {
      HandedOne(AcceptAll(IDLE, data).1, e);
    }
  }

  /** With a header complete, the next frame handed over has the size announced there, whatever comes. */
  lemma {:induction false} AnnouncedSize(r: Receiver, data: seq<byte>)
    requires Sound(r) && |r.held| >= HEADER_SIZE
    ensures var frames := AcceptAll(r, data).1; frames != [] ==> |frames[0]| == r.expected
    decreases |data|
  {
    if data != [] {
      AcceptKeepsSound(r, data[0]);
      var (next, frame) := Accept(r, data[0]);
      if frame.None? {
        AnnouncedSize(next, data[1..]);
        assert [] + AcceptAll(next, data[1..]).1 == AcceptAll(next, data[1..]).1;
      }
    }
  }

  /** The bytes that complete a header complete no frame; afterwards the header is held, or everything was dropped. */
  lemma {:induction false} HeaderCompletes(r: Receiver, data: seq<byte>)
    requires Sound(r) && 2 <= |r.held| <= HEADER_SIZE && |data| == HEADER_SIZE - |r.held|
    ensures var (q, frames) := AcceptAll(r, data);
      frames == [] && (|r.held| == HEADER_SIZE || q == IDLE || |q.held| == HEADER_SIZE)
      && (|r.held| == HEADER_SIZE ==> q == r)
    decreases |data|
  {
    if data != [] {
      AcceptKeepsSound(r, data[0]);
      var next := Accept(r, data[0]).0;
      if |data| == 1 {
        assert data[1..] == [];
      } else {
        HeaderCompletes(next, data[1..]);
      }
    }
  }

  /** Once the header is complete, only a frame of the announced size can be handed over first. */
  lemma SizeIsAnnounced(r: Receiver, e: seq<byte>, c: nat, q: Receiver)
    requires Sound(r) && |r.held| >= 2 && c <= |e| && q == AcceptAll(r, e[..c]).0
    requires c == if |r.held| >= HEADER_SIZE then 0 else HEADER_SIZE - |r.held|
    ensures AcceptAll(r, e).1 == [e] ==> q.expected == |e|
  {
    AcceptedAreComplete(r, e[..c]);
    if c == 0 {
      assert AcceptAll(r, e[..c]) == (r, []);
    } else {
      HeaderCompletes(r, e[..c]);
    }
    assert e == e[..c] + e[c..];
    AcceptConcat(r, e[..c], e[c..]);
    var frames := AcceptAll(q, e[c..]).1;
    assert AcceptAll(r, e).1 == [] + frames == frames;
    FirstHasSize(q, e[c..], e);
  }

  /** Holding a header, the receiver hands over a frame of the announced size first; idle, it has no room for e. */
  lemma FirstHasSize(q: Receiver, data: seq<byte>, e: seq<byte>)
    requires Sound(q) && (|q.held| >= HEADER_SIZE || (q == IDLE && |data| < |e|))
    ensures AcceptAll(q, data).1 == [e] ==> q.expected == |e|
  {
    if |q.held| >= HEADER_SIZE {
      AnnouncedSize(q, data);
    } else {
      NoRoomFor(data, e);
      assert e in [e];
    }
  }

  /** A receiver that holds more than one byte cannot take two frames of different size that begin alike. */
  lemma OneSizeForBoth(r: Receiver, e: seq<byte>, f: seq<byte>)
    requires Sound(r) && |r.held| >= 2 && |e| != |f| && |e| >= OVERHEAD && |f| >= OVERHEAD && e[..6] == f[..6]
    ensures AcceptAll(r, e).1 != [e] || AcceptAll(r, f).1 != [f]
  {
    var c := if |r.held| >= HEADER_SIZE then 0 else HEADER_SIZE - |r.held|;
    assert e[..c] == e[..6][..c] == f[..6][..c] == f[..c];
    SizeIsAnnounced(r, e, c, AcceptAll(r, e[..c]).0);
    SizeIsAnnounced(r, f, c, AcceptAll(r, e[..c]).0);
  }

  ghost predicate TakesEveryFrame(r: Receiver) {
    forall f: Frame :: AcceptAll(r, Encode(f)) == (IDLE, [Encode(f)])
  }

  lemma EncodingBegins(f: Frame)
    ensures |Encode(f)| == WireSize(f) >= OVERHEAD
    ensures Encode(f)[..6] == MAGIC + [VERSION, f.messageType.Code()] + WriteU16(f.sequence)
  {
  }

  /** Two frames of different size that begin alike. */
  lemma TwoSizes() returns (f: Frame, g: Frame)
    ensures |Encode(f)| != |Encode(g)| && |Encode(f)| >= OVERHEAD && |Encode(g)| >= OVERHEAD
    ensures Encode(f)[..6] == Encode(g)[..6]
  {
    f, g := AnyFrame.Frame(Heartbeat, 0, []), AnyFrame.Frame(Heartbeat, 0, [0]);
    EncodingBegins(f);
    EncodingBegins(g);
  }

  /** Every frame is received whole if and only if at most one byte is held. */
  lemma TakesEveryFrameExactly(r: Receiver)
    requires Sound(r)
    ensures TakesEveryFrame(r) <==> |r.held| <= 1
  {
    if |r.held| <= 1 {
      forall f: Frame
        ensures AcceptAll(r, Encode(f)) == (IDLE, [Encode(f)])
      {
        EncodingIsFramed(f);
        FrameFromShort(r, Encode(f));
      }
    } else {
      var f, g := TwoSizes();
      OneSizeForBoth(r, Encode(f), Encode(g));
    }
  }

  ghost predicate EveryFrameSurvives(g: seq<byte>) {
    forall f: Frame :: AcceptAll(IDLE, g + Encode(f)) == (IDLE, [Encode(f)])
  }

  /** Noise completes no frame and leaves no two bytes held if and only if no frame behind it suffers. */
  lemma HarmlessExactly(g: seq<byte>)
    ensures EveryFrameSurvives(g) <==> Harmless(g)
  {
    var (r, frames) := AcceptAll(IDLE, g);
    AcceptedAreComplete(IDLE, g);
    if Harmless(g) {
      forall f: Frame
        ensures AcceptAll(IDLE, g + Encode(f)) == (IDLE, [Encode(f)])
      {
        HarmlessThenFrame(g, f);
      }
    }
    if EveryFrameSurvives(g) {
      NoFrameBefore(g);
      forall f: Frame
        ensures AcceptAll(r, Encode(f)) == (IDLE, [Encode(f)])
      {
        AcceptConcat(IDLE, g, Encode(f));
        assert [] + AcceptAll(r, Encode(f)).1 == AcceptAll(r, Encode(f)).1;
        assert AcceptAll(IDLE, g + Encode(f)) == (IDLE, [Encode(f)]);
      }
      TakesEveryFrameExactly(r);
    }
  }

  lemma NoFrameBefore(g: seq<byte>)
    requires EveryFrameSurvives(g)
    ensures AcceptAll(IDLE, g).1 == []
  {
    var f, h := TwoSizes();
    var (r, frames) := AcceptAll(IDLE, g);
    AcceptConcat(IDLE, g, Encode(f));
    AcceptConcat(IDLE, g, Encode(h));
    assert AcceptAll(IDLE, g + Encode(f)) == (IDLE, [Encode(f)]);
    assert AcceptAll(IDLE, g + Encode(h)) == (IDLE, [Encode(h)]);
    SameHead(frames, AcceptAll(r, Encode(f)).1, AcceptAll(r, Encode(h)).1);
  }

  lemma SameHead(s: seq<seq<byte>>, x: seq<seq<byte>>, y: seq<seq<byte>>)
    ensures s == [] || (s + x)[0] == (s + y)[0]
  {
  }

  // ---- Where the two receivers differ

  /** A magic, a version and type that do not exist, and a payload length of two. */
  const DECOY: seq<byte> := MAGIC + [0, 0, 0, 0, 2, 0]

  /** Behind it the host finds the next frame; the firmware has taken its first four bytes for the rest of another. */
  lemma ReceiversDiffer(f: Frame, limit: nat)
    requires WireSize(f) <= limit
    ensures FramesOf(Parse(DECOY + Encode(f), limit).segments) == [f]
    ensures Encode(f) !in AcceptAll(IDLE, DECOY + Encode(f)).1
    ensures AcceptAll(IDLE, DECOY + Encode(f)).1 != []
    ensures AcceptAll(IDLE, DECOY + Encode(f)).1[0] == DECOY + Encode(f)[..4]
  {
    HostSkipsDecoy(f, limit);
    EncodingBegins(f);
    assert Encode(f)[..6][2] == VERSION;
    DecoyIsFramed(Encode(f));
    TakenForAnother(DECOY, Encode(f), 4);
  }

  /** The first bytes of e complete something else: e itself is not handed over. */
  lemma TakenForAnother(d: seq<byte>, e: seq<byte>, n: nat)
    requires 0 < n <= |e| && Framed(d + e[..n]) && d + e[..n] != e
    ensures var frames := AcceptAll(IDLE, d + e).1; e !in frames && frames != [] && frames[0] == d + e[..n]
  {
    var taken := d + e[..n];
    TakenWhole(taken, 0);
    assert taken[..0] == [] && taken[0..] == taken;
    assert d + e == taken + e[n..];
    AcceptConcat(IDLE, taken, e[n..]);
    NoRoomFor(e[n..], e);
  }

  lemma DecoyIsFramed(e: seq<byte>)
    requires |e| >= OVERHEAD && e[2] == VERSION
    ensures Framed(DECOY + e[..4]) && DECOY + e[..4] != e
  {
    var taken := DECOY + e[..4];
    assert taken[0] == MAGIC[0] && taken[1] == MAGIC[1] && taken[2] == 0 && taken[6] == 2 && taken[7] == 0;
  }

  /** The host drops the first byte for its header, and then has magic-free noise in front of the frame. */
  lemma HostSkipsDecoy(f: Frame, limit: nat)
    requires WireSize(f) <= limit
    ensures FramesOf(Parse(DECOY + Encode(f), limit).segments) == [f]
  {
    DecoyTailIsNoise();
    HeaderIsInvalid(Encode(f), limit);
    assert (DECOY + Encode(f))[1..] == DECOY[1..] + Encode(f);
    SkipsFirst(DECOY + Encode(f), DECOY[1..], f, limit);
  }

  /** A first byte dropped for its header, and then magic-free noise in front of the frame. */
  lemma SkipsFirst(b: seq<byte>, g: seq<byte>, f: Frame, limit: nat)
    requires Next(b, limit) == Drop(InvalidHeader, 1) && b[1..] == g + Encode(f)
    requires Noise(g) && g != [] && WireSize(f) <= limit
    ensures FramesOf(Parse(b, limit).segments) == [f]
  {
    DropKeepsFrames(b, InvalidHeader, 1, limit);
    FrameAfterNoise(g, f, limit);
  }

  lemma DropKeepsFrames(b: seq<byte>, kind: IssueKind, n: nat, limit: nat)
    requires Next(b, limit) == Drop(kind, n)
    ensures n <= |b| && FramesOf(Parse(b, limit).segments) == FramesOf(Parse(b[n..], limit).segments)
  {
    ParseDrop(b, kind, n, limit);
    PrependLost(kind, b[..n], Parse(b[n..], limit));
  }

  lemma HeaderIsInvalid(e: seq<byte>, limit: nat)
    ensures Next(DECOY + e, limit) == Drop(InvalidHeader, 1)
  {
    var all := DECOY + e;
    assert all[0] == MAGIC[0] && all[1] == MAGIC[1] && all[2] == 0;
  }

  lemma FrameAfterNoise(g: seq<byte>, f: Frame, limit: nat)
    requires Noise(g) && g != [] && WireSize(f) <= limit
    ensures FramesOf(Parse(g + Encode(f), limit).segments) == [f]
  {
    assert Encode(f) + [] == Encode(f);
    NoiseThenFrame(g, f, [], limit);
    ParseFrameFirst(f, [], limit);
    GotFirst(f, Parse([], limit));
    PrependLost(Desync, g, Parse(Encode(f), limit));
  }

  lemma DecoyTailIsNoise()
    ensures Noise(DECOY[1..]) && DECOY[1..] != []
  {
    var g := DECOY[1..];
    assert g + MAGIC == [0x43, 0, 0, 0, 0, 2, 0, 0x52, 0x43];
    assert MagicAt(g + MAGIC, 7);
    FindUnique(g + MAGIC, 7);
  }
}
