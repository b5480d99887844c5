/** What the decoder makes of well-formed traffic, whole or cut short, with or without line noise. */
module Traffic {
  import opened Bytes
  import opened Folds
  import opened Framing
  import opened Stream
  import opened Chunking

  function EncodeAll(frames: seq<Frame>): seq<byte> {
    FlatMap(Encode, frames)
  }

  lemma EncodeAllAppend(frames: seq<Frame>, f: Frame)
    ensures EncodeAll(frames + [f]) == EncodeAll(frames) + Encode(f)
  {
    FlatMapConcat(Encode, frames, [f]);
    FlatMapOne(Encode, f);
  }

  predicate Fits(frames: seq<Frame>, limit: nat) {
    forall f :: f in frames ==> WireSize(f) <= limit
  }

  /** Bytes in which, followed by a frame, no magic begins. */
  predicate Noise(g: seq<byte>) {
    Find(g + MAGIC) == |g|
  }

  lemma EncodingHeader(f: Frame, x: seq<byte>)
    ensures var s := Encode(f) + x;
      && |s| >= HEADER_SIZE && MagicAt(s, 0) && HeaderValid(s)
      && ReadU16(s, 6) == |f.payload| && s[..|Encode(f)|] == Encode(f)
  {
    BodyLayout(f, Body(f));
    var s := Encode(f) + x;
    assert s[..2] == Body(f)[..2];
    assert s[0] == s[..2][0] && s[1] == s[..2][1];
    assert ReadU16(s, 6) == ReadU16(Body(f), 6);
  }

  /** A complete frame at the front is delivered, whatever follows. */
  lemma ParseFrameFirst(f: Frame, x: seq<byte>, limit: nat)
    requires WireSize(f) <= limit
    ensures Parse(Encode(f) + x, limit) == Prepend(Got(f), Parse(x, limit))
  {
    EncodingHeader(f, x);
    DecodeInvertsEncode(f, Encode(f));
    assert Next(Encode(f) + x, limit) == Deliver(f, |Encode(f)|);
    assert (Encode(f) + x)[|Encode(f)|..] == x;
  }

  /** A frame cut short is kept, without an issue, until the rest arrives. */
  lemma PartialFrameWaits(f: Frame, n: nat, limit: nat)
    requires n < WireSize(f) <= limit
    ensures Parse(Encode(f)[..n], limit) == Parsed([], Encode(f)[..n])
  {
    var s := Encode(f)[..n];
    EncodingHeader(f, []);
    assert Encode(f) + [] == Encode(f);
    if n >= HEADER_SIZE {
      assert ReadU16(s, 6) == ReadU16(Encode(f), 6);
    }
  }

  /**
   Any prefix of clean traffic: the frames completed so far, in order, nothing reported, and the
   beginning of the next frame held back.
   */
  lemma {:induction false} CleanPrefix(frames: seq<Frame>, n: nat, limit: nat) returns (k: nat)
    requires Fits(frames, limit) && n <= |EncodeAll(frames)|
    ensures k <= |frames| && CutAt(frames, n, limit, k)
  {
    if frames == [] {
      k := 0;
    } else {
      var later := EncodeAll(frames[1..]);
      assert frames[0] in frames;
      if n < WireSize(frames[0]) {
        k := 0;
        CutFirst(frames, n, limit);
      } else {
        k := CleanPrefix(frames[1..], n - WireSize(frames[0]), limit);
        CutLater(frames, n, limit, k);
        k := k + 1;
      }
    }
  }

  /** The first n bytes of these frames contain k whole ones and the beginning of the next. */
  predicate CutAt(frames: seq<Frame>, n: nat, limit: nat, k: nat)
    requires n <= |EncodeAll(frames)| && k <= |frames|
  {
    CutsInto(Parse(EncodeAll(frames)[..n], limit), EncodeAll(frames)[n..], frames, k)
  }

  /** The parse delivered k of these frames; its residual begins the next one, and what is still to come ends it. */
  predicate CutsInto(p: Parsed, later: seq<byte>, frames: seq<Frame>, k: nat)
    requires k <= |frames|
  {
    && FramesOf(p.segments) == frames[..k] && IssuesOf(p.segments) == []
    && p.rest + later == EncodeAll(frames[k..])
    && |p.rest| < (if k < |frames| then WireSize(frames[k]) else 1)
  }

  lemma CutFirst(frames: seq<Frame>, n: nat, limit: nat)
    requires frames != [] && n < WireSize(frames[0]) <= limit && n <= |EncodeAll(frames)|
    ensures CutAt(frames, n, limit, 0)
  {
    var all := EncodeAll(frames);
    assert all[..n] == Encode(frames[0])[..n];
    PartialFrameWaits(frames[0], n, limit);
    assert all[..n] + all[n..] == all;
  }

  lemma CutLater(frames: seq<Frame>, n: nat, limit: nat, k: nat)
    requires frames != [] && WireSize(frames[0]) <= limit && WireSize(frames[0]) <= n <= |EncodeAll(frames)|
    requires k < |frames| && CutAt(frames[1..], n - WireSize(frames[0]), limit, k)
    ensures CutAt(frames, n, limit, k + 1)
  {
    var f, others, m := frames[0], frames[1..], n - WireSize(frames[0]);
    SplitTraffic(frames, n);
    var x := EncodeAll(others)[..m];
    FirstOfPrefix(f, x, limit);
    CutsOneMore(frames, Parse(Encode(f) + x, limit), Parse(x, limit), EncodeAll(frames)[n..], k);
  }

  lemma CutsOneMore(frames: seq<Frame>, p: Parsed, q: Parsed, later: seq<byte>, k: nat)
    requires frames != [] && k < |frames| && CutsInto(q, later, frames[1..], k)
    requires FramesOf(p.segments) == [frames[0]] + FramesOf(q.segments)
    requires IssuesOf(p.segments) == IssuesOf(q.segments) && p.rest == q.rest
    ensures CutsInto(p, later, frames, k + 1)
  {
    assert [frames[0]] + frames[1..][..k] == frames[..k + 1] && frames[1..][k..] == frames[k + 1..];
  }

  /** A whole frame in front of x is delivered first, and the rest is as without it. */
  lemma FirstOfPrefix(f: Frame, x: seq<byte>, limit: nat)
    requires WireSize(f) <= limit
    ensures var p, q := Parse(Encode(f) + x, limit), Parse(x, limit);
      && FramesOf(p.segments) == [f] + FramesOf(q.segments)
      && IssuesOf(p.segments) == IssuesOf(q.segments) && p.rest == q.rest
  {
    ParseFrameFirst(f, x, limit);
    GotFirst(f, Parse(x, limit));
  }

  lemma SplitTraffic(frames: seq<Frame>, n: nat)
    requires frames != [] && WireSize(frames[0]) <= n <= |EncodeAll(frames)|
    ensures var later, m := EncodeAll(frames[1..]), n - WireSize(frames[0]);
      && m <= |later|
      && EncodeAll(frames)[..n] == Encode(frames[0]) + later[..m]
      && EncodeAll(frames)[n..] == later[m..]
  {
    assert EncodeAll(frames) == Encode(frames[0]) + EncodeAll(frames[1..]);
  }

  lemma GotFirst(f: Frame, p: Parsed)
    ensures FramesOf(Prepend(Got(f), p).segments) == [f] + FramesOf(p.segments)
    ensures IssuesOf(Prepend(Got(f), p).segments) == IssuesOf(p.segments)
    ensures forall kind :: Discarded(Prepend(Got(f), p).segments, kind) == Discarded(p.segments, kind)
  {
    assert ([Got(f)] + p.segments)[1..] == p.segments;
    assert IssueOf(Got(f)) + IssuesOf(p.segments) == IssuesOf(p.segments);
  }

  // ---- Noise between frames

  datatype Item = Item(noise: seq<byte>, frame: Frame)

  function ItemBytes(item: Item): seq<byte> {
    item.noise + Encode(item.frame)
  }

  function ItemFrame(item: Item): seq<Frame> {
    [item.frame]
  }

  function NoiseSize(item: Item): nat {
    |item.noise|
  }

  function Wire(items: seq<Item>): seq<byte> {
    FlatMap(ItemBytes, items)
  }

  function Sent(items: seq<Item>): seq<Frame> {
    FlatMap(ItemFrame, items)
  }

  predicate Noisy(items: seq<Item>, limit: nat) {
    forall i :: i in items ==> Noise(i.noise) && WireSize(i.frame) <= limit
  }

  lemma NoiseThenFrame(g: seq<byte>, f: Frame, x: seq<byte>, limit: nat)
    requires Noise(g) && g != []
    ensures Parse(g + (Encode(f) + x), limit) == Prepend(Lost(Desync, g), Parse(Encode(f) + x, limit))
  {
    var s := Encode(f) + x;
    EncodingHeader(f, x);
    assert s[..2] == MAGIC;
    forall j | 0 <= j <= |g|
      ensures MagicAt(g + s, j) <==> j == |g|
    {
      assert MagicAt(g + s, j) <==> MagicAt(g + MAGIC, j);
    }
    FindUnique(g + s, |g|);
    assert (g + s)[|g|..] == s && (g + s)[..|g|] == g;
  }

  /** Every frame sent through noise is delivered, and exactly the noise is reported lost. */
  lemma {:induction false} NoiseIsSkipped(items: seq<Item>, limit: nat)
    requires Noisy(items, limit)
    ensures var p := Parse(Wire(items), limit);
      && FramesOf(p.segments) == Sent(items) && p.rest == []
      && forall kind :: Discarded(p.segments, kind) == if kind == Desync then Sum(NoiseSize, items) else 0
  {
    if items != [] {
      var g, f, x := items[0].noise, items[0].frame, Wire(items[1..]);
      assert items[0] in items;
      NoiseIsSkipped(items[1..], limit);
      var p := Parse(x, limit);
      ParseFrameFirst(f, x, limit);
      GotFirst(f, p);
      assert Wire(items) == g + (Encode(f) + x);
      if g == [] {
        assert Wire(items) == Encode(f) + x;
      } else {
        NoiseThenFrame(g, f, x, limit);
        LostFirst(g, Prepend(Got(f), p));
      }
    }
  }

  lemma LostFirst(g: seq<byte>, p: Parsed)
    ensures var q := Prepend(Lost(Desync, g), p);
      && FramesOf(q.segments) == FramesOf(p.segments)
      && forall kind :: Discarded(q.segments, kind) == Discarded(p.segments, kind) + if kind == Desync then |g| else 0
  {
    var s := Lost(Desync, g);
    assert ([s] + p.segments)[1..] == p.segments;
    assert FrameOf(s) + FramesOf(p.segments) == FramesOf(p.segments);
  }
}
