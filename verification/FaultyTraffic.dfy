/** What the decoder makes of damaged traffic: what is lost, what is reported, and that all else arrives. */
module FaultyTraffic {
  import opened Bytes
  import opened Folds
  import opened Framing
  import opened Stream
  import opened Chunking
  import opened Traffic

  /**
   One piece of a transmission, behind noise: a frame; bytes with the size and the header of a frame that do not
   decode; or a magic that begins a header no frame has, of which `tail` is everything but the first byte, and reaches
   up to the next piece.
   */
  datatype Piece =
    | Intact(noise: seq<byte>, frame: Frame)
    | Corrupt(noise: seq<byte>, frame: Frame, data: seq<byte>)
    | Mangled(noise: seq<byte>, tail: seq<byte>)

  /** No frame within the bound begins like this. */
  ghost predicate NoSuchHeader(head: seq<byte>, limit: nat)
    requires |head| >= 8
  {
    forall f: Frame :: WireSize(f) <= limit ==> Encode(f)[..8] != head[..8]
  }

  ghost predicate Proper(p: Piece, limit: nat) {
    Noise(p.noise) &&
    match p
    case Intact(_, f) => WireSize(f) <= limit
    case Corrupt(_, f, data) =>
      WireSize(f) <= limit && |data| == WireSize(f) && data[..8] == Encode(f)[..8] && Decode(data).Err?
    case Mangled(_, tail) => |tail| >= 7 && tail[0] == MAGIC[1] && NoSuchHeader([MAGIC[0]] + tail, limit) && Noise(tail)
  }

  function Content(p: Piece): seq<byte> {
    match p
    case Intact(_, f) => Encode(f)
    case Corrupt(_, _, data) => data
    case Mangled(_, tail) => [MAGIC[0]] + tail
  }

  function PieceBytes(p: Piece): seq<byte> {
    p.noise + Content(p)
  }

  function Transmission(pieces: seq<Piece>): seq<byte> {
    FlatMap(PieceBytes, pieces)
  }

  /** What should arrive. */
  function PieceFrames(p: Piece): seq<Frame> {
    if p.Intact? then [p.frame] else []
  }

  /** What should be reported: noise, a corrupt frame whole, and a bad header by one byte with its tail as noise. */
  function PieceIssues(p: Piece): seq<StreamIssue> {
    NoiseIssues(p) + ContentIssues(p)
  }

  function NoiseIssues(p: Piece): seq<StreamIssue> {
    if p.noise == [] then [] else [StreamIssue(Desync, |p.noise|)]
  }

  function ContentIssues(p: Piece): seq<StreamIssue> {
    match p
    case Intact(_, _) => []
    case Corrupt(_, _, data) => [StreamIssue(IssueKind.ChecksumMismatch, |data|)]
    case Mangled(_, tail) => [StreamIssue(InvalidHeader, 1), StreamIssue(Desync, |tail|)]
  }

  /** The tail of a mangled piece reaches up to the next piece, and there is one. */
  predicate WellCut(pieces: seq<Piece>) {
    forall i :: 0 <= i < |pieces| && pieces[i].Mangled? ==> i + 1 < |pieces| && pieces[i + 1].noise == []
  }

  // ---- One segment at the front

  lemma LostIsReported(kind: IssueKind, b: seq<byte>, p: Parsed)
    ensures var q := Prepend(Lost(kind, b), p);
      && FramesOf(q.segments) == FramesOf(p.segments)
      && IssuesOf(q.segments) == [StreamIssue(kind, |b|)] + IssuesOf(p.segments) && q.rest == p.rest
  {
    assert ([Lost(kind, b)] + p.segments)[1..] == p.segments;
  }

  lemma NoiseThenMagic(g: seq<byte>, s: seq<byte>, limit: nat)
    requires Noise(g) && g != [] && |s| >= 2 && s[..2] == MAGIC
    ensures Parse(g + s, limit) == Prepend(Lost(Desync, g), Parse(s, limit))
  {
    forall j | 0 <= j <= |g|
      ensures MagicAt(g + s, j) <==> j == |g|
    {
      assert MagicAt(g + s, j) <==> MagicAt(g + MAGIC, j);
    }
    FindUnique(g + s, |g|);
    ParseDrop(g + s, Desync, |g|, limit);
    assert (g + s)[|g|..] == s && (g + s)[..|g|] == g;
  }

  lemma HeaderOf(f: Frame, s: seq<byte>)
    requires |s| >= 8 && s[..8] == Encode(f)[..8]
    ensures MagicAt(s, 0) && HeaderValid(s) && ReadU16(s, 6) == |f.payload|
  {
    EncodingHeader(f, []);
    var e := Encode(f);
    assert e + [] == e;
    assert forall i :: 0 <= i < 8 ==> s[i] == s[..8][i] == e[i];
  }

  lemma CorruptIsDropped(f: Frame, data: seq<byte>, x: seq<byte>, limit: nat)
    requires Proper(Corrupt([], f, data), limit)
    ensures Parse(data + x, limit) == Prepend(Lost(IssueKind.ChecksumMismatch, data), Parse(x, limit))
  {
    var s := data + x;
    assert s[..8] == data[..8];
    HeaderOf(f, s);
    assert s[..|data|] == data && s[|data|..] == x;
    ValidHeaderDecodes(s, limit);
    ParseDrop(s, IssueKind.ChecksumMismatch, |data|, limit);
  }

  /** A valid header is the header of a frame. */
  lemma FrameWithHeader(s: seq<byte>) returns (f: Frame)
    requires |s| >= 8 && MagicAt(s, 0) && HeaderValid(s)
    ensures |f.payload| == ReadU16(s, 6) && Encode(f)[..8] == s[..8]
  {
    f := AnyFrame.Frame(MessageTypeOf(s[3]).value, ReadU16(s, 4), seq(ReadU16(s, 6), _ => 0));
    var b := s[..8] + f.payload;
    BodyLayout(f, b);
    assert b[..2] == [s[0], s[1]];
    assert b[8..] == f.payload;
    assert ReadU16(b, 4) == ReadU16(s, 4) && ReadU16(b, 6) == ReadU16(s, 6);
    assert Encode(f)[..8] == Body(f)[..8] == b[..8];
  }

  lemma HeaderIsBad(s: seq<byte>, limit: nat)
    requires |s| >= 8 && MagicAt(s, 0) && NoSuchHeader(s[..8], limit)
    ensures Next(s, limit) == Drop(InvalidHeader, 1)
  {
    if HeaderValid(s) {
      var f := FrameWithHeader(s);
      assert s[..8][..8] == s[..8];
    }
  }

  lemma MangledIsSkipped(tail: seq<byte>, x: seq<byte>, s: seq<byte>, limit: nat)
    requires Proper(Mangled([], tail), limit) && s == [MAGIC[0]] + tail + x
    ensures Parse(s, limit) == Prepend(Lost(InvalidHeader, [MAGIC[0]]), Parse(tail + x, limit))
  {
    assert s[..8] == ([MAGIC[0]] + tail)[..8] && ([MAGIC[0]] + tail)[..8][..8] == s[..8];
    HeaderIsBad(s, limit);
    assert s[1..] == tail + x && s[..1] == [MAGIC[0]];
    FirstDropped(s, InvalidHeader, 1, [MAGIC[0]], tail + x, limit);
  }

  lemma FirstDropped(s: seq<byte>, kind: IssueKind, n: nat, b: seq<byte>, x: seq<byte>, limit: nat)
    requires Next(s, limit) == Drop(kind, n) && n <= |s| && s[..n] == b && s[n..] == x
    ensures Parse(s, limit) == Prepend(Lost(kind, b), Parse(x, limit))
  {
    ParseDrop(s, kind, n, limit);
  }

  // ---- Pieces

  /** p parses to these frames and issues, and then as q. */
  predicate Comes(p: Parsed, frames: seq<Frame>, issues: seq<StreamIssue>, q: Parsed) {
    && FramesOf(p.segments) == frames + FramesOf(q.segments)
    && IssuesOf(p.segments) == issues + IssuesOf(q.segments) && p.rest == q.rest
  }

  lemma ComesThen(p: Parsed, f: seq<Frame>, i: seq<StreamIssue>, q: Parsed, g: seq<Frame>, j: seq<StreamIssue>,
                  r: Parsed)
    requires Comes(p, f, i, q) && Comes(q, g, j, r)
    ensures Comes(p, f + g, i + j, r)
  {
    assert f + (g + FramesOf(r.segments)) == (f + g) + FramesOf(r.segments);
    assert i + (j + IssuesOf(r.segments)) == (i + j) + IssuesOf(r.segments);
  }

  predicate BeginsWithMagic(s: seq<byte>) {
    |s| >= 2 && s[..2] == MAGIC
  }

  lemma NoiseComes(g: seq<byte>, s: seq<byte>, limit: nat)
    requires Noise(g) && BeginsWithMagic(s)
    ensures Comes(Parse(g + s, limit), [], if g == [] then [] else [StreamIssue(Desync, |g|)], Parse(s, limit))
  {
    if g == [] {
      assert g + s == s;
    } else {
      NoiseThenMagic(g, s, limit);
      LostIsReported(Desync, g, Parse(s, limit));
    }
  }

  lemma ContentBegins(p: Piece, x: seq<byte>, limit: nat)
    requires Proper(p, limit)
    ensures BeginsWithMagic(Content(p) + x)
  {
    match p
    case Intact(_, f) => EncodingBegins(f, x);
    case Corrupt(_, f, data) =>
      EncodingBegins(f, []);
      assert (data + x)[..2] == data[..8][..2] == Encode(f)[..8][..2] == (Encode(f) + [])[..2];
    case Mangled(_, tail) => assert ([MAGIC[0]] + tail + x)[..2] == [MAGIC[0], tail[0]];
  }

  lemma EncodingBegins(f: Frame, x: seq<byte>)
    ensures BeginsWithMagic(Encode(f) + x)
  {
    EncodingHeader(f, x);
    var s := Encode(f) + x;
    assert s[..2] == [s[0], s[1]];
  }

  lemma MangledComes(tail: seq<byte>, x: seq<byte>, s: seq<byte>, limit: nat)
    requires Proper(Mangled([], tail), limit) && BeginsWithMagic(x) && s == [MAGIC[0]] + tail + x
    ensures Comes(Parse(s, limit), [], [StreamIssue(InvalidHeader, 1), StreamIssue(Desync, |tail|)], Parse(x, limit))
  {
    MangledIsSkipped(tail, x, s, limit);
    LostIsReported(InvalidHeader, [MAGIC[0]], Parse(tail + x, limit));
    NoiseComes(tail, x, limit);
    ComesThen(Parse(s, limit), [], [StreamIssue(InvalidHeader, 1)], Parse(tail + x, limit),
              [], [StreamIssue(Desync, |tail|)], Parse(x, limit));
    assert [StreamIssue(InvalidHeader, 1)] + [StreamIssue(Desync, |tail|)]
        == [StreamIssue(InvalidHeader, 1), StreamIssue(Desync, |tail|)];
  }

  lemma CorruptComes(f: Frame, data: seq<byte>, x: seq<byte>, s: seq<byte>, limit: nat)
    requires Proper(Corrupt([], f, data), limit) && s == data + x
    ensures Comes(Parse(s, limit), [], [StreamIssue(IssueKind.ChecksumMismatch, |data|)], Parse(x, limit))
  {
    CorruptIsDropped(f, data, x, limit);
    LostIsReported(IssueKind.ChecksumMismatch, data, Parse(x, limit));
  }

  /** What the content of a piece leads to. */
  lemma ContentComes(p: Piece, x: seq<byte>, s: seq<byte>, limit: nat)
    requires Proper(p, limit) && (p.Mangled? ==> BeginsWithMagic(x)) && s == Content(p) + x
    ensures Comes(Parse(s, limit), PieceFrames(p), ContentIssues(p), Parse(x, limit))
  {
    match p
    case Intact(_, f) => FirstOfPrefix(f, x, limit);
    case Corrupt(_, f, data) => CorruptComes(f, data, x, s, limit);
    case Mangled(_, tail) => MangledComes(tail, x, s, limit);
  }

  lemma PieceComes(p: Piece, x: seq<byte>, s: seq<byte>, all: seq<byte>, limit: nat)
    requires Proper(p, limit) && (p.Mangled? ==> BeginsWithMagic(x))
    requires s == Content(p) + x && all == p.noise + s
    ensures Comes(Parse(all, limit), PieceFrames(p), PieceIssues(p), Parse(x, limit))
  {
    ContentBegins(p, x, limit);
    NoiseComes(p.noise, s, limit);
    ContentComes(p, x, s, limit);
    ComesThen(Parse(all, limit), [], NoiseIssues(p), Parse(s, limit), PieceFrames(p), ContentIssues(p),
              Parse(x, limit));
    assert [] + PieceFrames(p) == PieceFrames(p);
  }

  lemma TransmissionBegins(first: Piece, others: seq<Piece>)
    ensures Transmission([first] + others) == first.noise + (Content(first) + Transmission(others))
  {
    FlatMapConcat(PieceBytes, [first], others);
    FlatMapOne(PieceBytes, first);
  }

  /** p and q parse what all these pieces, and all but the first, spell. */
  lemma Gather(first: Piece, others: seq<Piece>, p: Parsed, q: Parsed)
    requires Comes(p, PieceFrames(first), PieceIssues(first), q) && Contained(others, q)
    ensures Contained([first] + others, p)
  {
    FlatMapConcat(PieceFrames, [first], others);
    FlatMapOne(PieceFrames, first);
    FlatMapConcat(PieceIssues, [first], others);
    FlatMapOne(PieceIssues, first);
  }

  /** Exactly the intact frames, in order; exactly these issues, in order; nothing left. */
  predicate Contained(pieces: seq<Piece>, p: Parsed) {
    && FramesOf(p.segments) == FlatMap(PieceFrames, pieces)
    && IssuesOf(p.segments) == FlatMap(PieceIssues, pieces)
    && p.rest == []
  }

  ghost predicate AllProper(pieces: seq<Piece>, limit: nat) {
    WellCut(pieces) && forall p :: p in pieces ==> Proper(p, limit)
  }

  lemma OthersAreProper(pieces: seq<Piece>, limit: nat)
    requires AllProper(pieces, limit) && pieces != []
    ensures Proper(pieces[0], limit) && AllProper(pieces[1..], limit)
    ensures pieces[0].Mangled? ==> BeginsWithMagic(Transmission(pieces[1..]))
  {
    assert pieces[0] in pieces;
    assert forall i :: 0 <= i < |pieces[1..]| ==> pieces[1..][i] == pieces[i + 1];
    if pieces[0].Mangled? {
      assert pieces[1] in pieces;
      NextBegins(pieces[1..], limit);
    }
  }

  /**
   Of any damaged transmission, exactly the intact frames arrive, in order. Reported are, in order, exactly the noise,
   each corrupt frame once with its whole size, and each bad header with one byte. Nothing stays behind.
   */
  lemma {:induction false} DamageIsContained(pieces: seq<Piece>, limit: nat)
    requires AllProper(pieces, limit)
    ensures Contained(pieces, Parse(Transmission(pieces), limit))
    decreases |pieces|
  {
    if pieces != [] {
      var first, others := pieces[0], pieces[1..];
      OthersAreProper(pieces, limit);
      DamageIsContained(others, limit);
      TransmissionBegins(first, others);
      var x := Transmission(others);
      PieceComes(first, x, Content(first) + x, Transmission([first] + others), limit);
      Gather(first, others, Parse(Transmission([first] + others), limit), Parse(x, limit));
      assert pieces == [first] + others;
    }
  }

  lemma NextBegins(pieces: seq<Piece>, limit: nat)
    requires pieces != [] && pieces[0].noise == [] && Proper(pieces[0], limit)
    ensures BeginsWithMagic(Transmission(pieces))
  {
    ContentBegins(pieces[0], Transmission(pieces[1..]), limit);
    assert PieceBytes(pieces[0]) == Content(pieces[0]);
  }

  /** The frames that arrive, and the bytes lost to each cause, are the same in whatever chunks the bytes come. */
  lemma DamageInChunks(pieces: seq<Piece>, chunks: seq<seq<byte>>, limit: nat)
    requires AllProper(pieces, limit) && Join(chunks) == Transmission(pieces) && NoOverflow([], chunks, limit)
    ensures FramesOf(FeedAll([], chunks, limit).segments) == FlatMap(PieceFrames, pieces)
    ensures forall kind :: kind != Desync ==>
      Discarded(FeedAll([], chunks, limit).segments, kind)
        == Discarded(Parse(Transmission(pieces), limit).segments, kind)
  {
    DamageIsContained(pieces, limit);
    ChunkingDoesNotMatter([], chunks, limit);
    assert [] + Join(chunks) == Join(chunks);
    var whole, cut := Parse(Transmission(pieces), limit), FeedAll([], chunks, limit);
    forall kind | kind != Desync
      ensures Discarded(cut.segments, kind) == Discarded(whole.segments, kind)
    {
      assert Doomed(whole, kind) == Doomed(cut, kind);
    }
  }

  /** An overflow is reported if and only if buffer and data together exceed the bound; then all of both is lost. */
  lemma OverflowExactly(buffer: seq<byte>, data: seq<byte>, limit: nat)
    ensures var p := FeedOnce(buffer, data, limit);
      && ((exists s :: s in p.segments && s.Lost? && s.kind == BufferOverflow) <==> |buffer| + |data| > limit)
      && (|buffer| + |data| > limit ==>
            FramesOf(p.segments) == [] && IssuesOf(p.segments) == [StreamIssue(BufferOverflow, |buffer| + |data|)]
            && p.rest == [])
  {
    if |buffer| + |data| > limit {
      FlatMapOne(FrameOf, Lost(BufferOverflow, buffer + data));
      FlatMapOne(IssueOf, Lost(BufferOverflow, buffer + data));
      assert Lost(BufferOverflow, buffer + data) in FeedOnce(buffer, data, limit).segments;
    } else {
      InvalidFrameUnreachable(buffer + data, limit);
    }
  }
}
