/**
 Where the stream is cut does not matter. The frames are always the same. The discarded totals and
 the residual are the same too, except that one trailing garbage byte may still be buffered in one
 case and already discarded in the other; exactly when that happens is proved.
 */
module Chunking {
  import opened Bytes
  import opened Folds
  import opened Framing
  import opened Stream

  /** A single buffered byte that cannot begin a frame and is bound to be discarded. */
  predicate Lone(rest: seq<byte>) {
    |rest| == 1 && rest[0] != MAGIC[0]
  }

  /** Bytes of `kind` already discarded, or buffered and bound to be. */
  function Doomed(p: Parsed, kind: IssueKind): nat {
    Discarded(p.segments, kind) + if kind == Desync && Lone(p.rest) then 1 else 0
  }

  /** The parse delivered the same frames and accounts for the same losses. */
  predicate Equivalent(p: Parsed, q: Parsed) {
    && FramesOf(p.segments) == FramesOf(q.segments)
    && (forall kind :: Doomed(p, kind) == Doomed(q, kind))
    && (p.rest == q.rest || (p.rest == [] && Lone(q.rest)))
  }

  /** The last thing reported was garbage without any magic in it. */
  predicate EndsInDesync(segments: seq<Segment>) {
    segments != [] && segments[|segments| - 1].Lost? && segments[|segments| - 1].kind == Desync
  }

  function Then(first: Parsed, second: Parsed): Parsed {
    Parsed(first.segments + second.segments, second.rest)
  }

  // ---- Finding the magic in a longer buffer

  lemma FindUnique(s: seq<byte>, at: int)
    requires at >= 0 ==> MagicAt(s, at) && forall j :: 0 <= j < at ==> !MagicAt(s, j)
    requires at < 0 ==> at == -1 && forall j :: !MagicAt(s, j)
    ensures Find(s) == at
  {
  }

  /** Garbage in front moves the first magic by its length, if it starts none itself. */
  lemma FindAfterGarbage(d: seq<byte>, s: seq<byte>)
    requires forall j :: 0 <= j < |d| ==> !MagicAt(d + s, j)
    ensures Find(d + s) == if Find(s) == -1 then -1 else |d| + Find(s)
  {
    forall j
      ensures MagicAt(d + s, j) <==> j >= |d| && MagicAt(s, j - |d|)
    {
    }
    FindUnique(d + s, if Find(s) == -1 then -1 else |d| + Find(s));
  }

  /** Every decision except discarding magic-free garbage is final. */
  lemma NextIsStable(a: seq<byte>, c: seq<byte>, limit: nat)
    requires !Next(a, limit).Wait?
    requires MagicAt(a, 0) || Find(a) != -1
    ensures Next(a + c, limit) == Next(a, limit)
  {
    if MagicAt(a, 0) {
      assert ReadU16(a + c, 6) == ReadU16(a, 6);
      if HeaderValid(a) {
        var size := OVERHEAD + ReadU16(a, 6);
        if size <= limit {
          assert (a + c)[..size] == a[..size];
        }
      }
    } else {
      forall j | 0 <= j <= Find(a)
        ensures MagicAt(a + c, j) <==> MagicAt(a, j)
      {
      }
      FindUnique(a + c, Find(a));
    }
  }

  lemma {:induction false} ParseLosesNothingLone(b: seq<byte>, limit: nat)
    ensures var p := Parse(b, limit); EndsInDesync(p.segments) ==> !Lone(p.rest)
    decreases |b|
  {
    var a := Next(b, limit);
    if !a.Wait? {
      ParseLosesNothingLone(b[a.count..], limit);
      var p := Parse(b[a.count..], limit);
      if p.segments != [] {
        EndsAfterPrepend(SegmentFor(a, b), p.segments);
      }
    }
  }

  // ---- One cut

  /** `whole` against the parse in pieces `cut`, with the exact condition for a different residual. */
  predicate Matches(whole: Parsed, cut: Parsed) {
    && Equivalent(whole, cut)
    && (whole.rest != cut.rest <==> Lone(cut.rest) && EndsInDesync(cut.segments))
  }

  function Prepend(s: Segment, p: Parsed): Parsed {
    Parsed([s] + p.segments, p.rest)
  }

  lemma PrependLost(kind: IssueKind, bytes: seq<byte>, p: Parsed)
    ensures FramesOf(Prepend(Lost(kind, bytes), p).segments) == FramesOf(p.segments)
    ensures forall k :: Doomed(Prepend(Lost(kind, bytes), p), k) == Doomed(p, k) + if k == kind then |bytes| else 0
  {
    var s := Lost(kind, bytes);
    assert ([s] + p.segments)[1..] == p.segments;
    assert FrameOf(s) + FramesOf(p.segments) == FramesOf(p.segments);
  }

  lemma EndsAfterPrepend(s: Segment, t: seq<Segment>)
    requires t != []
    ensures EndsInDesync([s] + t) == EndsInDesync(t)
  {
    assert ([s] + t)[|t|] == t[|t| - 1];
  }

  lemma PrependMatches(s: Segment, whole: Parsed, cut: Parsed)
    requires Matches(whole, cut)
    requires cut.segments == [] ==> whole.rest == cut.rest && !(Lone(cut.rest) && EndsInDesync([s]))
    ensures Matches(Prepend(s, whole), Prepend(s, cut))
  {
    forall kind
      ensures Doomed(Prepend(s, whole), kind) == Doomed(Prepend(s, cut), kind)
    {
      assert Doomed(whole, kind) == Doomed(cut, kind);
    }
    if cut.segments != [] {
      EndsAfterPrepend(s, cut.segments);
    } else {
      assert [s] + cut.segments == [s];
    }
  }

  /** The buffer holds garbage only: all of it goes, but for a final 'R'. */
  lemma GarbageMatches(a: seq<byte>, c: seq<byte>, limit: nat)
    requires |a| >= 2 && !MagicAt(a, 0) && Find(a) == -1
    ensures Matches(Parse(a + c, limit), Then(Parse(a, limit), Parse(Parse(a, limit).rest + c, limit)))
  {
    var n := Next(a, limit).count;
    var d, k := a[..n], a[n..];
    var s := Lost(Desync, d);
    assert Parse(k, limit) == Parsed([], k);
    assert Parse(a, limit) == Parsed([s], k);
    var tail := k + c;
    assert a + c == d + tail;
    forall j | 0 <= j < |d|
      ensures !MagicAt(d + tail, j)
    {
      assert !MagicAt(a, j);
    }
    FindAfterGarbage(d, tail);
    var second := Parse(tail, limit);
    if |tail| < 2 {
      assert second == Parsed([], tail);
      GarbageThenByte(d, tail, limit);
    } else if MagicAt(tail, 0) {
      FindUnique(tail, 0);
      GarbageThenMagic(d, tail, limit);
    } else {
      GarbageThenMore(d, tail, limit);
    }
  }

  lemma GarbageThenByte(d: seq<byte>, tail: seq<byte>, limit: nat)
    requires |d + tail| >= 2 && |tail| < 2 && d != []
    requires Find(d + tail) == -1
    requires tail == [] ==> d[|d| - 1] != MAGIC[0]
    ensures Matches(Parse(d + tail, limit), Parsed([Lost(Desync, d)], tail))
  {
    var whole := d + tail;
    var n := Next(whole, limit).count;
    var p := Parsed([], whole[n..]);
    assert Parse(whole[n..], limit) == p;
    assert Parse(whole, limit) == Prepend(Lost(Desync, whole[..n]), p);
    PrependLost(Desync, whole[..n], p);
    PrependLost(Desync, d, Parsed([], tail));
    assert Parsed([Lost(Desync, d)], tail) == Prepend(Lost(Desync, d), Parsed([], tail));
    if Lone(tail) {
      assert whole[..n] == whole && whole[n..] == [];
    } else {
      assert whole[..n] == d && whole[n..] == tail;
    }
  }

  /** Discarding d + t at once, or d and then t. */
  lemma MergeDesync(d: seq<byte>, t: seq<byte>, p: Parsed, whole: Parsed, later: Parsed)
    requires EndsInDesync(p.segments) || p.segments == [] ==> !Lone(p.rest)
    requires whole == Prepend(Lost(Desync, d + t), p) && later == Prepend(Lost(Desync, t), p)
    ensures Matches(whole, Prepend(Lost(Desync, d), later))
  {
    PrependLost(Desync, d + t, p);
    PrependLost(Desync, t, p);
    PrependLost(Desync, d, later);
    EndsAfterPrepend(Lost(Desync, d), later.segments);
    if p.segments != [] {
      EndsAfterPrepend(Lost(Desync, t), p.segments);
    }
  }

  function GarbageLength(s: seq<byte>): int {
    if Find(s) != -1 then Find(s)
    else |s| - if s != [] && s[|s| - 1] == MAGIC[0] then 1 else 0
  }

  lemma ParseDrop(b: seq<byte>, kind: IssueKind, n: nat, limit: nat)
    requires Next(b, limit) == Drop(kind, n)
    ensures n <= |b| && Parse(b, limit) == Prepend(Lost(kind, b[..n]), Parse(b[n..], limit))
  {
  }

  lemma ParseGarbage(b: seq<byte>, limit: nat)
    requires |b| >= 2 && !MagicAt(b, 0)
    ensures var m := GarbageLength(b);
      && 0 < m <= |b|
      && Next(b, limit) == Drop(Desync, m)
      && Parse(b, limit) == Prepend(Lost(Desync, b[..m]), Parse(b[m..], limit))
  {
    ParseDrop(b, Desync, GarbageLength(b), limit);
  }

  lemma GarbageThenMagic(d: seq<byte>, tail: seq<byte>, limit: nat)
    requires MagicAt(tail, 0) && d != [] && !MagicAt(d + tail, 0)
    requires Find(d + tail) == |d|
    ensures Matches(Parse(d + tail, limit), Prepend(Lost(Desync, d), Parse(tail, limit)))
  {
    var p := Parse(tail, limit);
    ParseDrop(d + tail, Desync, |d|, limit);
    assert (d + tail)[..|d|] == d && (d + tail)[|d|..] == tail;
    ParseLosesNothingLone(tail, limit);
    if p.segments != [] {
      EndsAfterPrepend(Lost(Desync, d), p.segments);
    } else {
      assert p.rest == tail;
    }
  }

  lemma GarbageThenMore(d: seq<byte>, tail: seq<byte>, limit: nat)
    requires |tail| >= 2 && d != [] && !MagicAt(tail, 0) && !MagicAt(d + tail, 0)
    requires Find(d + tail) == if Find(tail) == -1 then -1 else |d| + Find(tail)
    ensures Matches(Parse(d + tail, limit), Prepend(Lost(Desync, d), Parse(tail, limit)))
  {
    var m := GarbageLength(tail);
    ParseGarbage(tail, limit);
    ParseLongerGarbage(d, tail, m, limit);
    AfterDesync(tail, m, limit);
    MergeDesync(d, tail[..m], Parse(tail[m..], limit), Parse(d + tail, limit), Parse(tail, limit));
  }

  lemma ParseLongerGarbage(d: seq<byte>, tail: seq<byte>, m: nat, limit: nat)
    requires |tail| >= 2 && !MagicAt(d + tail, 0) && m <= |tail|
    requires GarbageLength(d + tail) == |d| + m
    ensures Parse(d + tail, limit) == Prepend(Lost(Desync, d + tail[..m]), Parse(tail[m..], limit))
  {
    ParseGarbage(d + tail, limit);
    SplitAfter(d, tail, m);
  }

  lemma SplitAfter(d: seq<byte>, tail: seq<byte>, m: nat)
    requires m <= |tail|
    ensures (d + tail)[|d| + m..] == tail[m..] && (d + tail)[..|d| + m] == d + tail[..m]
  {
  }

  lemma AfterDesync(tail: seq<byte>, m: nat, limit: nat)
    requires Next(tail, limit) == Drop(Desync, m)
    ensures m <= |tail|
    ensures var p := Parse(tail[m..], limit); EndsInDesync(p.segments) || p.segments == [] ==> !Lone(p.rest)
  {
    ParseLosesNothingLone(tail[m..], limit);
  }

  /** Parsing with a pause between a and c, against parsing a + c at once. */
  lemma {:induction false} ParseSplit(a: seq<byte>, c: seq<byte>, limit: nat)
    ensures Matches(Parse(a + c, limit), Then(Parse(a, limit), Parse(Parse(a, limit).rest + c, limit)))
    decreases |a|
  {
    var n := Next(a, limit);
    if n.Wait? {
      var p := Parse(a + c, limit);
      ParseLosesNothingLone(a + c, limit);
      assert Then(Parse(a, limit), p) == Parsed([] + p.segments, p.rest) == p;
    } else if !MagicAt(a, 0) && Find(a) == -1 {
      GarbageMatches(a, c, limit);
    } else {
      ParseSplit(a[n.count..], c, limit);
      SplitAfterSegment(a, c, limit);
    }
  }

  /** The split of a, from that of what follows its first segment. */
  lemma SplitAfterSegment(a: seq<byte>, c: seq<byte>, limit: nat)
    requires !Next(a, limit).Wait? && (MagicAt(a, 0) || Find(a) != -1)
    requires var a' := a[Next(a, limit).count..];
      Matches(Parse(a' + c, limit), Then(Parse(a', limit), Parse(Parse(a', limit).rest + c, limit)))
    ensures Matches(Parse(a + c, limit), Then(Parse(a, limit), Parse(Parse(a, limit).rest + c, limit)))
  {
    var n := Next(a, limit);
    var a', s := a[n.count..], SegmentFor(n, a);
    SameFirstSegment(a, c, limit);
    FirstSegment(a, limit);
    FirstSegment(a + c, limit);
    OnlySegment(a, c, limit);
    var first := Parse(a', limit);
    PrependSplit(s, Parse(a' + c, limit), first, Parse(first.rest + c, limit));
  }

  /** With more input behind it, the first segment of a is the same. */
  lemma SameFirstSegment(a: seq<byte>, c: seq<byte>, limit: nat)
    requires !Next(a, limit).Wait? && (MagicAt(a, 0) || Find(a) != -1)
    ensures var n := Next(a, limit);
      && Next(a + c, limit) == n && SegmentFor(n, a + c) == SegmentFor(n, a)
      && (a + c)[n.count..] == a[n.count..] + c
  {
    NextIsStable(a, c, limit);
    var n := Next(a, limit);
    assert (a + c)[..n.count] == a[..n.count];
  }

  /** If nothing follows the first segment, everything after it is still there, and does not begin with garbage. */
  lemma OnlySegment(a: seq<byte>, c: seq<byte>, limit: nat)
    requires !Next(a, limit).Wait? && (MagicAt(a, 0) || Find(a) != -1)
    ensures var a' := a[Next(a, limit).count..];
      var first := Parse(a', limit);
      var later := Parse(first.rest + c, limit);
      first.segments + later.segments == [] ==>
        && Parse(a' + c, limit).rest == later.rest
        && !(Lone(later.rest) && EndsInDesync([SegmentFor(Next(a, limit), a)]))
  {
    var a' := a[Next(a, limit).count..];
    NothingParsed(a', limit);
    NothingParsed(a' + c, limit);
  }

  lemma FirstSegment(b: seq<byte>, limit: nat)
    requires !Next(b, limit).Wait?
    ensures var n := Next(b, limit); Parse(b, limit) == Prepend(SegmentFor(n, b), Parse(b[n.count..], limit))
  {
  }

  lemma NothingParsed(a: seq<byte>, limit: nat)
    ensures Parse(a, limit).segments == [] ==> Parse(a, limit) == Parsed([], a)
  {
  }

  lemma PrependSplit(s: Segment, whole: Parsed, first: Parsed, later: Parsed)
    requires Matches(whole, Then(first, later))
    requires first.segments + later.segments == [] ==>
      whole.rest == later.rest && !(Lone(later.rest) && EndsInDesync([s]))
    ensures Matches(Prepend(s, whole), Then(Prepend(s, first), later))
  {
    PrependMatches(s, whole, Then(first, later));
    assert [s] + (first.segments + later.segments) == ([s] + first.segments) + later.segments;
  }

  // ---- Any number of cuts

  lemma {:induction false} FlattenAtLeast(segments: seq<Segment>)
    requires forall s :: s in segments ==> Raw(s) != []
    ensures |Flatten(segments)| >= |segments|
  {
    if segments != [] {
      assert segments[0] in segments;
      FlattenAtLeast(segments[1..]);
    }
  }

  lemma {:induction false} FeedAllSubstantial(buffer: seq<byte>, chunks: seq<seq<byte>>, limit: nat)
    requires NoOverflow(buffer, chunks, limit)
    ensures forall s :: s in FeedAll(buffer, chunks, limit).segments ==> Raw(s) != []
    decreases |chunks|
  {
    if chunks != [] {
      InvalidFrameUnreachable(buffer + chunks[0], limit);
      FeedAllSubstantial(FeedOnce(buffer, chunks[0], limit).rest, chunks[1..], limit);
    }
  }

  lemma MatchesCompose(whole: Parsed, first: Parsed, mid: Parsed, others: Parsed)
    requires Matches(whole, Then(first, mid)) && Matches(mid, others)
    requires EndsInDesync(mid.segments) ==> !Lone(mid.rest)
    requires Lone(others.rest) && mid.rest == others.rest ==> (mid.segments == [] <==> others.segments == [])
    ensures Matches(whole, Then(first, others))
  {
    FlatMapConcat(FrameOf, first.segments, mid.segments);
    FlatMapConcat(FrameOf, first.segments, others.segments);
    forall kind
      ensures Doomed(whole, kind) == Doomed(Then(first, others), kind)
    {
      SumConcat(LostTo(kind), first.segments, mid.segments);
      SumConcat(LostTo(kind), first.segments, others.segments);
      assert Doomed(whole, kind) == Doomed(Then(first, mid), kind);
      assert Doomed(mid, kind) == Doomed(others, kind);
    }
    EndsInConcat(first.segments, mid.segments);
    EndsInConcat(first.segments, others.segments);
  }

  lemma EndsInConcat(a: seq<Segment>, b: seq<Segment>)
    ensures EndsInDesync(a + b) == EndsInDesync(if b == [] then a else b)
  {
    if b == [] {
      assert a + b == a;
    } else {
      assert (a + b)[|a + b| - 1] == b[|b| - 1];
    }
  }

  lemma FirstChunk(buffer: seq<byte>, chunks: seq<seq<byte>>, limit: nat)
    requires chunks != [] && NoOverflow(buffer, chunks, limit)
    ensures var first := Parse(buffer + chunks[0], limit);
      && NoOverflow(first.rest, chunks[1..], limit)
      && FeedAll(buffer, chunks, limit) == Then(first, FeedAll(first.rest, chunks[1..], limit))
    ensures buffer + Join(chunks) == (buffer + chunks[0]) + Join(chunks[1..])
  {
  }

  lemma OneMoreChunk(held: seq<byte>, later: seq<byte>, others: Parsed, limit: nat)
    requires var mid := Parse(Parse(held, limit).rest + later, limit);
      && Matches(mid, others)
      && (Lone(others.rest) && mid.rest == others.rest ==> (mid.segments == [] <==> others.segments == []))
    ensures Matches(Parse(held + later, limit), Then(Parse(held, limit), others))
  {
    var first := Parse(held, limit);
    ParseSplit(held, later, limit);
    ParseLosesNothingLone(first.rest + later, limit);
    MatchesCompose(Parse(held + later, limit), first, Parse(first.rest + later, limit), others);
  }

  /**
   However a stream is cut into chunks that do not overflow the buffer, feeding the chunks delivers
   the frames of one pass over the whole and accounts for the same losses of each kind. The residual
   differs just when the chunks end with one byte of garbage buffered right after garbage was reported:
   the single pass has then already discarded it.
   */
  lemma {:induction false} ChunkingDoesNotMatter(buffer: seq<byte>, chunks: seq<seq<byte>>, limit: nat)
    requires Next(buffer, limit).Wait? && NoOverflow(buffer, chunks, limit)
    ensures Matches(Parse(buffer + Join(chunks), limit), FeedAll(buffer, chunks, limit))
    decreases |chunks|
  {
    if chunks == [] {
      assert buffer + Join(chunks) == buffer;
    } else {
      FirstChunk(buffer, chunks, limit);
      var held := buffer + chunks[0];
      var rest := Parse(held, limit).rest;
      ParseWaits(held, limit);
      ChunkingDoesNotMatter(rest, chunks[1..], limit);
      SameCount(rest, chunks[1..], limit);
      OneMoreChunk(held, Join(chunks[1..]), FeedAll(rest, chunks[1..], limit), limit);
    }
  }

  lemma {:induction false} ParseWaits(buffer: seq<byte>, limit: nat)
    ensures Next(Parse(buffer, limit).rest, limit).Wait?
    decreases |buffer|
  {
    if !Next(buffer, limit).Wait? {
      ParseWaits(buffer[Next(buffer, limit).count..], limit);
    }
  }

  lemma SameCount(buffer: seq<byte>, chunks: seq<seq<byte>>, limit: nat)
    requires NoOverflow(buffer, chunks, limit)
    ensures var mid, others := Parse(buffer + Join(chunks), limit), FeedAll(buffer, chunks, limit);
      Lone(others.rest) && mid.rest == others.rest ==> (mid.segments == [] <==> others.segments == [])
  {
    var input := buffer + Join(chunks);
    var mid, others := Parse(input, limit), FeedAll(buffer, chunks, limit);
    ParseConserves(input, limit);
    FeedAllConserves(buffer, chunks, limit);
    InvalidFrameUnreachable(input, limit);
    FeedAllSubstantial(buffer, chunks, limit);
    FlattenAtLeast(mid.segments);
    FlattenAtLeast(others.segments);
  }

  // ---- When the residual differs, from what is known before the last byte arrives

  lemma {:induction false} FeedLast(buffer: seq<byte>, before: seq<seq<byte>>, last: seq<byte>, limit: nat)
    requires NoOverflow(buffer, before + [last], limit)
    ensures NoOverflow(buffer, before, limit)
    ensures var p := FeedAll(buffer, before, limit);
      |p.rest| + |last| <= limit && FeedAll(buffer, before + [last], limit) == Then(p, Parse(p.rest + last, limit))
    decreases |before|
  {
    FirstChunk(buffer, before + [last], limit);
    if before == [] {
      assert before + [last] == [last] && [last][1..] == [];
      var only := Parse(buffer + last, limit);
      assert Then(only, Parsed([], only.rest)) == Parsed(only.segments + [], only.rest)
          == Then(Parsed([], buffer), only);
    } else {
      assert (before + [last])[0] == before[0] && (before + [last])[1..] == before[1..] + [last];
      var first := Parse(buffer + before[0], limit);
      FeedLast(first.rest, before[1..], last, limit);
      FirstChunk(buffer, before, limit);
      ThenAssociates(first, FeedAll(first.rest, before[1..], limit),
                     Parse(FeedAll(first.rest, before[1..], limit).rest + last, limit));
    }
  }

  lemma ThenAssociates(p: Parsed, q: Parsed, r: Parsed)
    ensures Then(p, Then(q, r)) == Then(Then(p, q), r)
  {
    assert p.segments + (q.segments + r.segments) == (p.segments + q.segments) + r.segments;
  }

  lemma {:induction false} FedWaits(buffer: seq<byte>, chunks: seq<seq<byte>>, limit: nat)
    requires Next(buffer, limit).Wait? && NoOverflow(buffer, chunks, limit)
    ensures Next(FeedAll(buffer, chunks, limit).rest, limit).Wait?
    decreases |chunks|
  {
    if chunks != [] {
      ParseWaits(buffer + chunks[0], limit);
      FedWaits(FeedOnce(buffer, chunks[0], limit).rest, chunks[1..], limit);
    }
  }

  /** Nothing is buffered, garbage was the last thing reported, and one byte other than 'R' comes. */
  predicate Strands(p: Parsed, last: seq<byte>) {
    p.rest == [] && EndsInDesync(p.segments) && |last| == 1 && last[0] != MAGIC[0]
  }

  /** The last chunk that is not empty is such a byte, arriving at such a decoder. */
  predicate Stranding(buffer: seq<byte>, chunks: seq<seq<byte>>, limit: nat)
    decreases |chunks|
  {
    chunks != [] &&
    var before, last := chunks[..|chunks| - 1], chunks[|chunks| - 1];
    if last == [] then Stranding(buffer, before, limit) else Strands(FeedAll(buffer, before, limit), last)
  }

  lemma LoneLast(p: Parsed, last: seq<byte>, limit: nat)
    requires last != []
    ensures var q := Then(p, Parse(p.rest + last, limit));
      Lone(q.rest) && EndsInDesync(q.segments) <==> Strands(p, last)
  {
    var later := Parse(p.rest + last, limit);
    NothingParsed(p.rest + last, limit);
    ParseLosesNothingLone(p.rest + last, limit);
    EndsInConcat(p.segments, later.segments);
    if Strands(p, last) {
      assert p.rest + last == last;
      assert later == Parsed([], last);
    }
  }

  lemma {:induction false} LoneExactly(buffer: seq<byte>, chunks: seq<seq<byte>>, limit: nat)
    requires Next(buffer, limit).Wait? && NoOverflow(buffer, chunks, limit)
    ensures var q := FeedAll(buffer, chunks, limit);
      Lone(q.rest) && EndsInDesync(q.segments) <==> Stranding(buffer, chunks, limit)
    decreases |chunks|
  {
    if chunks != [] {
      var before, last := chunks[..|chunks| - 1], chunks[|chunks| - 1];
      assert chunks == before + [last];
      FeedLast(buffer, before, last, limit);
      var p := FeedAll(buffer, before, limit);
      if last == [] {
        LoneExactly(buffer, before, limit);
        FedWaits(buffer, before, limit);
        assert p.rest + last == p.rest && Then(p, Parsed([], p.rest)) == p;
      } else {
        LoneLast(p, last, limit);
      }
    }
  }

  /**
   What is left buffered differs from what a single pass leaves if and only if the last byte arrived by itself, was
   not an 'R', found an empty buffer, and the last thing reported before it was garbage without a magic.
   */
  lemma ResidualDiffersExactly(buffer: seq<byte>, chunks: seq<seq<byte>>, limit: nat)
    requires Next(buffer, limit).Wait? && NoOverflow(buffer, chunks, limit)
    ensures FeedAll(buffer, chunks, limit).rest != Parse(buffer + Join(chunks), limit).rest
       <==> Stranding(buffer, chunks, limit)
  {
    ChunkingDoesNotMatter(buffer, chunks, limit);
    LoneExactly(buffer, chunks, limit);
  }

  /** The residual really can differ: three garbage bytes, cut after the second. */
  lemma ResidualDependsOnChunking(limit: nat)
    requires limit >= 3
    ensures Parse([7, 7, 7], limit).rest == []
    ensures Parse([7, 7], limit).rest == [] && FeedOnce([], [7], limit).rest == [7]
  {
    FindUnique([7, 7, 7], -1);
    FindUnique([7, 7], -1);
    ParseGarbage([7, 7, 7], limit);
    ParseGarbage([7, 7], limit);
    assert [] + [7] == [7];
  }
}
