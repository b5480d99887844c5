/** Folding a sequence into a sequence or a sum, one element at a time. */
module Folds {

  function FlatMap<A, B>(f: A -> seq<B>, s: seq<A>): seq<B> {
    if s == [] then [] else f(s[0]) + FlatMap(f, s[1..])
  }

  function Sum<A>(f: A -> nat, s: seq<A>): nat {
    if s == [] then 0 else f(s[0]) + Sum(f, s[1..])
  }

  lemma {:induction false} FlatMapConcat<A, B>(f: A -> seq<B>, a: seq<A>, b: seq<A>)
    ensures FlatMap(f, a + b) == FlatMap(f, a) + FlatMap(f, b)
  {
    if a == [] {
      assert a + b == b;
    } else {
      assert (a + b)[1..] == a[1..] + b;
      FlatMapConcat(f, a[1..], b);
    }
  }

  lemma {:induction false} SumConcat<A>(f: A -> nat, a: seq<A>, b: seq<A>)
    ensures Sum(f, a + b) == Sum(f, a) + Sum(f, b)
  {
    if a == [] {
      assert a + b == b;
    } else {
      assert (a + b)[1..] == a[1..] + b;
      SumConcat(f, a[1..], b);
    }
  }

  lemma FlatMapOne<A, B>(f: A -> seq<B>, x: A)
    ensures FlatMap(f, [x]) == f(x)
  {
    assert f(x) + [] == f(x);
  }

  /** Lengths add up, element by element. */
  lemma {:induction false} FlatMapLength<A, B>(f: A -> seq<B>, s: seq<A>)
    ensures |FlatMap(f, s)| == Sum(x => |f(x)|, s)
  {
    if s != [] {
      FlatMapLength(f, s[1..]);
    }
  }

  lemma {:induction false} FlatMapSlices<A, B>(f: A -> seq<B>, s: seq<A>, width: nat)
    requires forall x :: x in s ==> |f(x)| == width
    ensures |FlatMap(f, s)| == |s| * width
    ensures forall i :: 0 <= i < |s| ==>
      0 <= i * width <= i * width + width <= |FlatMap(f, s)|
      && FlatMap(f, s)[i * width..i * width + width] == f(s[i])
  {
    if s != [] {
      assert s[0] in s;
      FlatMapSlices(f, s[1..], width);
      assert |s| * width == width + |s[1..]| * width;
      forall i | 0 <= i < |s|
        ensures 0 <= i * width <= i * width + width <= |FlatMap(f, s)|
        ensures FlatMap(f, s)[i * width..i * width + width] == f(s[i])
      {
        if i > 0 {
          assert s[1..][i - 1] == s[i];
          LaterSlice(f(s[0]), FlatMap(f, s[1..]), f(s[i]), i, width);
        } else {
          assert FlatMap(f, s)[..width] == f(s[0]);
        }
      }
    }
  }

  lemma SliceOfSlice<A>(s: seq<A>, from: nat, to: nat, a: nat, b: nat)
    requires from <= to <= |s| && a <= b <= to - from
    ensures s[from..to][a..b] == s[from + a..from + b]
  {
    var x, y := s[from..to][a..b], s[from + a..from + b];
    forall i | 0 <= i < b - a
      ensures x[i] == y[i]
    {
    }
  }

  lemma LaterSlice<B>(first: seq<B>, others: seq<B>, slice: seq<B>, i: nat, width: nat)
    requires i > 0 && |first| == width
    requires 0 <= (i - 1) * width <= (i - 1) * width + width <= |others|
    requires others[(i - 1) * width..(i - 1) * width + width] == slice
    ensures i * width + width <= |first + others| && (first + others)[i * width..i * width + width] == slice
  {
    var k := (i - 1) * width;
    assert i * width == k + width;
    assert (first + others)[width..] == others;
  }

  /** A sequence cut into equal slices is the concatenation of what the slices encode. */
  lemma {:induction false} FlatMapFromSlices<A, B>(f: A -> seq<B>, s: seq<A>, width: nat, bytes: seq<B>)
    requires |bytes| == |s| * width
    requires forall i :: 0 <= i < |s| ==>
      0 <= i * width <= i * width + width <= |bytes| && bytes[i * width..i * width + width] == f(s[i])
    ensures bytes == FlatMap(f, s)
  {
    if s != [] {
      var rest := bytes[width..];
      assert 0 * width == 0 && bytes[0 * width..0 * width + width] == f(s[0]);
      assert |s| * width == width + |s[1..]| * width;
      forall i | 0 <= i < |s[1..]|
        ensures 0 <= i * width <= i * width + width <= |rest|
        ensures rest[i * width..i * width + width] == f(s[1..][i])
      {
        var k := (i + 1) * width;
        assert k == i * width + width;
        assert bytes[k..k + width] == f(s[i + 1]);
        assert rest[i * width..i * width + width] == bytes[k..k + width];
      }
      FlatMapFromSlices(f, s[1..], width, rest);
      assert bytes == bytes[..width] + rest;
    }
  }
}
