/**
 CRC-16/CCITT-FALSE. The reference definition is long division of the message's bits by the
 polynomial x^16 + x^12 + x^5 + 1; the host's loop over integers is proved to compute it, and the
 division is what makes the error-detection theorems provable.
 */
module Checksum {
  import opened Bytes

  // ---- Reference: a 16-bit division register, most significant bit first

  type Register = r: seq<bool> | |r| == 16 witness
    [false, false, false, false, false, false, false, false,
     false, false, false, false, false, false, false, false]

  /** 0x1021, without the leading x^16. */
  const POLYNOMIAL: Register :=
    [false, false, false, true, false, false, false, false,
     false, false, true, false, false, false, false, true]

  const ONES: Register := 
    [true, true, true, true, true, true, true, true,
     true, true, true, true, true, true, true, true]

  function XorBits(a: seq<bool>, b: seq<bool>): (r: seq<bool>)
    requires |a| == |b|
    ensures |r| == |a|
  {
    seq(|a|, i requires 0 <= i < |a| => a[i] != b[i])
  }

  function Zeros(n: nat): (r: seq<bool>)
    ensures |r| == n
  {
    seq(n, i => false)
  }

  /** Multiply the remainder by x. */
  function Shift(r: Register): Register {
    if r[0] then XorBits(r[1..] + [false], POLYNOMIAL) else r[1..] + [false]
  }

  /** Append message bits to the dividend, one at a time. */
  function Feed(r: Register, bits: seq<bool>): Register
    decreases |bits|
  {
    if bits == [] then r else Feed(Shift(XorBits(r, [bits[0]] + Zeros(15))), bits[1..])
  }

  /** The low n bits of v, most significant first. */
  function ToBits(v: nat, n: nat): (bits: seq<bool>)
    ensures |bits| == n
  {
    if n == 0 then [] else ToBits(v / 2, n - 1) + [v % 2 == 1]
  }

  function FromBits(bits: seq<bool>): nat {
    if bits == [] then 0
    else 2 * FromBits(bits[..|bits| - 1]) + if bits[|bits| - 1] then 1 else 0
  }

  function MessageBits(data: seq<byte>): (bits: seq<bool>)
    ensures |bits| == 8 * |data|
  {
    if data == [] then [] else MessageBits(data[..|data| - 1]) + ToBits(data[|data| - 1], 8)
  }

  function Remainder(data: seq<byte>): Register {
    Feed(ONES, MessageBits(data))
  }

  function Crc(data: seq<byte>): u16 {
    FromBitsBound(Remainder(data));
    FromBits(Remainder(data))
  }

  // ---- Integers and their bits

  function Pow2(n: nat): (p: nat)
    ensures p > 0
  {
    if n == 0 then 1 else 2 * Pow2(n - 1)
  }

  lemma {:induction false} FromBitsBound(bits: seq<bool>)
    ensures FromBits(bits) < Pow2(|bits|)
    ensures Pow2(16) == 0x1_0000 && Pow2(8) == 0x100
  {
    assert Pow2(4) == 16 && Pow2(8) == 0x100 && Pow2(12) == 0x1000;
    if bits != [] {
      FromBitsBound(bits[..|bits| - 1]);
    }
  }

  lemma {:induction false} BitsOfFromBits(bits: seq<bool>)
    ensures ToBits(FromBits(bits), |bits|) == bits
  {
    if bits != [] {
      BitsOfFromBits(bits[..|bits| - 1]);
    }
  }

  lemma {:induction false} FromBitsOfBits(v: nat, n: nat)
    requires v < Pow2(n)
    ensures FromBits(ToBits(v, n)) == v
  {
    if n > 0 {
      FromBitsOfBits(v / 2, n - 1);
      assert ToBits(v, n)[..n - 1] == ToBits(v / 2, n - 1);
    }
  }

  /** The low width bits of a ^ b. */
  function Xor(a: nat, b: nat, width: nat): nat {
    if width == 0 then 0 else 2 * Xor(a / 2, b / 2, width - 1) + (a + b) % 2
  }

  lemma {:induction false} XorIsBitwise(a: nat, b: nat, width: nat)
    ensures ToBits(Xor(a, b, width), width) == XorBits(ToBits(a, width), ToBits(b, width))
  {
    if width > 0 {
      XorIsBitwise(a / 2, b / 2, width - 1);
      XorHalves(a, b, width);
      var x, y := ToBits(a / 2, width - 1), ToBits(b / 2, width - 1);
      assert XorBits(x + [a % 2 == 1], y + [b % 2 == 1]) == XorBits(x, y) + [(a % 2 == 1) != (b % 2 == 1)];
    }
  }

  lemma XorHalves(a: nat, b: nat, width: nat)
    requires width > 0
    ensures Xor(a, b, width) / 2 == Xor(a / 2, b / 2, width - 1)
    ensures Xor(a, b, width) % 2 == 1 <==> (a % 2 == 1) != (b % 2 == 1)
  {
  }

  /** Bits of a number put together from a high and a low part. */
  lemma {:induction false} ToBitsJoined(high: nat, low: nat, n: nat, m: nat)
    requires low < Pow2(m)
    ensures ToBits(high * Pow2(m) + low, n + m) == ToBits(high, n) + ToBits(low, m)
  {
    if m > 0 {
      ToBitsJoined(high, low / 2, n, m - 1);
      HalfJoined(high, low, Pow2(m - 1));
    }
  }

  lemma HalfJoined(high: nat, low: nat, p: nat)
    ensures (high * (2 * p) + low) / 2 == high * p + low / 2
    ensures (high * (2 * p) + low) % 2 == low % 2
  {
    var x := high * p;
    assert high * (2 * p) == 2 * x;
  }

  lemma {:induction false} ToBitsTop(v: nat, n: nat)
    requires n > 0 && v < Pow2(n)
    ensures ToBits(v, n)[0] <==> v >= Pow2(n - 1)
  {
    if n > 1 {
      ToBitsTop(v / 2, n - 1);
    }
  }

  lemma {:induction false} ToBitsTail(v: nat, n: nat)
    ensures ToBits(v, n + 1)[1..] == ToBits(v, n)
  {
    if n > 0 {
      ToBitsTail(v / 2, n - 1);
    }
  }

  // ---- The host's loop computes the remainder

  lemma ShiftStep(crc: u16)
    ensures ToBits(if crc >= 0x8000 then Xor(2 * crc, 0x1021, 16) else 2 * crc, 16)
         == Shift(ToBits(crc, 16))
  {
    FromBitsBound(ToBits(crc, 16));
    ToBitsTop(crc, 16);
    ToBitsTail(crc, 15);
    assert ToBits(2 * crc, 16) == ToBits(crc, 15) + [false];
    XorIsBitwise(2 * crc, 0x1021, 16);
    PolynomialBits();
  }

  lemma PolynomialBits()
    ensures ToBits(0x1021, 16) == POLYNOMIAL
  {
    FromBitsBound([]);
    ToBitsJoined(0x1, 0x0, 4, 4);
    ToBitsJoined(0x2, 0x1, 4, 4);
    ToBitsJoined(0x10, 0x21, 8, 8);
    PolynomialNibbles(ToBits(0x1, 4), ToBits(0x0, 4), ToBits(0x2, 4), ToBits(0x1, 4));
  }

  lemma PolynomialNibbles(a: seq<bool>, b: seq<bool>, c: seq<bool>, d: seq<bool>)
    requires a == ToBits(0x1, 4) && b == ToBits(0x0, 4) && c == ToBits(0x2, 4) && d == ToBits(0x1, 4)
    ensures (a + b) + (c + d) == POLYNOMIAL
  {
    assert a == d == [false, false, false, true];
    assert b == [false, false, false, false] && c == [false, false, true, false];
  }

  lemma OnesBits()
    ensures ToBits(0xFFFF, 16) == ONES
  {
    FromBitsBound([]);
    ToBitsJoined(0xF, 0xF, 4, 4);
    ToBitsJoined(0xFF, 0xFF, 8, 8);
    var x := ToBits(0xF, 4);
    AllOnes(x);
  }

  lemma AllOnes(x: seq<bool>)
    requires x == ToBits(0xF, 4)
    ensures (x + x) + (x + x) == ONES
  {
    assert x == [true, true, true, true];
  }

  function Shifts(r: Register, n: nat): Register
    decreases n
  {
    if n == 0 then r else Shifts(Shift(r), n - 1)
  }

  /** Up to 16 message bits may be added to the register before shifting them through. */
  lemma {:induction false} FeedIsShifts(r: Register, w: seq<bool>)
    requires |w| <= 16
    ensures Feed(r, w) == Shifts(XorBits(r, w + Zeros(16 - |w|)), |w|)
    decreases |w|
  {
    if w == [] {
      assert XorBits(r, w + Zeros(16)) == r;
    } else {
      var next := Shift(XorBits(r, [w[0]] + Zeros(15)));
      FeedIsShifts(next, w[1..]);
      FirstShift(r, w);
    }
  }

  /** Only the first bit added decides the shift; the others move along. */
  lemma FirstShift(r: Register, w: seq<bool>)
    requires 0 < |w| <= 16
    ensures Shift(XorBits(r, w + Zeros(16 - |w|)))
         == XorBits(Shift(XorBits(r, [w[0]] + Zeros(15))), w[1..] + Zeros(17 - |w|))
  {
  }

  lemma {:induction false} FeedConcat(r: Register, a: seq<bool>, b: seq<bool>)
    ensures Feed(r, a + b) == Feed(Feed(r, a), b)
    decreases |a|
  {
    if a == [] {
      assert a + b == b;
    } else {
      assert (a + b)[1..] == a[1..] + b;
      FeedConcat(Shift(XorBits(r, [a[0]] + Zeros(15))), a[1..], b);
    }
  }

  lemma ByteAdded(crc: u16, b: byte)
    ensures ToBits(Xor(crc, b * 0x100, 16), 16)
         == XorBits(ToBits(crc, 16), ToBits(b, 8) + Zeros(8))
  {
    XorIsBitwise(crc, b * 0x100, 16);
    FromBitsBound([]);
    ToBitsJoined(b, 0, 8, 8);
    assert ToBits(0, 8) == Zeros(8);
  }

  lemma {:induction false} XorBound(a: nat, b: nat, width: nat)
    ensures Xor(a, b, width) < Pow2(width)
  {
    if width > 0 {
      XorBound(a / 2, b / 2, width - 1);
    }
  }

  /** The body of the outer loop: one byte into the running value. */
  method AbsorbByte(before: u16, b: byte) returns (crc: u16)
    ensures ToBits(crc, 16) == Feed(ToBits(before, 16), ToBits(b, 8))
  {
    var value: int := b;
    XorBound(before, value * 0x100, 16);
    FromBitsBound([]);
    crc := Xor(before, value * 0x100, 16);
    ByteAdded(before, b);
    FeedIsShifts(ToBits(before, 16), ToBits(b, 8));
    ghost var goal := Feed(ToBits(before, 16), ToBits(b, 8));
    for bit := 0 to 8
      invariant Shifts(ToBits(crc, 16), 8 - bit) == goal
    {
      OneShift(crc, 8 - bit);
      crc := if crc >= 0x8000 then Xor(2 * crc, 0x1021, 16) else 2 * crc;
    }
  }

  /** One round of the inner loop is one shift. */
  lemma OneShift(crc: u16, n: nat)
    requires n > 0
    ensures var next := if crc >= 0x8000 then Xor(2 * crc, 0x1021, 16) else 2 * crc;
      0 <= next < 0x1_0000 && Shifts(ToBits(next, 16), n - 1) == Shifts(ToBits(crc, 16), n)
  {
    ShiftStep(crc);
    XorBound(2 * crc, 0x1021, 16);
    FromBitsBound([]);
  }

  method Crc16CcittFalse(data: seq<byte>) returns (crc: u16)
    ensures crc == Crc(data)
  {
    crc := 0xFFFF;
    OnesBits();
    for i := 0 to |data|
      invariant ToBits(crc, 16) == Remainder(data[..i])
    {
      crc := AbsorbByte(crc, data[i]);
      assert data[..i + 1][..i] == data[..i];
      FeedConcat(ONES, MessageBits(data[..i]), ToBits(data[i], 8));
    }
    assert data[..|data|] == data;
    FromBitsBound([]);
    FromBitsOfBits(crc, 16);
  }

  // ---- What the checksum detects

  lemma ShiftInjective(x: Register, y: Register)
    requires Shift(x) == Shift(y)
    ensures x == y
  {
    // The polynomial is odd, so the last bit of the result tells which branch was taken.
    assert Shift(x)[15] == x[0] && Shift(y)[15] == y[0];
    forall i | 1 <= i < 16
      ensures x[i] == y[i]
    {
      assert Shift(x)[i - 1] == Shift(y)[i - 1];
    }
  }

  lemma {:induction false} ShiftsInjective(x: Register, y: Register, n: nat)
    requires Shifts(x, n) == Shifts(y, n)
    ensures x == y
    decreases n
  {
    if n > 0 {
      ShiftsInjective(Shift(x), Shift(y), n - 1);
      ShiftInjective(x, y);
    }
  }

  lemma XorCancel(a: Register, b: Register, r: Register)
    requires XorBits(a, r) == XorBits(b, r)
    ensures a == b
  {
    forall i | 0 <= i < 16
      ensures a[i] == b[i]
    {
      assert XorBits(a, r)[i] == XorBits(b, r)[i];
    }
  }

  lemma {:induction false} FeedInjective(x: Register, y: Register, bits: seq<bool>)
    requires Feed(x, bits) == Feed(y, bits)
    ensures x == y
    decreases |bits|
  {
    if bits != [] {
      var first := [bits[0]] + Zeros(15);
      FeedInjective(Shift(XorBits(x, first)), Shift(XorBits(y, first)), bits[1..]);
      ShiftInjective(XorBits(x, first), XorBits(y, first));
      XorCancel(x, y, first);
    }
  }

  lemma WindowInjective(r: Register, v: seq<bool>, w: seq<bool>)
    requires |v| == |w| <= 16
    requires Feed(r, v) == Feed(r, w)
    ensures v == w
  {
    FeedIsShifts(r, v);
    FeedIsShifts(r, w);
    var pv, pw := v + Zeros(16 - |v|), w + Zeros(16 - |w|);
    ShiftsInjective(XorBits(r, pv), XorBits(r, pw), |v|);
    assert XorBits(r, pv) == XorBits(pv, r) && XorBits(r, pw) == XorBits(pw, r);
    XorCancel(pv, pw, r);
    assert v == pv[..|v|] && w == pw[..|w|];
  }

  lemma CrcSeparates(a: seq<byte>, b: seq<byte>)
    requires Remainder(a) != Remainder(b)
    ensures Crc(a) != Crc(b)
  {
    BitsOfFromBits(Remainder(a));
    BitsOfFromBits(Remainder(b));
  }

  lemma {:induction false} MessageBitsAt(data: seq<byte>, i: nat)
    requires i < |data|
    ensures MessageBits(data)[8 * i..8 * i + 8] == ToBits(data[i], 8)
  {
    var n := |data| - 1;
    var earlier, last := MessageBits(data[..n]), ToBits(data[n], 8);
    if i < n {
      MessageBitsAt(data[..n], i);
      assert (earlier + last)[8 * i..8 * i + 8] == earlier[8 * i..8 * i + 8];
    } else {
      assert (earlier + last)[8 * n..8 * n + 8] == last;
    }
  }

  lemma MessageBitsInjective(a: seq<byte>, b: seq<byte>)
    requires |a| == |b| && MessageBits(a) == MessageBits(b)
    ensures a == b
  {
    forall i | 0 <= i < |a|
      ensures a[i] == b[i]
    {
      MessageBitsAt(a, i);
      MessageBitsAt(b, i);
      FromBitsBound([]);
      FromBitsOfBits(a[i], 8);
      FromBitsOfBits(b[i], 8);
    }
  }

  lemma SegmentDiffers(head: seq<bool>, v: seq<bool>, w: seq<bool>, tail: seq<bool>)
    requires |v| == |w| <= 16
    requires Feed(ONES, head + v + tail) == Feed(ONES, head + w + tail)
    ensures v == w
  {
    FeedConcat(ONES, head + v, tail);
    FeedConcat(ONES, head + w, tail);
    FeedInjective(Feed(ONES, head + v), Feed(ONES, head + w), tail);
    FeedConcat(ONES, head, v);
    FeedConcat(ONES, head, w);
    WindowInjective(Feed(ONES, head), v, w);
  }

  lemma BurstParts(x: seq<bool>, y: seq<bool>, lo: nat, hi: nat)
    requires lo <= hi <= |x| == |y|
    requires forall i :: 0 <= i < |x| && !(lo <= i < hi) ==> x[i] == y[i]
    ensures x == x[..lo] + x[lo..hi] + x[hi..]
    ensures y == x[..lo] + y[lo..hi] + x[hi..]
  {
    assert x[..lo] == y[..lo] && x[hi..] == y[hi..];
  }

  lemma BurstBits(x: seq<bool>, y: seq<bool>, start: nat)
    requires |x| == |y|
    requires forall i :: 0 <= i < |x| && !(start <= i < start + 16) ==> x[i] == y[i]
    requires Feed(ONES, x) == Feed(ONES, y)
    ensures x == y
  {
    var lo := if start <= |x| then start else |x|;
    var hi := if start + 16 <= |x| then start + 16 else |x|;
    BurstParts(x, y, lo, hi);
    SegmentDiffers(x[..lo], x[lo..hi], y[lo..hi], x[hi..]);
  }

  /** Every corruption confined to 16 consecutive message bits changes the checksum. */
  lemma BurstChangesCrc(a: seq<byte>, b: seq<byte>, start: nat)
    requires |a| == |b| && a != b
    requires forall i :: 0 <= i < 8 * |a| && !(start <= i < start + 16) ==>
      MessageBits(a)[i] == MessageBits(b)[i]
    ensures Crc(a) != Crc(b)
  {
    if Remainder(a) == Remainder(b) {
      BurstBits(MessageBits(a), MessageBits(b), start);
      MessageBitsInjective(a, b);
    }
    CrcSeparates(a, b);
  }

  /** In particular, any change to one byte, or to two neighbouring bytes. */
  lemma AdjacentBytesChangeCrc(a: seq<byte>, b: seq<byte>, at: nat)
    requires |a| == |b| && a != b
    requires forall i :: 0 <= i < |a| && i != at && i != at + 1 ==> a[i] == b[i]
    ensures Crc(a) != Crc(b)
  {
    forall i | 0 <= i < 8 * |a| && !(8 * at <= i < 8 * at + 16)
      ensures MessageBits(a)[i] == MessageBits(b)[i]
    {
      MessageBitsAt(a, i / 8);
      MessageBitsAt(b, i / 8);
      assert MessageBits(a)[i] == MessageBits(a)[8 * (i / 8)..8 * (i / 8) + 8][i % 8];
      assert MessageBits(b)[i] == MessageBits(b)[8 * (i / 8)..8 * (i / 8) + 8][i % 8];
    }
    BurstChangesCrc(a, b, 8 * at);
  }

  // ---- Parity: x + 1 divides the polynomial

  function Odd(bits: seq<bool>): bool {
    if bits == [] then false else Odd(bits[..|bits| - 1]) != bits[|bits| - 1]
  }

  lemma {:induction false} OddConcat(a: seq<bool>, b: seq<bool>)
    ensures Odd(a + b) == (Odd(a) != Odd(b))
  {
    if b == [] {
      assert a + b == a;
    } else {
      assert (a + b)[..|a + b| - 1] == a + b[..|b| - 1];
      OddConcat(a, b[..|b| - 1]);
    }
  }

  lemma {:induction false} OddXor(a: seq<bool>, b: seq<bool>)
    requires |a| == |b|
    ensures Odd(XorBits(a, b)) == (Odd(a) != Odd(b))
  {
    if a != [] {
      var n := |a| - 1;
      assert XorBits(a, b)[..n] == XorBits(a[..n], b[..n]);
      OddXor(a[..n], b[..n]);
    }
  }

  lemma OddShift(r: Register)
    ensures Odd(Shift(r)) == Odd(r)
  {
    assert r == [r[0]] + r[1..];
    OddConcat([r[0]], r[1..]);
    OddConcat(r[1..], [false]);
    OddXor(r[1..] + [false], POLYNOMIAL);
    OddPolynomial();
  }

  lemma OddPolynomial()
    ensures Odd(POLYNOMIAL)
  {
    var p := POLYNOMIAL;
    assert p == p[..4] + (p[4..8] + (p[8..12] + p[12..]));
    OddConcat(p[..4], p[4..8] + (p[8..12] + p[12..]));
    OddConcat(p[4..8], p[8..12] + p[12..]);
    OddConcat(p[8..12], p[12..]);
    OddFour(p[..4]);
    OddFour(p[4..8]);
    OddFour(p[8..12]);
    OddFour(p[12..]);
  }

  lemma OddFour(x: seq<bool>)
    requires |x| == 4
    ensures Odd(x) == ((x[0] != x[1]) != (x[2] != x[3]))
  {
    OddTwo(x[..2]);
    OddTwo(x[2..]);
    assert x == x[..2] + x[2..];
    OddConcat(x[..2], x[2..]);
  }

  lemma OddTwo(x: seq<bool>)
    requires |x| == 2
    ensures Odd(x) == (x[0] != x[1])
  {
    assert x == [x[0]] + [x[1]];
    OddConcat([x[0]], [x[1]]);
  }

  lemma {:induction false} OddZeros(n: nat)
    ensures !Odd(Zeros(n))
  {
    if n > 0 {
      assert Zeros(n)[..n - 1] == Zeros(n - 1);
      OddZeros(n - 1);
    }
  }

  lemma {:induction false} OddFeed(r: Register, bits: seq<bool>)
    ensures Odd(Feed(r, bits)) == (Odd(r) != Odd(bits))
    decreases |bits|
  {
    if bits != [] {
      var first := [bits[0]] + Zeros(15);
      OddFeed(Shift(XorBits(r, first)), bits[1..]);
      OddShift(XorBits(r, first));
      OddXor(r, first);
      OddZeros(15);
      OddConcat([bits[0]], Zeros(15));
      assert bits == [bits[0]] + bits[1..];
      OddConcat([bits[0]], bits[1..]);
    }
  }

  /** The checksum has odd weight exactly when the message has. */
  lemma CrcKeepsParity(data: seq<byte>)
    ensures Odd(ToBits(Crc(data), 16)) == Odd(MessageBits(data))
  {
    BitsOfFromBits(Remainder(data));
    OddFeed(ONES, MessageBits(data));
    EvenOnes();
  }

  lemma EvenOnes()
    ensures !Odd(ONES)
  {
    assert ONES == ONES[..8] + ONES[8..] && ONES[..8] == ONES[8..];
    OddConcat(ONES[..8], ONES[8..]);
  }
}
