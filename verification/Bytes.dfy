/** Fixed-width integers and their little-endian layout on the wire. */
module Bytes {

  type byte = b: int | 0 <= b < 0x100
  type u16 = v: int | 0 <= v < 0x1_0000
  type u32 = v: int | 0 <= v < 0x1_0000_0000
  type i16 = v: int | -0x8000 <= v < 0x8000

  datatype Result<+T, +E> = Ok(value: T) | Err(error: E)

  datatype Option<+T> = None | Some(value: T)

  function WriteU16(v: u16): (s: seq<byte>)
    ensures |s| == 2
  {
    [v % 0x100, v / 0x100]
  }

  function ReadU16(s: seq<byte>, at: nat): u16
    requires at + 2 <= |s|
  {
    var low: int, high: int := s[at], s[at + 1];
    low + 0x100 * high
  }

  function WriteU32(v: u32): (s: seq<byte>)
    ensures |s| == 4
  {
    WriteU16(v % 0x1_0000) + WriteU16(v / 0x1_0000)
  }

  function ReadU32(s: seq<byte>, at: nat): u32
    requires at + 4 <= |s|
  {
    var low: int, high: int := ReadU16(s, at), ReadU16(s, at + 2);
    low + 0x1_0000 * high
  }

  /** Two's complement: the bit pattern of a signed word read as unsigned. */
  function ToUnsigned(v: i16): u16 {
    if v < 0 then v + 0x1_0000 else v
  }

  function ToSigned(v: u16): i16 {
    if v < 0x8000 then v else v - 0x1_0000
  }

  lemma U16RoundTrip(v: u16, s: seq<byte>, at: nat)
    requires at + 2 <= |s|
    ensures s[at..at + 2] == WriteU16(v) <==> ReadU16(s, at) == v
  {
    assert s[at..at + 2] == [s[at], s[at + 1]];
  }

  lemma U32RoundTrip(v: u32, s: seq<byte>, at: nat)
    requires at + 4 <= |s|
    ensures s[at..at + 4] == WriteU32(v) <==> ReadU32(s, at) == v
  {
    U16RoundTrip(v % 0x1_0000, s, at);
    U16RoundTrip(v / 0x1_0000, s, at + 2);
    assert s[at..at + 4] == s[at..at + 2] + s[at + 2..at + 4];
    if s[at..at + 4] == WriteU32(v) {
      assert s[at..at + 2] == s[at..at + 4][..2] == WriteU16(v % 0x1_0000);
      assert s[at + 2..at + 4] == s[at..at + 4][2..] == WriteU16(v / 0x1_0000);
    }
  }
}
