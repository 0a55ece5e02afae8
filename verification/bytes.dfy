/** Bytes and fixed-width integers as they sit in memory or in a file: an
    unsigned value of `n` bytes in little-endian or big-endian order, and the
    two's-complement reading of a signed 32-bit value. */
module Bytes {

  type Byte = x: int | 0 <= x < 0x100

  /** 256 to the power `n`: the number of values `n` bytes can hold. */
  function Pow256(n: nat): (r: nat)
    ensures r >= 1
  {
    if n == 0 then 1 else 0x100 * Pow256(n - 1)
  }

  /** The `n` bytes of `x`, least significant first. */
  function LittleEndian(x: nat, n: nat): (r: seq<Byte>)
    ensures |r| == n
  {
    if n == 0 then [] else [x % 0x100] + LittleEndian(x / 0x100, n - 1)
  }

  /** The value of bytes stored least significant first. */
  function ReadLittleEndian(b: seq<Byte>): (x: nat)
    ensures x < Pow256(|b|)
  {
    if b == [] then 0 else b[0] + 0x100 * ReadLittleEndian(b[1..])
  }

  /** Reading back what was stored gives the value, when it fits. */
  lemma {:induction false} LittleEndianRoundTrip(x: nat, n: nat)
    requires x < Pow256(n)
    ensures ReadLittleEndian(LittleEndian(x, n)) == x
  {
    if n > 0 {
      LittleEndianRoundTrip(x / 0x100, n - 1);
      assert LittleEndian(x, n)[1..] == LittleEndian(x / 0x100, n - 1);
    }
  }

  /** Storing what was read gives the bytes back. */
  lemma {:induction false} ReadLittleEndianRoundTrip(b: seq<Byte>)
    ensures LittleEndian(ReadLittleEndian(b), |b|) == b
  {
    if b != [] {
      ReadLittleEndianRoundTrip(b[1..]);
      var x := ReadLittleEndian(b);
      assert x % 0x100 == b[0] && x / 0x100 == ReadLittleEndian(b[1..]);
      assert b == [b[0]] + b[1..];
    }
  }

  /** The `n` bytes of `x`, most significant first. */
  function BigEndian(x: nat, n: nat): (r: seq<Byte>)
    ensures |r| == n
  {
    if n == 0 then [] else BigEndian(x / 0x100, n - 1) + [x % 0x100]
  }

  /** The value of bytes stored most significant first. */
  function ReadBigEndian(b: seq<Byte>): (x: nat)
    ensures x < Pow256(|b|)
  {
    if b == [] then 0 else 0x100 * ReadBigEndian(b[..|b| - 1]) + b[|b| - 1]
  }

  lemma {:induction false} BigEndianRoundTrip(x: nat, n: nat)
    requires x < Pow256(n)
    ensures ReadBigEndian(BigEndian(x, n)) == x
  {
    if n > 0 {
      BigEndianRoundTrip(x / 0x100, n - 1);
      var b := BigEndian(x, n);
      assert b[..|b| - 1] == BigEndian(x / 0x100, n - 1);
    }
  }

  /** The two orders are each other's reverse. */
  lemma {:induction false} BigEndianIsReversed(x: nat, n: nat)
    ensures BigEndian(x, n) == Reverse(LittleEndian(x, n))
  {
    if n > 0 {
      BigEndianIsReversed(x / 0x100, n - 1);
      var le := LittleEndian(x, n);
      assert le[1..] == LittleEndian(x / 0x100, n - 1);
      assert le == [le[0]] + le[1..];
      ReverseAppend([le[0]], le[1..]);
    }
  }

  function Reverse<T>(s: seq<T>): (r: seq<T>)
    ensures |r| == |s|
    ensures forall i :: 0 <= i < |s| ==> r[i] == s[|s| - 1 - i]
  {
    if s == [] then [] else Reverse(s[1..]) + [s[0]]
  }

  lemma ReverseAppend<T>(a: seq<T>, b: seq<T>)
    ensures Reverse(a + b) == Reverse(b) + Reverse(a)
  {
  }

  lemma ReverseReverse<T>(s: seq<T>)
    ensures Reverse(Reverse(s)) == s
  {
  }

  /** The bit pattern of a signed 32-bit value, as an unsigned number. */
  function Unsigned32(i: int): (u: nat)
    requires -0x8000_0000 <= i < 0x8000_0000
    ensures u < 0x1_0000_0000
    ensures i >= 0 ==> u == i
    ensures i < 0 ==> u == i + 0x1_0000_0000
  {
    if i < 0 then i + 0x1_0000_0000 else i
  }

  /** The signed 32-bit value of a bit pattern. */
  function Signed32(u: nat): (i: int)
    requires u < 0x1_0000_0000
    ensures -0x8000_0000 <= i < 0x8000_0000
  {
    if u >= 0x8000_0000 then u - 0x1_0000_0000 else u
  }

  lemma SignedUnsigned32(i: int)
    requires -0x8000_0000 <= i < 0x8000_0000
    ensures Signed32(Unsigned32(i)) == i
  {
  }

  lemma Pow256Four()
    ensures Pow256(4) == 0x1_0000_0000
  {
  }
}
