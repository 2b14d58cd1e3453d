/**
 * Bytes and the little-endian integer layouts of the Windows executable
 * headers and of the .ico/.cur/.bmp files written back out.
 */
module Bytes {

  type Byte = b: int | 0 <= b < 0x100

  const TwoTo16: int := 0x1_0000
  const TwoTo31: int := 0x8000_0000
  const TwoTo32: int := 0x1_0000_0000

  /** The unsigned 16-bit value stored little-endian at `off`. */
  function U16At(m: seq<Byte>, off: nat): (v: nat)
    requires off + 2 <= |m|
    ensures v < TwoTo16
  {
    m[off] as int + 0x100 * m[off + 1] as int
  }

  /** The unsigned 32-bit value stored little-endian at `off`. */
  function U32At(m: seq<Byte>, off: nat): (v: nat)
    requires off + 4 <= |m|
    ensures v < TwoTo32
  {
    U16At(m, off) + TwoTo16 * U16At(m, off + 2)
  }

  /** The two bytes that store `v` little-endian. */
  function LE16(v: nat): (r: seq<Byte>)
    requires v < TwoTo16
    ensures |r| == 2 && U16At(r, 0) == v
  {
    [v % 0x100, v / 0x100]
  }

  /** The four bytes that store `v` little-endian. */
  function LE32(v: nat): (r: seq<Byte>)
    requires v < TwoTo32
    ensures |r| == 4 && U32At(r, 0) == v
  {
    var r := LE16(v % TwoTo16) + LE16(v / TwoTo16);
    assert U16At(r, 0) == v % TwoTo16 && U16At(r, 2) == v / TwoTo16;
    r
  }

  /** Reduction modulo 2^32: what an unsigned 32-bit C variable keeps. */
  function Wrap32(x: int): (r: nat)
    ensures r < TwoTo32
    ensures (x - r) % TwoTo32 == 0
    ensures 0 <= x < TwoTo32 ==> r == x
  {
    x % TwoTo32
  }

  /** The 32-bit two's complement reading of `x`: what a cast to `int` keeps. */
  function Int32(x: int): (r: int)
    ensures -TwoTo31 <= r < TwoTo31
    ensures (x - r) % TwoTo32 == 0
    ensures -TwoTo31 <= x < TwoTo31 ==> r == x
  {
    var w := x % TwoTo32;
    if w < TwoTo31 then w else w - TwoTo32
  }

  /** Low byte of `x`: what a cast to `uint8_t` keeps. */
  function Low8(x: int): (r: Byte)
    ensures (x - r) % 0x100 == 0
  {
    x % 0x100
  }

  /** The byte read as a C `char`, which is signed on the targets of this program. */
  function SignedChar(b: Byte): (r: int)
    ensures -0x80 <= r < 0x80
    ensures Low8(r) == b
  {
    if b < 0x80 then b else b - 0x100
  }

  /** C division of integers, which truncates toward zero. */
  function CDiv(a: int, b: int): (q: int)
    requires b > 0
    ensures a >= 0 ==> q == a / b
    ensures a < 0 ==> q == -((-a) / b)
  {
    if a >= 0 then a / b else -((-a) / b)
  }

  /** C remainder, whose sign follows the dividend. */
  function CMod(a: int, b: int): (r: int)
    requires b > 0
    ensures a == CDiv(a, b) * b + r
    ensures -b < r < b
  {
    a - CDiv(a, b) * b
  }

  /** The sequence of `n` zero bytes. */
  function Zeros(n: nat): (r: seq<Byte>)
    ensures |r| == n && forall i :: 0 <= i < n ==> r[i] == 0
  {
    seq(n, _ => 0)
  }

  /** A value of 32 bits survives a round trip through a C `int`. */
  lemma WrapInt32(x: int)
    requires 0 <= x < TwoTo32
    ensures Wrap32(Int32(x)) == x
  {
  }
}
