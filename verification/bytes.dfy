/** Java's fixed-width integers and the 4-byte integer codec of the transport's buffer. */
module Bytes {

  const MinInt: int := -0x8000_0000
  const MaxInt: int := 0x7FFF_FFFF
  const TwoTo32: int := 0x1_0000_0000

  /** Java's signed 8-bit `byte`. */
  newtype int8 = x: int | -128 <= x < 128

  /** One octet of a transport buffer. */
  newtype uint8 = x: int | 0 <= x < 256

  predicate IsInt32(n: int) {
    MinInt <= n <= MaxInt
  }

  /** Java `int` arithmetic: the exact value reduced modulo 2^32 into the signed range. */
  function Wrap32(n: int): (r: int)
    ensures IsInt32(r)
    ensures (r - n) % TwoTo32 == 0
    ensures IsInt32(n) ==> r == n
  {
    var u := n % TwoTo32;
    assert 0 <= u < TwoTo32;
    if u <= MaxInt then u else u - TwoTo32
  }

  /** The Java `byte` a buffer octet reads as (two's complement). */
  function SignedByte(b: uint8): (r: int8)
    ensures (r as int - b as int) % 256 == 0
    ensures b < 128 ==> r as int == b as int
    ensures b >= 128 ==> r < 0
  {
    if b < 128 then b as int as int8 else (b as int - 256) as int8
  }

  /** The four octets `appendInt` writes, most significant first. */
  function IntBytes(n: int): (r: seq<uint8>)
    requires IsInt32(n)
    ensures |r| == 4
  {
    var u := n % TwoTo32;
    DigitsBounded(u);
    [(u / 0x100_0000) as uint8, (u / 0x1_0000 % 256) as uint8, (u / 256 % 256) as uint8, (u % 256) as uint8]
  }

  /** The `int` that `getInt` reads from four octets, most significant first. */
  function GetInt(s: seq<uint8>): (n: int)
    requires |s| == 4
    ensures IsInt32(n)
  {
    var u := Horner(s[0] as int, s[1] as int, s[2] as int, s[3] as int);
    HornerBounded(s[0] as int, s[1] as int, s[2] as int, s[3] as int);
    if u <= MaxInt then u else u - TwoTo32
  }

  /** The unsigned value of four base-256 digits, most significant first. */
  function Horner(d0: int, d1: int, d2: int, d3: int): int {
    ((d0 * 256 + d1) * 256 + d2) * 256 + d3
  }

  predicate IsDigit(d: int) {
    0 <= d < 256
  }

  lemma DigitsBounded(u: int)
    requires 0 <= u < TwoTo32
    ensures u / 0x100_0000 < 256
  {
  }

  lemma HornerBounded(d0: int, d1: int, d2: int, d3: int)
    requires IsDigit(d0) && IsDigit(d1) && IsDigit(d2) && IsDigit(d3)
    ensures 0 <= Horner(d0, d1, d2, d3) < TwoTo32
  {
  }

  /** Recombining digits and splitting the value again gives back the digits. */
  lemma JoinSplit(d0: int, d1: int, d2: int, d3: int)
    requires IsDigit(d0) && IsDigit(d1) && IsDigit(d2) && IsDigit(d3)
    ensures var u := Horner(d0, d1, d2, d3);
      u / 0x100_0000 == d0 && u / 0x1_0000 % 256 == d1 && u / 256 % 256 == d2 && u % 256 == d3
  {
  }

  /** Reading back what `appendInt` wrote yields the same `int`. */
  lemma GetIntOfIntBytes(n: int)
    requires IsInt32(n)
    ensures GetInt(IntBytes(n)) == n
  {
  }

  /** Every four octets are what `appendInt` writes for the `int` `getInt` reads from them. */
  lemma IntBytesOfGetInt(s: seq<uint8>)
    requires |s| == 4
    ensures IntBytes(GetInt(s)) == s
  {
    var u := Horner(s[0] as int, s[1] as int, s[2] as int, s[3] as int);
    HornerBounded(s[0] as int, s[1] as int, s[2] as int, s[3] as int);
    assert GetInt(s) % TwoTo32 == u;
    JoinSplit(s[0] as int, s[1] as int, s[2] as int, s[3] as int);
    var r := IntBytes(GetInt(s));
    assert r[0] == s[0] && r[1] == s[1] && r[2] == s[2] && r[3] == s[3];
  }
}
