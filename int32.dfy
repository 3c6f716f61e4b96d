/**
 * 32-bit two's-complement integers as the JVM's `Int` holds them:
 * wrap-around arithmetic, C's truncating division, and the little-endian
 * byte layout used on the socket. The JVM defines the wrap-around; for C's
 * `int` it is an assumption, since signed overflow is undefined in C, and
 * the relay's `hash` is read under that assumption.
 */
module Int32 {
  import opened Unicode

  const Pow31: int := 0x8000_0000
  const Pow32: int := 0x1_0000_0000

  predicate IsInt32(x: int) {
    -Pow31 <= x < Pow31
  }

  /** The 32-bit value an unbounded result wraps around to. */
  function Wrap32(x: int): (r: int)
    ensures IsInt32(r)
    ensures (x - r) % Pow32 == 0
    ensures IsInt32(x) ==> r == x
  {
    var m := x % Pow32;
    if m >= Pow31 then m - Pow32 else m
  }

  /** The four bytes of `v`, least significant first (`ByteOrder.LITTLE_ENDIAN`, or an x86 `int` in memory). */
  function LittleEndian32(v: int): (bs: seq<byte>)
    requires IsInt32(v)
    ensures |bs| == 4
  {
    var u := v % Pow32;
    [u % 256, (u / 256) % 256, (u / 65536) % 256, u / 16777216]
  }

  /** The unsigned value of four little-endian bytes. */
  function Unsigned32(bs: seq<byte>): (u: nat)
    requires |bs| == 4
    ensures u < Pow32
  {
    var w: seq<int> := bs;
    w[0] + w[1] * 256 + w[2] * 65536 + w[3] * 16777216
  }

  /** The `int` that four little-endian bytes hold. */
  function FromLittleEndian32(bs: seq<byte>): (v: int)
    requires |bs| == 4
    ensures IsInt32(v)
  {
    Wrap32(Unsigned32(bs))
  }

  lemma SplitBytes(u: nat)
    requires u < Pow32
    ensures u == u % 256 + ((u / 256) % 256) * 256 + ((u / 65536) % 256) * 65536 + (u / 16777216) * 16777216
  {
    assert u == (u / 256) * 256 + u % 256;
    assert u / 256 == (u / 65536) * 256 + (u / 256) % 256;
    assert u / 65536 == (u / 16777216) * 256 + (u / 65536) % 256;
  }

  /** Writing an `int` and reading it back gives the same `int`. */
  lemma LittleEndianRoundTrip(v: int)
    requires IsInt32(v)
    ensures FromLittleEndian32(LittleEndian32(v)) == v
  {
    var u := v % Pow32;
    SplitBytes(u);
    var bs := LittleEndian32(v);
    assert Unsigned32(bs) == u;
  }

  /** Reading four bytes as an `int` and writing it back gives the same bytes. */
  lemma LittleEndianBytesRoundTrip(bs: seq<byte>)
    requires |bs| == 4
    ensures LittleEndian32(FromLittleEndian32(bs)) == bs
  {
    var u := Unsigned32(bs);
    var w: seq<int> := bs;
    var v := FromLittleEndian32(bs);
    assert v % Pow32 == u;
    assert u / 256 == w[1] + w[2] * 256 + w[3] * 65536;
    assert u / 65536 == w[2] + w[3] * 256;
    assert u / 16777216 == w[3];
  }

  /** C's `/` on `int`: the quotient truncated toward zero. */
  function CDiv(a: int, b: int): int
    requires b > 0
  {
    if a >= 0 then a / b else -((-a) / b)
  }

  /** C's `%` on `int`: the remainder takes the sign of the dividend. */
  function CRem(a: int, b: int): (r: int)
    requires b > 0
    ensures a == CDiv(a, b) * b + r
    ensures a >= 0 ==> 0 <= r < b
    ensures a < 0 ==> -b < r <= 0
  {
    a - CDiv(a, b) * b
  }
}
