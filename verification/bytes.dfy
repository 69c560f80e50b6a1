/**
 * Bytes and Java integers.
 *
 * Bytes on the wire are the integers 0..255; a Java `byte` holding such a value is recovered
 * with `Signed8`. Java `int` arithmetic wraps modulo 2^32 and `/`, `%` truncate toward zero;
 * both are written out here because Dafny's integers are unbounded and Euclidean.
 */
module Bytes {

  type Byte = b: int | 0 <= b < 256

  const TWO_32: int := 0x1_0000_0000
  const INT_MIN: int := -0x8000_0000
  const INT_MAX: int := 0x7FFF_FFFF

  /** The values of a Java `int`. */
  type Int32 = x: int | -0x8000_0000 <= x < 0x8000_0000

  /** The low 8 bits of `x`, i.e. `(byte) x & 0xFF` in Java. */
  function ByteOf(x: int): (b: Byte)
    ensures (b - x) % 256 == 0
  {
    x % 256
  }

  /** The value of a Java `byte` whose bit pattern is `b`. */
  function Signed8(b: Byte): (v: int)
    ensures -128 <= v < 128
    ensures ByteOf(v) == b
  {
    if b < 128 then b else b - 256
  }

  /** Reduction of an arbitrary integer to a Java `int` (two's complement wrap-around). */
  function Wrap32(x: int): (r: Int32)
    ensures (r - x) % TWO_32 == 0
  {
    var m := x % TWO_32;
    if m < 0x8000_0000 then m else m - TWO_32
  }

  /** The unsigned reading of the bit pattern of a Java `int`. */
  function U32(x: Int32): (u: nat)
    ensures u < TWO_32
    ensures Wrap32(u) == x
  {
    if x < 0 then x + TWO_32 else x
  }

  /** Wrapping an unsigned 32-bit number and reading it back unsigned is the identity. */
  lemma U32OfWrap(u: nat)
    requires u < TWO_32
    ensures U32(Wrap32(u)) == u
  {
    DivModUnique(u, TWO_32, 0, u);
  }

  /** Numbers that agree modulo 2^32 wrap to the same `int`. */
  lemma Wrap32Congruent(x: int, y: int)
    requires (x - y) % TWO_32 == 0
    ensures Wrap32(x) == Wrap32(y)
  {
    var k := (x - y) / TWO_32;
    assert x - y == TWO_32 * k;
    DivModUnique(x, TWO_32, y / TWO_32 + k, y % TWO_32);
  }

  /** The low byte of an `int` is the low byte of its unsigned reading. */
  lemma LowByteU32(x: Int32)
    ensures ByteOf(x) == U32(x) % 256
  {
    if x < 0 {
      DivModUnique(x + TWO_32, 256, x / 256 + 0x100_0000, x % 256);
    }
  }

  lemma Wrap32Idempotent(x: int)
    requires INT_MIN <= x <= INT_MAX
    ensures Wrap32(x) == x
  {
  }

  /** `u` shifted right by `k` bits. */
  function Shr(u: nat, k: nat): nat
  {
    if k == 0 then u else Shr(u / 2, k - 1)
  }

  function Pow2(k: nat): (p: nat)
    ensures p >= 1
  {
    if k == 0 then 1 else 2 * Pow2(k - 1)
  }

  /** Halving and then dividing by p is dividing by 2p. */
  lemma HalveThenDivide(u: nat, p: nat)
    requires p > 0
    ensures (u / 2) / p == u / (2 * p)
  {
    var q1 := u / 2;
    var r1 := u % 2;
    var q2 := q1 / p;
    var r2 := q1 % p;
    assert q1 == p * q2 + r2;
    assert u == (2 * p) * q2 + (2 * r2 + r1);
    assert 2 * r2 + r1 < 2 * p;
    DivModUnique(u, 2 * p, q2, 2 * r2 + r1);
  }

  /** Shifting right by k bits divides by 2^k. */
  lemma {:induction false} ShrDiv(u: nat, k: nat)
    ensures Shr(u, k) == u / Pow2(k)
  {
    if k > 0 {
      ShrDiv(u / 2, k - 1);
      HalveThenDivide(u, Pow2(k - 1));
    }
  }

  /** Two shifts in a row are one shift by the sum. */
  lemma {:induction false} ShrAdd(u: nat, a: nat, b: nat)
    ensures Shr(Shr(u, a), b) == Shr(u, a + b)
    decreases a
  {
    if a > 0 {
      ShrAdd(u / 2, a - 1, b);
    }
  }

  /** Java `x >>> s` (Java uses only the low five bits of the shift count). */
  function UShr(x: Int32, s: nat): nat
  {
    Shr(U32(x), s % 32)
  }

  /** Java `a / b` on `int`: the quotient truncated toward zero (b != 0). */
  function JavaDiv(a: int, b: int): (q: int)
    requires b != 0
  {
    var q0 := Abs(a) / Abs(b);
    if (a < 0) == (b < 0) then q0 else -q0
  }

  /** Java `a % b` on `int`: the remainder has the sign of `a`. */
  function JavaRem(a: int, b: int): (r: int)
    requires b != 0
    ensures a == JavaDiv(a, b) * b + r
    ensures Abs(r) < Abs(b)
    ensures r != 0 ==> (r < 0 <==> a < 0)
  {
    a - JavaDiv(a, b) * b
  }

  function Abs(x: int): nat
  {
    if x < 0 then -x else x
  }

  /** Java `Math.abs` on `int`: the absolute value, except that `Integer.MIN_VALUE` is its own result. */
  function JavaAbs(x: Int32): (r: Int32)
    ensures x != INT_MIN ==> r == Abs(x)
    ensures x == INT_MIN ==> r == INT_MIN
  {
    if x == INT_MIN then x else Abs(x)
  }

  /** Little-endian encoding of the low 8*n bits of a non-negative number. */
  function EncodeLE(v: nat, n: nat): (r: seq<Byte>)
    ensures |r| == n
  {
    if n == 0 then [] else [v % 256] + EncodeLE(v / 256, n - 1)
  }

  /** Little-endian decoding: the first byte is the least significant. */
  function DecodeLE(s: seq<Byte>): (v: nat)
  {
    if |s| == 0 then 0 else s[0] + 256 * DecodeLE(s[1..])
  }

  function Pow256(n: nat): (p: nat)
    ensures p >= 1
  {
    if n == 0 then 1 else 256 * Pow256(n - 1)
  }

  lemma {:induction false} DecodeLEBound(s: seq<Byte>)
    ensures DecodeLE(s) < Pow256(|s|)
  {
    if |s| > 0 {
      DecodeLEBound(s[1..]);
    }
  }

  /** Decoding an encoding gives back the low 8*n bits. */
  lemma {:induction false} DecodeEncodeLE(v: nat, n: nat)
    ensures DecodeLE(EncodeLE(v, n)) == v % Pow256(n)
  {
    if n > 0 {
      DecodeEncodeLE(v / 256, n - 1);
      var e := EncodeLE(v, n);
      assert e[1..] == EncodeLE(v / 256, n - 1);
      ModDivStep(v, Pow256(n - 1));
    }
  }

  lemma ModDivStep(v: nat, p: nat)
    requires p >= 1
    ensures v % 256 + 256 * ((v / 256) % p) == v % (256 * p)
  {
    var q := v / 256;
    var r := v % 256;
    assert v == 256 * q + r;
    var q2 := q / p;
    var r2 := q % p;
    assert q == p * q2 + r2;
    assert v == (256 * p) * q2 + (256 * r2 + r);
    assert 0 <= 256 * r2 + r < 256 * p;
    DivModUnique(v, 256 * p, q2, 256 * r2 + r);
  }

  lemma DivModUnique(v: int, d: int, q: int, r: int)
    requires d > 0 && 0 <= r < d && v == d * q + r
    ensures v % d == r && v / d == q
  {
    var q0 := v / d;
    var r0 := v % d;
    assert d * (q - q0) == r0 - r;
    if q > q0 {
      MulAtLeast(d, q - q0);
    } else if q < q0 {
      MulAtLeast(d, q0 - q);
    }
  }

  lemma MulAtLeast(d: int, k: int)
    requires d > 0 && k >= 1
    ensures d * k >= d
  {
  }

  /** Encoding a decoded sequence gives it back. */
  lemma {:induction false} EncodeDecodeLE(s: seq<Byte>)
    ensures EncodeLE(DecodeLE(s), |s|) == s
  {
    if |s| > 0 {
      EncodeDecodeLE(s[1..]);
      var v := DecodeLE(s);
      assert v % 256 == s[0];
      assert v / 256 == DecodeLE(s[1..]);
    }
  }
}
