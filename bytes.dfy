/** Java's fixed-width integers and the big-endian byte layout that the
    one-time-password engine uses. A byte is modelled by its unsigned value,
    i.e. its bit pattern, which is what the source recovers with `& 0xFF`. */
module Bytes {

  type byte = b: int | 0 <= b < 0x100
  type int32 = x: int | -0x8000_0000 <= x < 0x8000_0000
  type int64 = x: int | -0x8000_0000_0000_0000 <= x < 0x8000_0000_0000_0000

  const Int64Min: int := -0x8000_0000_0000_0000
  const Int64Max: int := 0x7FFF_FFFF_FFFF_FFFF
  const TwoTo63: nat := 0x8000_0000_0000_0000
  const TwoTo64: nat := 0x1_0000_0000_0000_0000

  function Pow2(n: nat): (r: nat)
    ensures 0 < r
  {
    if n == 0 then 1 else 2 * Pow2(n - 1)
  }

  lemma {:induction false} Pow2Add(a: nat, b: nat)
    ensures Pow2(a + b) == Pow2(a) * Pow2(b)
  {
    if a > 0 {
      Pow2Add(a - 1, b);
    }
  }

  /** Shifting by one more byte multiplies by 256. */
  lemma Pow2Byte(n: nat)
    ensures Pow2(n + 8) == 256 * Pow2(n)
  {
    Pow2Add(n, 8);
    assert Pow2(8) == 256;
  }

  lemma Pow2Widths()
    ensures Pow2(8) == 0x100 && Pow2(16) == 0x1_0000 && Pow2(24) == 0x100_0000
    ensures Pow2(32) == 0x1_0000_0000 && Pow2(64) == TwoTo64
  {
    assert Pow2(8) == 256;
    Pow2Add(8, 8);
    Pow2Add(16, 8);
    Pow2Add(16, 16);
    Pow2Add(32, 32);
  }

  /** Division by a product is division by each factor in turn. */
  lemma DivDiv(a: nat, b: nat, c: nat)
    requires 0 < b && 0 < c
    ensures a / b / c == a / (b * c)
  {
    var q, r := a / b, a % b;
    var q2, r2 := q / c, q % c;
    assert a == q2 * (b * c) + (r2 * b + r) by {
      assert a == q * b + r;
      assert q == q2 * c + r2;
    }
    assert r2 * b + r < b * c by {
      assert r2 * b <= (c - 1) * b;
    }
    DivUnique(a, b * c, q2, r2 * b + r);
  }

  /** Quotient and remainder are unique. */
  lemma DivUnique(a: int, d: int, q: int, r: int)
    requires 0 < d && 0 <= r < d && a == q * d + r
    ensures a / d == q
  {
    var q', r' := a / d, a % d;
    assert q' * d + r' == q * d + r;
    if q' > q {
      MulAtLeast(q' - q, d);
    } else if q' < q {
      MulAtLeast(q - q', d);
    }
  }

  lemma MulAtLeast(x: int, d: int)
    requires 1 <= x && 0 < d
    ensures d <= x * d
  {
  }

  /** The two's-complement bit pattern of a Java `long`, read as an unsigned
      64-bit number: the unique value in [0, 2^64) congruent to `x`. */
  function Unsigned64(x: int64): (u: nat)
    ensures u < TwoTo64 && u % TwoTo64 == x % TwoTo64
  {
    if x >= 0 then x else x + TwoTo64
  }

  /** The `long` whose bit pattern is `u`; inverse of `Unsigned64`. */
  function Signed64(u: nat): (x: int64)
    requires u < TwoTo64
    ensures Unsigned64(x) == u
  {
    if u < TwoTo63 then u else u - TwoTo64
  }

  /** Java's `x >>> n` on a `long`: the bit pattern shifted right, zero-filled. */
  function UnsignedShiftRight(x: int64, n: nat): (v: nat)
    ensures v <= Unsigned64(x)
  {
    var u, p := Unsigned64(x), Pow2(n);
    DivLe(u, p);
    u / p
  }

  lemma DivLe(u: nat, p: nat)
    requires 0 < p
    ensures 0 <= u / p <= u
  {
    if u / p > u {
      MulAtLeast(p, u / p);
    }
  }

  /** The number whose base-256 digits, most significant first, are `s`. */
  function BeValue(s: seq<byte>): (v: nat)
    ensures v < Pow2(8 * |s|)
  {
    if s == [] then 0
    else
      Pow2Byte(8 * (|s| - 1));
      BeValue(s[..|s| - 1]) * 256 + s[|s| - 1]
  }

  /** The low `n` bytes of `u`, most significant first: byte `i` is
      `(u >>> 8 * (n - 1 - i)) & 0xFF`. */
  function BigEndian(u: nat, n: nat): (s: seq<byte>)
    ensures |s| == n
  {
    seq(n, i requires 0 <= i < n => (u / Pow2(8 * (n - 1 - i))) % 256)
  }

  /** Dropping the last byte of a big-endian layout is shifting right by one byte. */
  lemma BigEndianPrefix(u: nat, n: nat)
    requires 0 < n
    ensures BigEndian(u, n)[..n - 1] == BigEndian(u / 256, n - 1)
    ensures BigEndian(u, n)[n - 1] == u % 256
  {
    assert Pow2(8 * 0) == 1;
    forall i | 0 <= i < n - 1
      ensures BigEndian(u, n)[i] == BigEndian(u / 256, n - 1)[i]
    {
      var p := Pow2(8 * (n - 2 - i));
      Pow2Byte(8 * (n - 2 - i));
      assert 8 * (n - 1 - i) == 8 * (n - 2 - i) + 8;
      DivDiv(u, 256, p);
    }
  }

  /** Reading back a big-endian layout gives the number laid out, when it fits. */
  lemma {:induction false} BeValueOfBigEndian(u: nat, n: nat)
    requires u < Pow2(8 * n)
    ensures BeValue(BigEndian(u, n)) == u
  {
    if n > 0 {
      var s := BigEndian(u, n);
      Pow2Byte(8 * (n - 1));
      BigEndianPrefix(u, n);
      BeValueOfBigEndian(u / 256, n - 1);
      assert BeValue(s) == BeValue(s[..n - 1]) * 256 + s[n - 1];
    }
  }

  /** Laying out the value of a byte sequence gives the same bytes back. */
  lemma {:induction false} BigEndianOfBeValue(s: seq<byte>)
    ensures BigEndian(BeValue(s), |s|) == s
  {
    if s != [] {
      var n := |s|;
      var v := BeValue(s);
      var t := BigEndian(v, n);
      BigEndianPrefix(v, n);
      assert v / 256 == BeValue(s[..n - 1]);
      BigEndianOfBeValue(s[..n - 1]);
      assert t == t[..n - 1] + [t[n - 1]];
      assert s == s[..n - 1] + [s[n - 1]];
    }
  }
}
