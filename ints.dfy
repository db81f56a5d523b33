/**
 * Java's fixed-width integers over Dafny's unbounded `int`: the ranges of
 * `byte`, `short`, `int` and `long`, two's-complement narrowing (the casts and
 * `Number.byteValue()`/`shortValue()`/`intValue()`/`longValue()`), and the
 * big-endian byte layout that the binary stream classes read and write.
 */
module JavaInts {

  type i8 = x: int | -0x80 <= x < 0x80
  type i16 = x: int | -0x8000 <= x < 0x8000
  type i32 = x: int | -0x8000_0000 <= x < 0x8000_0000
  type i64 = x: int | -0x8000_0000_0000_0000 <= x < 0x8000_0000_0000_0000

  /** One byte on the wire, as `InputStream.read()` returns it when not at end of stream. */
  type u8 = x: int | 0 <= x < 0x100

  function Pow256(n: nat): (p: int)
    ensures p >= 1
    ensures n >= 1 ==> p >= 256
  {
    if n == 0 then 1 else 256 * Pow256(n - 1)
  }

  /** Two's-complement narrowing to `n` bytes: the unique value of that width congruent to `x`. */
  function Signed(x: int, n: nat): (r: int)
    requires n >= 1
    ensures -Pow256(n) / 2 <= r < Pow256(n) / 2
  {
    var m := Pow256(n);
    var u := x % m;
    if u < m / 2 then u else u - m
  }

  /** Narrowing keeps `x` modulo 256^n: the two differ by a multiple of 256^n. */
  lemma SignedCongruent(x: int, n: nat)
    requires n >= 1
    ensures (x - Signed(x, n)) % Pow256(n) == 0
  {
    var m := Pow256(n);
    var u := x % m;
    var q := if u < m / 2 then x / m else x / m + 1;
    DivMod(x, m);
    assert x - Signed(x, n) == m * q + 0;
    DivModUnique(x - Signed(x, n), m, q, 0);
  }

  /** `(byte) x` and `Number.byteValue()` */
  function ToI8(x: int): (r: i8)
  {
    Signed(x, 1)
  }

  /** `(short) x` and `Number.shortValue()` */
  function ToI16(x: int): (r: i16)
  {
    Signed(x, 2)
  }

  /** `(int) x` and `Number.intValue()` */
  function ToI32(x: int): (r: i32)
  {
    Signed(x, 4)
  }

  /** `(long) x` and `Number.longValue()` */
  function ToI64(x: int): (r: i64)
  {
    Signed(x, 8)
  }

  /** The `n` low-order bytes of `x`, most significant first (x may be negative). */
  function ToBytes(x: int, n: nat): (bs: seq<u8>)
    ensures |bs| == n
    decreases n
  {
    if n == 0 then [] else ToBytes(x / 256, n - 1) + [x % 256]
  }

  /** The unsigned value of a big-endian byte sequence. */
  function FromBytes(bs: seq<u8>): (u: int)
    ensures 0 <= u < Pow256(|bs|)
  {
    if bs == [] then 0 else FromBytes(bs[..|bs| - 1]) * 256 + bs[|bs| - 1]
  }

  lemma DivModUnique(x: int, m: int, q: int, r: int)
    requires m > 0 && 0 <= r < m && x == m * q + r
    ensures x / m == q && x % m == r
  {
    var q', r' := x / m, x % m;
    assert m * (q - q') == r' - r;
    if q > q' {
      MulAtLeast(m, q - q');
    } else if q' > q {
      MulAtLeast(m, q' - q);
    }
  }

  lemma MulAtLeast(m: int, d: int)
    requires m > 0 && d >= 1
    ensures m * d >= m
  {
  }

  lemma DivDiv(u: int, a: int, b: int)
    requires a > 0 && b > 0
    ensures a * b > 0
    ensures u / a / b == u / (a * b)
  {
    var q, r := u / a, u % a;
    var s, t := q / b, q % b;
    DivMod(u, a);
    DivMod(q, b);
    assert a * q == (a * b) * s + a * t by {
      Distrib(a, b * s, t);
      MulAssoc(a, b, s);
    }
    assert a * t + a <= a * b by {
      Distrib(a, t, 1);
      MulMonotone(a, t + 1, b);
    }
    assert 0 <= a * t by {
      MulMonotone(a, 0, t);
    }
    assert a * b > 0 by {
      MulMonotone(a, 1, b);
    }
    DivModUnique(u, a * b, s, a * t + r);
  }

  lemma DivMod(x: int, m: int)
    requires m > 0
    ensures x == m * (x / m) + x % m && 0 <= x % m < m
  {
  }

  lemma MulAssoc(a: int, b: int, c: int)
    ensures a * (b * c) == (a * b) * c
  {
  }

  lemma Distrib(a: int, b: int, c: int)
    ensures a * (b + c) == a * b + a * c
  {
  }

  lemma MulMonotone(a: int, x: int, y: int)
    requires a >= 0 && x <= y
    ensures a * x <= a * y
  {
    Distrib(a, x, y - x);
  }

  /** Byte `k` of the layout is the shifted-and-masked value that Java's write loops emit. */
  lemma {:induction false} ToBytesAt(x: int, n: nat, k: nat)
    requires k < n
    ensures ToBytes(x, n)[k] == (x / Pow256(n - 1 - k)) % 256
    decreases n
  {
    if k < n - 1 {
      ToBytesAt(x / 256, n - 1, k);
      DivDiv(x, 256, Pow256(n - 2 - k));
    }
  }

  /** Reading back the layout recovers the value modulo 256^n. */
  lemma {:induction false} FromToBytes(x: int, n: nat)
    ensures FromBytes(ToBytes(x, n)) == x % Pow256(n)
    decreases n
  {
    if n > 0 {
      var bs := ToBytes(x, n);
      assert bs[..n - 1] == ToBytes(x / 256, n - 1);
      FromToBytes(x / 256, n - 1);
      var p := Pow256(n - 1);
      var q, r := x / 256, x % 256;
      var a, b := q / p, q % p;
      assert FromBytes(bs) == 256 * b + r;
      assert q == p * a + b by {
        DivMod(q, p);
      }
      assert x == 256 * q + r;
      assert x == (256 * p) * a + (256 * b + r) by {
        MulAssoc(256, p, a);
      }
      assert 256 * b + r < 256 * p;
      DivModUnique(x, 256 * p, a, 256 * b + r);
    }
  }

  /** Narrowing an in-range value's unsigned pattern gives the value back. */
  lemma SignedOfPattern(v: int, n: nat)
    requires n >= 1
    requires -Pow256(n) / 2 <= v < Pow256(n) / 2
    ensures Signed(v % Pow256(n), n) == v
  {
    var m := Pow256(n);
    if v >= 0 {
      DivModUnique(v, m, 0, v);
    } else {
      DivModUnique(v, m, -1, v + m);
    }
    DivModUnique(v % m, m, 0, v % m);
  }

  /** Big-endian write then read is the identity on every value of the width. */
  lemma BytesRoundTrip(v: int, n: nat)
    requires n >= 1
    requires -Pow256(n) / 2 <= v < Pow256(n) / 2
    ensures Signed(FromBytes(ToBytes(v, n)), n) == v
  {
    FromToBytes(v, n);
    SignedOfPattern(v, n);
  }
}
