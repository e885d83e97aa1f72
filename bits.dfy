/**
 * The machine arithmetic behind the bucket index: C `int` hashes, their
 * conversion to `unsigned int`, powers of two and the mask `& (size - 1)`.
 */
module Bits {

  /** A C `int`: the type of the hash function's result and of the seed. */
  type Int32 = x: int | -0x8000_0000 <= x < 0x8000_0000

  /** 2^32, the number of `unsigned int` values. */
  const UINT_RANGE: nat := 0x1_0000_0000

  /** The C conversion of an `int` to `unsigned int`: reduction modulo 2^32. */
  function ToUnsigned(x: Int32): (u: nat)
    ensures u < UINT_RANGE
    ensures x >= 0 ==> u == x
    ensures x < 0 ==> u == x + UINT_RANGE
  {
    x % UINT_RANGE
  }

  /** n is one of 1, 2, 4, 8, ... */
  predicate IsPow2(n: nat)
    decreases n
  {
    n == 1 || (n >= 2 && n % 2 == 0 && IsPow2(n / 2))
  }

  /** Bitwise AND of two naturals, built from the least significant bit up. */
  function BitAnd(a: nat, b: nat): (r: nat)
    ensures r <= a && r <= b
    decreases a
  {
    if a == 0 || b == 0 then 0
    else 2 * BitAnd(a / 2, b / 2) + (if a % 2 == 1 && b % 2 == 1 then 1 else 0)
  }

  /** A positive multiple of a positive number is at least that number. */
  lemma {:induction false} MulAtLeast(m: int, d: int)
    requires m > 0 && d >= 1
    ensures m * d >= m
    decreases d
  {
    if d > 1 {
      MulAtLeast(m, d - 1);
      assert m * d == m * (d - 1) + m;
    }
  }

  /** Euclidean division is determined by its quotient and remainder. */
  lemma DivModUnique(x: int, m: int, q: int, r: int)
    requires m > 0 && 0 <= r < m && x == m * q + r
    ensures x % m == r && x / m == q
  {
    var q', r' := x / m, x % m;
    assert x == m * q' + r';
    assert m * (q - q') == r' - r by {
      assert m * (q - q') == m * q - m * q';
    }
    if q > q' {
      MulAtLeast(m, q - q');
    } else if q < q' {
      MulAtLeast(m, q' - q);
    }
  }

  /** Doubling a product doubles its first factor. */
  lemma DoubleFactor(h: int, q: int)
    ensures 2 * (h * q) == (2 * h) * q
  {
  }

  /** One step of the mask: the low bit, then the remaining bits shifted down. */
  lemma MaskStep(x: nat, m: nat)
    requires IsPow2(m) && m >= 2 && x > 0
    ensures BitAnd(x, m - 1) == 2 * BitAnd(x / 2, m / 2 - 1) + x % 2
  {
    assert (m - 1) / 2 == m / 2 - 1 && (m - 1) % 2 == 1;
  }

  /** The remainder modulo 2h is assembled from the low bit and the remainder of x / 2 modulo h. */
  lemma ModDouble(x: nat, h: nat)
    requires h > 0
    ensures x % (2 * h) == 2 * ((x / 2) % h) + x % 2
  {
    var q, b, r := (x / 2) / h, (x / 2) % h, x % 2;
    assert x / 2 == h * q + b;
    assert x == 2 * (x / 2) + r;
    DoubleFactor(h, q);
    assert x == (2 * h) * q + (2 * b + r);
    DivModUnique(x, 2 * h, q, 2 * b + r);
  }

  /** For a power of two m, masking with m - 1 keeps the remainder modulo m. */
  lemma {:induction false} MaskIsMod(x: nat, m: nat)
    requires IsPow2(m)
    ensures BitAnd(x, m - 1) == x % m
    decreases m
  {
    if m == 1 {
    } else if x == 0 {
    } else {
      MaskStep(x, m);
      MaskIsMod(x / 2, m / 2);
      ModDouble(x, m / 2);
    }
  }

  /** The product of two powers of two is a power of two. */
  lemma {:induction false} MulPow2(a: nat, b: nat)
    requires IsPow2(a) && IsPow2(b)
    ensures IsPow2(a * b)
    decreases a
  {
    if a > 1 {
      var c := (a / 2) * b;
      MulPow2(a / 2, b);
      DoubleFactor(a / 2, b);
      assert a * b == 2 * c;
      DivModUnique(a * b, 2, c, 0);
    }
  }

  /** 2^32 is a power of two: 2, squared five times. */
  lemma UintRangeIsPow2()
    ensures IsPow2(UINT_RANGE)
  {
    assert IsPow2(2);
    MulPow2(2, 2);
    MulPow2(4, 4);
    MulPow2(16, 16);
    MulPow2(256, 256);
    MulPow2(65536, 65536);
  }

  /** A smaller power of two divides a larger one: n is m times some t. */
  lemma {:induction false} Pow2Divides(m: nat, n: nat) returns (t: nat)
    requires IsPow2(m) && IsPow2(n) && m <= n
    ensures n == m * t
    decreases n
  {
    if m == n {
      t := 1;
    } else if m == 1 {
      t := n;
    } else {
      var h := Pow2Divides(m / 2, n / 2);
      assert n == 2 * (n / 2);
      assert m == 2 * (m / 2);
      DoubleFactor(m / 2, h);
      t := h;
    }
  }

  /** Adding a multiple of m does not change the remainder modulo m. */
  lemma ShiftByMultiple(x: int, u: int, m: int, t: int)
    requires m > 0 && u == x + m * t
    ensures x % m == u % m
  {
    var a, b := u / m, u % m;
    assert u == m * a + b;
    assert x == m * (a - t) + b by {
      assert m * (a - t) == m * a - m * t;
    }
    DivModUnique(x, m, a - t, b);
  }

  /**
   * Reducing the unsigned conversion of a hash modulo a power of two at most
   * 2^32 gives the Euclidean remainder of the signed hash: negative hashes
   * land in [0, m) as well.
   */
  lemma UnsignedModPow2(x: Int32, m: nat)
    requires IsPow2(m) && m <= UINT_RANGE
    ensures ToUnsigned(x) % m == x % m
  {
    if x < 0 {
      UintRangeIsPow2();
      var t := Pow2Divides(m, UINT_RANGE);
      ShiftByMultiple(x, ToUnsigned(x), m, t);
    }
  }

  /** Between p and 2p there is no power of two other than p. */
  lemma {:induction false} Pow2Gap(n: nat, p: nat)
    requires IsPow2(n) && IsPow2(p) && n < 2 * p
    ensures n <= p
    decreases n
  {
    if n > 1 {
      Pow2Gap(n / 2, p / 2);
    }
  }
}
