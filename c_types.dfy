/**
 * The fixed-width integer types of the firmware and the parts of C's
 * integer arithmetic the model needs written out: wrap-around of unsigned
 * 32-bit subtraction and signed division, which truncates toward zero
 * (Dafny's `/` on `int` is Euclidean), and the powers of two and
 * remainders by which unsigned shifts and masks are written as arithmetic.
 */
module CTypes {

  type uint8 = x: int | 0 <= x < 0x100
  type uint16 = x: int | 0 <= x < 0x1_0000
  type uint32 = x: int | 0 <= x < 0x1_0000_0000
  type int8 = x: int | -0x80 <= x < 0x80
  type int32 = x: int | -0x8000_0000 <= x < 0x8000_0000
  type uint64 = x: int | 0 <= x < 0x1_0000_0000_0000_0000

  const UInt32Modulus: int := 0x1_0000_0000
  const Int8Max: int8 := 0x7F

  /** Unsigned 32-bit subtraction `a - b` as C computes it on `uint32_t`. */
  function SubU32(a: uint32, b: uint32): (r: uint32)
    ensures a >= b ==> r == a - b
    ensures a < b ==> r == a - b + UInt32Modulus
  {
    (a - b) % UInt32Modulus
  }

  /** C's `/` on `int` by a positive divisor: the quotient rounded toward zero. */
  function CDiv(a: int, b: int): (r: int)
    requires b > 0
    ensures 0 <= a ==> 0 <= r * b <= a < r * b + b
    ensures a < 0 ==> r * b - b < a <= r * b <= 0
  {
    if a >= 0 then
      DivBounds(a, b);
      a / b
    else
      DivBounds(-a, b);
      NegMul((-a) / b, b);
      -((-a) / b)
  }

  lemma DivBounds(n: int, d: int)
    requires 0 <= n && 0 < d
    ensures 0 <= (n / d) * d <= n < (n / d) * d + d
  {
    assert n == (n / d) * d + n % d;
    assert n / d >= 0;
  }

  lemma NegMul(x: int, y: int)
    ensures (-x) * y == -(x * y)
  {
  }

  // ---------------------------------------------------------------------
  // Shifts and masks as arithmetic: on an unsigned value `x << k` is
  // `x * 2^k` (modulo the width), `x >> k` is `x / 2^k`, and masking with
  // the low `n` bits set is `x % 2^n`.

  function Pow2(n: nat): (p: nat)
    ensures p >= 1
  {
    if n == 0 then 1 else 2 * Pow2(n - 1)
  }

  lemma {:induction false} Pow2Add(a: nat, b: nat)
    ensures Pow2(a + b) == Pow2(a) * Pow2(b)
    decreases a
  {
    if a > 0 {
      Pow2Add(a - 1, b);
      calc {
        Pow2(a + b);
        2 * Pow2(a - 1 + b);
        2 * (Pow2(a - 1) * Pow2(b));
        (2 * Pow2(a - 1)) * Pow2(b);
      }
    }
  }

  lemma Pow2Plus2(n: nat)
    ensures Pow2(n + 2) == 4 * Pow2(n)
  {
    assert Pow2(n + 2) == 2 * Pow2(n + 1);
  }

  lemma Pow2Of8()
    ensures Pow2(8) == 0x100
  {
  }

  lemma Pow2Of16()
    ensures Pow2(16) == 0x1_0000
  {
    Pow2Of8();
    Pow2Add(8, 8);
  }

  lemma Pow2Of24()
    ensures Pow2(24) == 0x100_0000
  {
    Pow2Of8();
    Pow2Of16();
    Pow2Add(8, 16);
  }

  lemma Pow2Of32()
    ensures Pow2(32) == 0x1_0000_0000
  {
    Pow2Of16();
    Pow2Add(16, 16);
  }

  lemma Pow2Of64()
    ensures Pow2(64) == 0x1_0000_0000_0000_0000
  {
    Pow2Of32();
    Pow2Add(32, 32);
  }

  lemma MulAtLeast(k: int, d: int)
    requires k >= 1 && d > 0
    ensures k * d >= d
  {
  }

  /** Quotient and remainder are the only `q`, `s` with `x == q * d + s` and `0 <= s < d`. */
  lemma DivModUnique(x: int, d: int, q: int, s: int)
    requires d > 0 && 0 <= s < d
    requires x == q * d + s
    ensures x / d == q && x % d == s
  {
    var q', s' := x / d, x % d;
    assert x == q' * d + s';
    assert (q - q') * d == s' - s;
    if q > q' {
      MulAtLeast(q - q', d);
    } else if q < q' {
      MulAtLeast(q' - q, d);
    }
  }

  /** Adding a multiple of `d` leaves the remainder modulo `d` unchanged. */
  lemma ModAddMultiple(y: int, j: int, d: int)
    requires d > 0
    ensures (y + j * d) % d == y % d
  {
    assert y == (y / d) * d + y % d;
    assert y + j * d == (y / d + j) * d + y % d;
    DivModUnique(y + j * d, d, y / d + j, y % d);
  }

  /** Reducing modulo a multiple of `d` first does not change a later remainder modulo `d`. */
  lemma ModOfMod(x: int, a: int, d: int, k: int)
    requires d > 0 && k > 0
    ensures (x % (d * k) + a) % d == (x + a) % d
  {
    var m := d * k;
    var j := -(x / m) * k;
    assert x == (x / m) * m + x % m;
    assert x % m + a == (x + a) + j * d;
    ModAddMultiple(x + a, j, d);
  }

  /** Reducing modulo `d` before adding `a` does not change the sum's remainder. */
  lemma ModThenAdd(x: int, a: int, d: int)
    requires d > 0
    ensures (x % d + a) % d == (x + a) % d
  {
    ModOfMod(x, a, d, 1);
  }

  /** `w` placed above a low part `a < b`, reduced modulo `b * q`, keeps `a` and `w % q`. */
  lemma ModOfJoin(w: nat, a: nat, b: nat, q: nat)
    requires a < b && q > 0
    ensures (w * b + a) % (b * q) == (w % q) * b + a
  {
    var r := w % q;
    assert w == (w / q) * q + r;
    assert w * b + a == (w / q) * (b * q) + (r * b + a);
    assert (q - r) * b >= b by { MulAtLeast(q - r, b); }
    DivModUnique(w * b + a, b * q, w / q, r * b + a);
  }

  /** Reducing modulo `4 * p` then dividing by 4 is dividing by 4 then reducing modulo `p`. */
  lemma QuarterOfMod(x: nat, p: nat)
    requires p > 0
    ensures (x % (4 * p)) / 4 == (x / 4) % p
  {
    var s := x % (4 * p);
    var q := x / (4 * p);
    assert x == q * (4 * p) + s;
    assert x == 4 * (q * p + s / 4) + s % 4;
    DivModUnique(x, 4, q * p + s / 4, s % 4);
    assert s / 4 < p;
    DivModUnique(x / 4, p, q, s / 4);
  }
}
