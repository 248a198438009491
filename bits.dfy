/** Unsigned 32-bit words and the C bit operators the ring buffer relies on
    (`|`, `&`, `>>`, wrapping `+`), stated bit by bit on natural numbers. */
module Bits {
  /** 2^32: the modulus of `uint32_t` arithmetic. */
  const U32: int := 0x1_0000_0000

  /** The values of a C `uint32_t`. */
  newtype u32 = x: int | 0 <= x < 0x1_0000_0000

  function Pow2(k: nat): (p: nat)
    ensures p >= 1
  {
    if k == 0 then 1 else 2 * Pow2(k - 1)
  }

  /** The exponent of the largest power of two not above n. */
  function Log2(n: nat): (k: nat)
    requires n >= 1
    ensures Pow2(k) <= n < Pow2(k + 1)
  {
    if n == 1 then 0 else 1 + Log2(n / 2)
  }

  /** Bit i (weight 2^i) of x is set. */
  predicate Bit(x: nat, i: nat)
  {
    if i == 0 then x % 2 == 1 else Bit(x / 2, i - 1)
  }

  /** Bitwise inclusive or, C's `a | b`. */
  function Or(a: nat, b: nat): (r: nat)
    decreases a + b
  {
    if a == 0 then b
    else if b == 0 then a
    else 2 * Or(a / 2, b / 2) + (if a % 2 == 1 || b % 2 == 1 then 1 else 0)
  }

  /** Bitwise and, C's `a & b`; it never exceeds either operand. */
  function And(a: nat, b: nat): (r: nat)
    ensures r <= a && r <= b
  {
    if a == 0 || b == 0 then 0
    else 2 * And(a / 2, b / 2) + (if a % 2 == 1 && b % 2 == 1 then 1 else 0)
  }

  /** Logical shift right, C's `a >> s`; it never exceeds its operand. */
  function Shr(a: nat, s: nat): (r: nat)
    ensures r <= a
  {
    if s == 0 then a else Shr(a / 2, s - 1)
  }

  /** `a | b` on two `uint32_t` operands. */
  function Or32(a: u32, b: u32): (r: u32)
  {
    Pow2Of32();
    OrBelow(a as nat, b as nat, 32);
    Or(a as nat, b as nat) as u32
  }

  /** `a >> s` on a `uint32_t` operand. */
  function Shr32(a: u32, s: nat): (r: u32)
  {
    Shr(a as nat, s) as u32
  }

  /** `a & b` on two `uint32_t` operands. */
  function And32(a: u32, b: u32): (r: u32)
  {
    And(a as nat, b as nat) as u32
  }

  /** `a + b` on `uint32_t`: wraps past 2^32 (at most once, as both
      operands are below 2^32). */
  function Add32(a: u32, b: u32): (r: u32)
  {
    if a as int + b as int < U32 then (a as int + b as int) as u32
    else (a as int + b as int - U32) as u32
  }

  /** `a - b` on `uint32_t`: wraps below 0 (at most once). */
  function Sub32(a: u32, b: u32): (r: u32)
  {
    if a >= b then (a as int - b as int) as u32
    else (a as int - b as int + U32) as u32
  }

  // ---------------------------------------------------------------------
  // Powers of two

  lemma Pow2Of32()
    ensures Pow2(32) == U32
  {
    assert Pow2(4) == 16;
    Pow2Add(4, 4);
    Pow2Add(8, 8);
    Pow2Add(16, 16);
  }

  lemma {:induction false} Pow2Add(a: nat, b: nat)
    ensures Pow2(a + b) == Pow2(a) * Pow2(b)
  {
    if a > 0 {
      Pow2Add(a - 1, b);
    }
  }

  /** Powers of two grow at least twofold per step. */
  lemma {:induction false} Pow2Grows(j: nat, k: nat)
    requires j < k
    ensures 2 * Pow2(j) <= Pow2(k)
  {
    if j + 1 < k {
      Pow2Grows(j, k - 1);
    }
  }

  /** A smaller power of two divides a larger one. */
  lemma {:induction false} Pow2Divides(j: nat, k: nat)
    requires j <= k
    ensures Pow2(k) % Pow2(j) == 0
  {
    var a, b := Pow2(j), Pow2(k - j);
    Pow2Add(j, k - j);
    assert Pow2(k) == b * a + 0;
    DivModUnique(Pow2(k), a, b, 0);
  }

  // ---------------------------------------------------------------------
  // Euclidean division facts

  /** Quotient and remainder are determined by the division equation. */
  lemma DivModUnique(x: int, d: int, q: int, r: int)
    requires d > 0 && 0 <= r < d && x == q * d + r
    ensures x / d == q && x % d == r
  {
    var q', r' := x / d, x % d;
    assert q' * d + r' == q * d + r;
    if q' > q {
      MulAtLeast(q' - q, d);
    } else if q' < q {
      MulAtLeast(q - q', d);
    }
  }

  /** The quotient is zero exactly when the dividend is below the divisor. */
  lemma DivIsZero(a: nat, b: nat)
    requires b > 0
    ensures a / b == 0 <==> a < b
  {
    if a < b {
      DivModUnique(a, b, 0, a);
    } else {
      DivModUnique(a, b, a / b, a % b);
    }
  }

  lemma MulMono(a: int, b: int, c: int)
    requires 0 <= a <= b && c >= 0
    ensures a * c <= b * c
  {
  }

  lemma MulAtLeast(a: int, d: int)
    requires a >= 1 && d > 0
    ensures a * d >= d
  {
  }

  /** Reducing modulo m first does not change a residue modulo a divisor c of m. */
  lemma ModOfMod(a: int, c: int, m: int)
    requires c > 0 && m > 0 && m % c == 0
    ensures (a % m) % c == a % c
  {
    var t := m / c;
    assert m == t * c;
    var u, v := (a % m) / c, (a % m) % c;
    assert a == (t * (a / m) + u) * c + v by {
      assert a == (a / m) * m + a % m;
      assert a % m == u * c + v;
    }
    DivModUnique(a, c, t * (a / m) + u, v);
  }

  /** Adding at most c to a moves its residue modulo c forward, wrapping once. */
  lemma ModAddSmall(a: int, k: int, c: int)
    requires c > 0 && 0 <= k <= c
    ensures (a + k) % c == if a % c + k < c then a % c + k else a % c + k - c
  {
    if a % c + k < c {
      DivModUnique(a + k, c, a / c, a % c + k);
    } else {
      DivModUnique(a + k, c, a / c + 1, a % c + k - c);
    }
  }

  /** Wrapping addition is addition modulo 2^32. */
  lemma Add32IsMod(a: u32, b: u32)
    ensures Add32(a, b) as int == (a as int + b as int) % U32
  {
    if a as int + b as int < U32 {
      DivModUnique(a as int + b as int, U32, 0, a as int + b as int);
    } else {
      DivModUnique(a as int + b as int, U32, 1, a as int + b as int - U32);
    }
  }

  /** Wrapping subtraction undoes wrapping addition: the distance from r to
      r + d (mod 2^32) is d. */
  lemma SubOfAdd32(r: u32, d: u32)
    ensures Sub32(Add32(r, d), r) == d
  {
  }

  /** Two successive wrapping advances are one advance by their sum, while the
      sum stays below 2^32. */
  lemma Add32Twice(r: u32, a: u32, b: u32)
    requires a as int + b as int < U32
    ensures Add32(Add32(r, a), b) == Add32(r, (a as int + b as int) as u32)
  {
  }

  /** Halving, reducing modulo p and restoring the low bit is reduction modulo 2p. */
  lemma ModDouble(x: nat, p: nat)
    requires p >= 1
    ensures 2 * ((x / 2) % p) + x % 2 == x % (2 * p)
  {
    var q, r := (x / 2) / p, (x / 2) % p;
    assert x == q * (2 * p) + (2 * r + x % 2);
    DivModUnique(x, 2 * p, q, 2 * r + x % 2);
  }

  // ---------------------------------------------------------------------
  // Bits of the operators

  lemma {:induction false} BitOfZero(i: nat)
    ensures !Bit(0, i)
  {
    if i > 0 {
      BitOfZero(i - 1);
    }
  }

  lemma {:induction false} BitOfOr(a: nat, b: nat, i: nat)
    ensures Bit(Or(a, b), i) == (Bit(a, i) || Bit(b, i))
    decreases i
  {
    if a == 0 {
      BitOfZero(i);
    } else if b == 0 {
      BitOfZero(i);
    } else if i > 0 {
      var o := Or(a / 2, b / 2);
      var c := if a % 2 == 1 || b % 2 == 1 then 1 else 0;
      assert Or(a, b) == 2 * o + c;
      assert Or(a, b) / 2 == o;
      assert Bit(Or(a, b), i) == Bit(o, i - 1);
      BitOfOr(a / 2, b / 2, i - 1);
    }
  }

  lemma {:induction false} BitOfShr(x: nat, s: nat, i: nat)
    ensures Bit(Shr(x, s), i) == Bit(x, i + s)
  {
    if s > 0 {
      BitOfShr(x / 2, s - 1, i);
    }
  }

  /** A number below 2^L has no bit at or above position L. */
  lemma {:induction false} NoBitAbove(x: nat, L: nat, i: nat)
    requires x < Pow2(L) && L <= i
    ensures !Bit(x, i)
  {
    if L == 0 {
      BitOfZero(i);
    } else {
      NoBitAbove(x / 2, L - 1, i - 1);
    }
  }

  /** Or of two numbers below 2^L stays below 2^L. */
  lemma {:induction false} OrBelow(a: nat, b: nat, L: nat)
    requires a < Pow2(L) && b < Pow2(L)
    ensures Or(a, b) < Pow2(L)
  {
    if a != 0 && b != 0 {
      OrBelow(a / 2, b / 2, L - 1);
    }
  }

  /** A number below 2^L whose L low bits are all set is 2^L - 1. */
  lemma {:induction false} AllOnes(x: nat, L: nat)
    requires x < Pow2(L)
    requires forall i: nat :: i < L ==> Bit(x, i)
    ensures x == Pow2(L) - 1
  {
    if L > 0 {
      forall i: nat | i < L - 1
        ensures Bit(x / 2, i)
      {
        assert Bit(x, i + 1);
      }
      AllOnes(x / 2, L - 1);
      assert Bit(x, 0);
    }
  }

  /** The highest set bit of a number in [2^(L-1), 2^L) is bit L-1. */
  lemma {:induction false} TopBit(n: nat, L: nat)
    requires L >= 1 && Pow2(L - 1) <= n < Pow2(L)
    ensures Bit(n, L - 1)
  {
    if L > 1 {
      TopBit(n / 2, L - 1);
    }
  }

  /** The inductive step of AndLowMask: if masking x/2 with 2^(k-1) - 1 keeps
      its k-1 low bits, masking x with 2^k - 1 keeps its k low bits. */
  lemma AndLowMaskStep(x: nat, k: nat)
    requires k > 0 && x > 0
    requires And(x / 2, Pow2(k - 1) - 1) == (x / 2) % Pow2(k - 1)
    ensures And(x, Pow2(k) - 1) == x % Pow2(k)
  {
    var p := Pow2(k - 1);
    var m := Pow2(k) - 1;
    assert m == 2 * (p - 1) + 1;
    assert m / 2 == p - 1 && m % 2 == 1;
    assert And(x, m) == 2 * ((x / 2) % p) + x % 2;
    ModDouble(x, p);
  }

  /** Masking with 2^k - 1 keeps the k low bits: `x & (2^k - 1) == x mod 2^k`. */
  lemma {:induction false} AndLowMask(x: nat, k: nat)
    ensures And(x, Pow2(k) - 1) == x % Pow2(k)
  {
    if k == 0 {
      DivModUnique(x, 1, x, 0);
    } else if x == 0 {
      DivModUnique(0, Pow2(k), 0, 0);
    } else {
      AndLowMask(x / 2, k - 1);
      AndLowMaskStep(x, k);
    }
  }
}
