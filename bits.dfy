/**
 * Integer arithmetic behind the address masks of the cache simulator:
 * powers of two, the integer part of log2, repeated `>>= 1` and the C
 * bitwise `&` on non-negative integers.
 */
module Bits {

  /** 2 to the power k. */
  function Pow2(k: nat): (r: nat)
    ensures r >= 1
  {
    if k == 0 then 1 else 2 * Pow2(k - 1)
  }

  /** The powers of two the 16-bit masks use. */
  lemma Pow2Values()
    ensures Pow2(14) == 0x4000 && Pow2(16) == 0x10000
  {
    assert Pow2(1) == 2;
    assert Pow2(2) == 4;
    assert Pow2(3) == 8;
    assert Pow2(4) == 16;
    assert Pow2(5) == 32;
    assert Pow2(6) == 64;
    assert Pow2(7) == 128;
    assert Pow2(8) == 256;
    assert Pow2(9) == 512;
    assert Pow2(10) == 1024;
    assert Pow2(11) == 2048;
    assert Pow2(12) == 4096;
    assert Pow2(13) == 8192;
    assert Pow2(14) == 16384;
    assert Pow2(15) == 32768;
  }

  lemma {:induction false} Pow2Monotone(a: nat, b: nat)
    requires a <= b
    ensures Pow2(a) <= Pow2(b)
  {
    if a < b {
      Pow2Monotone(a, b - 1);
    }
  }

  /**
   * The integer part of log2(x): what `(int)(log(x) / log(2))` computes when
   * the floating-point quotient is not rounded below an exact integer.
   */
  function Log2(x: int): (r: nat)
    requires x >= 1
    ensures Pow2(r) <= x < 2 * Pow2(r)
  {
    if x == 1 then 0 else 1 + Log2(x / 2)
  }

  /** The value of a non-negative `x` after `n` executions of `x >>= 1`: x divided by 2^n. */
  function ShiftRight(x: nat, n: nat): (r: nat)
    ensures r == x / Pow2(n)
  {
    if n == 0 then x
    else
      DivTwice(x, Pow2(n - 1));
      ShiftRight(x, n - 1) / 2
  }

  /** Shifting a run of w one-bits right n times leaves a run of w - n one-bits. */
  lemma {:induction false} ShiftRightOnes(w: nat, n: nat)
    ensures ShiftRight(Pow2(w) - 1, n) == if n <= w then Pow2(w - n) - 1 else 0
  {
    if n > 0 {
      ShiftRightOnes(w, n - 1);
      if n <= w {
        assert Pow2(w - n + 1) == 2 * Pow2(w - n);
      }
    }
  }

  /**
   * How many one-bits the 16-bit mask 0xFFFF keeps after the loop
   * `for (i = 0; i < 16 - bits; i++) mask >>= 1;`: the loop runs 16 - bits
   * times when that is positive and not at all otherwise.
   */
  function MaskWidth(bits: int): (w: nat)
    ensures w <= 16
    ensures 0 <= bits <= 16 ==> w == bits
  {
    if bits <= 0 then 0 else if bits >= 16 then 16 else bits
  }

  /** A mask never keeps more bits than the bit length asked for. */
  lemma MaskWidthWithin(bits: int)
    ensures bits >= 0 ==> Pow2(MaskWidth(bits)) <= Pow2(bits)
  {
    if bits >= 0 {
      Pow2Monotone(MaskWidth(bits), bits);
    }
  }

  /** Bitwise AND of two non-negative integers, least significant bit first. */
  function BitAnd(a: nat, b: nat): (r: nat)
    ensures r <= a && r <= b
    decreases a
  {
    if a == 0 || b == 0 then 0
    else 2 * BitAnd(a / 2, b / 2) + (if a % 2 == 1 && b % 2 == 1 then 1 else 0)
  }

  lemma MulAtLeast(d: nat, x: nat)
    requires x >= 1
    ensures d * x >= d
  {
  }

  lemma DivModUnique(a: int, d: int, q: int, r: int)
    requires d > 0 && a == d * q + r && 0 <= r < d
    ensures a / d == q && a % d == r
  {
    var q', r' := a / d, a % d;
    assert d * q' + r' == d * q + r;
    if q' > q {
      assert d * q' == d * q + d * (q' - q);
      MulAtLeast(d, q' - q);
    } else if q' < q {
      assert d * q == d * q' + d * (q - q');
      MulAtLeast(d, q - q');
    }
  }

  lemma ModOfDouble(a: nat, m: nat)
    requires m >= 1
    ensures a % (2 * m) == 2 * ((a / 2) % m) + a % 2
  {
    var q, s := (a / 2) / m, (a / 2) % m;
    assert a / 2 == m * q + s;
    assert a == (2 * m) * q + (2 * s + a % 2);
    DivModUnique(a, 2 * m, q, 2 * s + a % 2);
  }

  /** A remainder never exceeds the number divided. */
  lemma ModAtMost(a: nat, m: nat)
    requires m >= 1
    ensures a % m <= a
  {
    if a < m {
      DivModUnique(a, m, 0, a);
    }
  }

  /** Halving after dividing by m is dividing by 2m. */
  lemma DivTwice(x: nat, m: nat)
    requires m >= 1
    ensures (x / m) / 2 == x / (2 * m)
  {
    var q, s := x / m, x % m;
    var q2, t := q / 2, q % 2;
    assert x == m * q + s;
    assert m * q == (2 * m) * q2 + m * t by {
      assert q == 2 * q2 + t;
    }
    assert m * t + s < 2 * m by {
      if t == 1 {
        assert m * t == m;
      } else {
        assert m * t == 0;
      }
    }
    DivModUnique(x, 2 * m, q2, m * t + s);
  }

  /** ANDing with the mask 2^k - 1 keeps the k low bits: the remainder modulo 2^k. */
  lemma {:induction false} BitAndLowMask(a: nat, k: nat)
    ensures BitAnd(a, Pow2(k) - 1) == a % Pow2(k)
  {
    if k > 0 && a > 0 {
      var m := Pow2(k - 1);
      var b := Pow2(k) - 1;
      assert b / 2 == m - 1 && b % 2 == 1 by {
        assert b == 2 * (m - 1) + 1;
      }
      assert BitAnd(a, b) == 2 * BitAnd(a / 2, m - 1) + a % 2;
      BitAndLowMask(a / 2, k - 1);
      assert BitAnd(a, b) == 2 * ((a / 2) % m) + a % 2;
      ModOfDouble(a, m);
      assert Pow2(k) == 2 * m;
    } else if a == 0 {
      DivModUnique(0, Pow2(k), 0, 0);
    }
  }

  /** An even mask has a clear low bit: ANDing with 2b is ANDing the rest with b. */
  lemma BitAndEvenMask(a: nat, b: nat)
    ensures BitAnd(a, 2 * b) == 2 * BitAnd(a / 2, b)
  {
  }
}
