/** Bit-level arithmetic on unbounded naturals: powers of two, reversal of
    the low `w` bits of a number, and bitwise exclusive-or.  These are the
    integer operations the evictor applies to `u64` values.
 */
module Bits {

  /** 2 to the power `k`, i.e. `1 << k` on an unbounded integer. */
  function Pow2(k: nat): (r: nat)
    ensures r >= 1
  {
    if k == 0 then 1 else 2 * Pow2(k - 1)
  }

  lemma {:induction false} Pow2Add(a: nat, b: nat)
    ensures Pow2(a) * Pow2(b) == Pow2(a + b)
  {
    if a > 0 {
      Pow2Add(a - 1, b);
      calc {
        Pow2(a) * Pow2(b);
        2 * Pow2(a - 1) * Pow2(b);
        2 * Pow2(a - 1 + b);
      }
    }
  }

  lemma {:induction false} Pow2Monotone(a: nat, b: nat)
    requires a <= b
    ensures Pow2(a) <= Pow2(b)
  {
    if a < b {
      Pow2Monotone(a, b - 1);
    }
  }

  lemma Pow2SixtyFour()
    ensures Pow2(64) == 0x1_0000_0000_0000_0000
  {
    assert Pow2(4) == 16;
    Pow2Add(4, 4);
    Pow2Add(8, 8);
    assert Pow2(16) == 0x1_0000;
    Pow2Add(16, 16);
    assert Pow2(32) == 0x1_0000_0000;
    Pow2Add(32, 32);
  }

  /** Quotient and remainder are determined by `x == q * d + r` with `0 <= r < d`. */
  lemma DivModUnique(x: nat, d: nat, q: nat, r: nat)
    requires 0 <= r < d
    requires x == q * d + r
    ensures x / d == q && x % d == r
  {
    var q', r' := x / d, x % d;
    assert x == q' * d + r';
    if q' > q {
      assert (q' - q) * d == r - r';
      MulAtLeast(q' - q, d);
    } else if q' < q {
      assert (q - q') * d == r' - r;
      MulAtLeast(q - q', d);
    }
  }

  lemma MulAtLeast(a: nat, d: nat)
    requires a >= 1
    ensures a * d >= d
  {
  }

  /** Dividing by `a` and then by `b` is dividing by `a * b`. */
  lemma DivDiv(x: nat, a: nat, b: nat)
    requires a > 0 && b > 0
    ensures x / a / b == x / (a * b)
  {
    var q, r := x / (a * b), x % (a * b);
    assert x == q * (a * b) + r;
    var r1, r0 := r / a, r % a;
    assert r == r1 * a + r0;
    Regroup(q, a, b, r1);
    assert x == (q * b + r1) * a + r0;
    DivModUnique(x, a, q * b + r1, r0);
    assert r1 < b by {
      if r1 >= b {
        MulMonotone(b, r1, a);
      }
    }
    DivModUnique(x / a, b, q, r1);
  }

  lemma Regroup(q: nat, a: nat, b: nat, r1: nat)
    ensures q * (a * b) + r1 * a == (q * b + r1) * a
  {
  }

  lemma MulMonotone(a: nat, b: nat, c: nat)
    requires a <= b
    ensures a * c <= b * c
  {
  }

  /** Halving a number below `2 * p` is reducing its half modulo `p`. */
  lemma HalfOfRemainder(x: nat, p: nat)
    requires p > 0
    ensures (x % (2 * p)) % 2 == x % 2
    ensures (x % (2 * p)) / 2 == (x / 2) % p
  {
    var q, y := x / (2 * p), x % (2 * p);
    assert x == q * (2 * p) + y;
    assert x == (q * p + y / 2) * 2 + y % 2;
    DivModUnique(x, 2, q * p + y / 2, y % 2);
    assert x / 2 == q * p + y / 2;
    DivModUnique(x / 2, p, q, y / 2);
  }

  /** The low `w` bits of `x` in reverse order: bit `i` of `x` becomes bit
      `w - 1 - i` of the result, for `0 <= i < w`. */
  function ReverseLow(x: nat, w: nat): (r: nat)
    ensures r < Pow2(w)
  {
    if w == 0 then 0 else (x % 2) * Pow2(w - 1) + ReverseLow(x / 2, w - 1)
  }

  /** `x >> k` on an unbounded integer: `k` successive halvings. */
  function ShiftRight(x: nat, k: nat): (r: nat)
  {
    if k == 0 then x else ShiftRight(x / 2, k - 1)
  }

  /** Shifting right by `k` is dividing by `2^k`. */
  lemma {:induction false} ShiftRightIsDivision(x: nat, k: nat)
    ensures ShiftRight(x, k) == x / Pow2(k)
  {
    if k > 0 {
      ShiftRightIsDivision(x / 2, k - 1);
      DivDiv(x, 2, Pow2(k - 1));
    }
  }

  /** Reversing `h + m` bits puts the reversed low `h` bits on top of the
      reversed next `m` bits. */
  lemma {:induction false} ReverseLowSplit(x: nat, h: nat, m: nat)
    ensures ReverseLow(x, h + m) == ReverseLow(x, h) * Pow2(m) + ReverseLow(ShiftRight(x, h), m)
  {
    if h > 0 {
      var k := h - 1 + m;
      ReverseLowSplit(x / 2, h - 1, m);
      Pow2Add(h - 1, m);
      var b, a, mm, pk := x % 2, Pow2(h - 1), Pow2(m), Pow2(k);
      var low, rest := ReverseLow(x / 2, h - 1), ReverseLow(ShiftRight(x / 2, h - 1), m);
      assert ReverseLow(x, h + m) == b * pk + ReverseLow(x / 2, k);
      assert ReverseLow(x, h) == b * a + low;
      assert ShiftRight(x, h) == ShiftRight(x / 2, h - 1);
      SplitArith(b, a, mm, pk, low, rest);
    }
  }

  lemma SplitArith(b: nat, a: nat, mm: nat, pk: nat, low: nat, rest: nat)
    requires pk == a * mm
    ensures b * pk + (low * mm + rest) == (b * a + low) * mm + rest
  {
  }

  /** Reversing the low `w` bits only looks at the low `w` bits. */
  lemma {:induction false} ReverseLowMod(x: nat, w: nat)
    ensures ReverseLow(x, w) == ReverseLow(x % Pow2(w), w)
  {
    if w > 0 {
      var p := Pow2(w - 1);
      var y := x % (2 * p);
      assert Pow2(w) == 2 * p;
      HalfOfRemainder(x, p);
      assert y % 2 == x % 2 && y / 2 == (x / 2) % p;
      assert ReverseLow(x, w) == (x % 2) * p + ReverseLow(x / 2, w - 1);
      assert ReverseLow(y, w) == (y % 2) * p + ReverseLow(y / 2, w - 1);
      ReverseLowMod(x / 2, w - 1);
    }
  }

  /** Reversal of the low `w` bits is its own inverse on numbers below `2^w`. */
  lemma {:induction false} ReverseLowInvolution(x: nat, w: nat)
    requires x < Pow2(w)
    ensures ReverseLow(ReverseLow(x, w), w) == x
  {
    if w > 0 {
      var v := w - 1;
      var p := Pow2(v);
      var b := x % 2;
      var low := ReverseLow(x / 2, v);
      var y := ReverseLow(x, w);
      assert y == b * p + low;
      assert b < 2 && low < p;
      DivModUnique(y, p, b, low);
      assert y / p == b && y % p == low;
      ReverseLowSplit(y, v, 1);
      ShiftRightIsDivision(y, v);
      assert ReverseLow(y, w) == ReverseLow(y, v) * 2 + ReverseLow(b, 1);
      assert ReverseLow(b, 1) == b;
      ReverseLowMod(y, v);
      assert ReverseLow(y, v) == ReverseLow(low, v);
      HalfBelow(x, p);
      ReverseLowInvolution(x / 2, v);
      assert ReverseLow(y, w) == (x / 2) * 2 + b;
    }
  }

  lemma HalfBelow(x: nat, p: nat)
    requires x < 2 * p
    ensures x / 2 < p
  {
  }

  /** Bitwise exclusive-or of two naturals (Rust's `^` on unsigned integers). */
  function Xor(a: nat, b: nat): (r: nat)
    decreases a + b
  {
    if a == 0 && b == 0 then 0 else 2 * Xor(a / 2, b / 2) + (a + b) % 2
  }

  /** Exclusive-or never exceeds the sum: it is addition without carries. */
  lemma {:induction false} XorAtMostSum(a: nat, b: nat)
    ensures Xor(a, b) <= a + b
    decreases a + b
  {
    if a != 0 || b != 0 {
      XorAtMostSum(a / 2, b / 2);
    }
  }

  /** Exclusive-or is zero only for equal operands. */
  lemma {:induction false} XorZero(a: nat, b: nat)
    requires Xor(a, b) == 0
    ensures a == b
    decreases a + b
  {
    if a != 0 || b != 0 {
      XorZero(a / 2, b / 2);
      assert a == 2 * (a / 2) + a % 2 && b == 2 * (b / 2) + b % 2;
    }
  }
}
