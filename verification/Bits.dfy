/** Powers of two and the bitwise operators of C on non-negative integers, defined bit by bit,
    with the masks that Int128 uses expressed through division and remainder. */
module Bits {

  function Pow2(n: nat): (p: int)
    ensures p > 0
  {
    if n == 0 then 1 else 2 * Pow2(n - 1)
  }

  function BitAnd(x: nat, y: nat): (z: nat)
    ensures z <= x
  {
    if x == 0 || y == 0 then 0 else 2 * BitAnd(x / 2, y / 2) + (if x % 2 == 1 && y % 2 == 1 then 1 else 0)
  }

  function BitOr(x: nat, y: nat): nat
  {
    if x == 0 then y
    else if y == 0 then x
    else 2 * BitOr(x / 2, y / 2) + (if x % 2 + y % 2 == 0 then 0 else 1)
  }

  lemma {:induction false} PowAdd(m: nat, n: nat)
    ensures Pow2(m + n) == Pow2(m) * Pow2(n)
  {
    if m == 0 {
    } else {
      PowAdd(m - 1, n);
      assert Pow2(m + n) == 2 * Pow2(m - 1 + n);
      assert 2 * (Pow2(m - 1) * Pow2(n)) == (2 * Pow2(m - 1)) * Pow2(n);
    }
  }

  lemma {:induction false} PowMonotone(m: nat, n: nat)
    requires m <= n
    ensures Pow2(m) <= Pow2(n)
  {
    if m < n {
      PowMonotone(m, n - 1);
    }
  }

  lemma PowNext(n: nat, p: int)
    requires Pow2(n) == p
    ensures Pow2(n + 1) == 2 * p
    ensures Pow2(n + n + 1) == 2 * (p * p)
  {
    PowAdd(n, n);
  }

  lemma PowWords()
    ensures Pow2(63) == 0x8000_0000_0000_0000
    ensures Pow2(64) == 0x1_0000_0000_0000_0000
    ensures Pow2(127) == 0x8000_0000_0000_0000_0000_0000_0000_0000
    ensures Pow2(128) == 0x1_0000_0000_0000_0000_0000_0000_0000_0000
  {
    PowNext(0, 1);
    PowNext(1, 2);
    PowNext(3, 8);
    PowNext(7, 0x80);
    PowNext(15, 0x8000);
    PowNext(31, 0x8000_0000);
    PowNext(63, 0x8000_0000_0000_0000);
    PowNext(127, 0x8000_0000_0000_0000_0000_0000_0000_0000);
  }

  lemma DivModUnique(x: int, d: int, q: int, r: int)
    requires d > 0 && 0 <= r < d && x == q * d + r
    ensures x / d == q && x % d == r
  {
    var q', r' := x / d, x % d;
    assert x == q' * d + r';
    assert (q - q') * d == r' - r;
    MulAtLeast(q - q', d);
    MulAtLeast(q' - q, d);
    assert (q' - q) * d == -((q - q') * d);
  }

  lemma MulAssociative(x: int, y: int, z: int)
    ensures x * (y * z) == (x * y) * z
  {
  }

  lemma MulDistributes(x: int, y: int, z: int)
    ensures (x + y) * z == x * z + y * z
    ensures z * (x + y) == z * x + z * y
  {
  }

  lemma MulAtLeast(k: int, d: int)
    requires d > 0
    ensures k >= 1 ==> k * d >= d
  {
  }

  /** x without its k low bits. */
  function High(x: int, k: nat): (h: int)
    ensures x >= 0 ==> h >= 0
    decreases k
  {
    if k == 0 then x else High(x / 2, k - 1)
  }

  /** The k low bits of x. */
  function Low(x: int, k: nat): (l: nat)
    decreases k
  {
    if k == 0 then 0 else 2 * Low(x / 2, k - 1) + x % 2
  }

  /** High and Low are the floor quotient and the remainder by 2^k. */
  lemma {:induction false} HighLow(x: int, k: nat)
    ensures x / Pow2(k) == High(x, k) && x % Pow2(k) == Low(x, k)
  {
    HighLowSum(x, k);
    DivModUnique(x, Pow2(k), High(x, k), Low(x, k));
  }

  lemma {:induction false} HighLowSum(x: int, k: nat)
    ensures x == High(x, k) * Pow2(k) + Low(x, k) && Low(x, k) < Pow2(k)
    decreases k
  {
    if k == 0 {
    } else {
      HighLowSum(x / 2, k - 1);
      DoubledSum(x, High(x / 2, k - 1), Pow2(k - 1), Low(x / 2, k - 1));
    }
  }

  lemma DoubledSum(x: int, h: int, p: int, l: int)
    requires x / 2 == h * p + l
    ensures x == h * (2 * p) + (2 * l + x % 2)
  {
    assert h * (2 * p) == 2 * (h * p);
    assert x == 2 * (x / 2) + x % 2;
  }

  lemma {:induction false} LowOfSmall(x: nat, m: nat)
    requires x < Pow2(m)
    ensures Low(x, m) == x
  {
    if m > 0 { LowOfSmall(x / 2, m - 1); }
  }

  lemma AndStepOdd(x: nat, h: nat)
    ensures BitAnd(x, 2 * h + 1) == 2 * BitAnd(x / 2, h) + x % 2
  {
    var y := 2 * h + 1;
    assert y / 2 == h && y % 2 == 1;
  }

  lemma AndStepEven(x: nat, h: nat)
    ensures BitAnd(x, 2 * h) == 2 * BitAnd(x / 2, h)
  {
    var y := 2 * h;
    assert y / 2 == h && y % 2 == 0;
  }

  /** Masking with 2^k - 1 keeps the low k bits. */
  lemma {:induction false} AndLow(x: nat, k: nat)
    ensures BitAnd(x, Pow2(k) - 1) == Low(x, k)
  {
    if k == 0 {
    } else {
      AndLow(x / 2, k - 1);
      AndStepOdd(x, Pow2(k - 1) - 1);
    }
  }

  /** Masking with 2^m - 2^k clears the low k bits of an m-bit number. */
  lemma {:induction false} AndHigh(x: nat, m: nat, k: nat)
    requires k <= m && x < Pow2(m)
    ensures 0 <= Pow2(m) - Pow2(k)
    ensures BitAnd(x, Pow2(m) - Pow2(k)) == x - Low(x, k)
  {
    hide BitAnd;
    PowMonotone(k, m);
    if k == 0 {
      AndLow(x, m);
      LowOfSmall(x, m);
    } else {
      AndHigh(x / 2, m - 1, k - 1);
      AndStepEven(x, Pow2(m - 1) - Pow2(k - 1));
    }
  }

  /** Disjoint bit fields: or is addition. */
  lemma {:induction false} OrDisjoint(a: nat, b: nat, k: nat)
    requires Low(a, k) == 0 && b < Pow2(k)
    ensures BitOr(a, b) == a + b
  {
    if k == 0 {
    } else {
      OrDisjoint(a / 2, b / 2, k - 1);
    }
  }

  lemma {:induction false} AndBit(x: nat, k: nat)
    ensures BitAnd(x, Pow2(k)) == if High(x, k) % 2 == 1 then Pow2(k) else 0
  {
    if k == 0 {
      AndStepOdd(x, 0);
      assert BitAnd(x / 2, 0) == 0;
    } else {
      AndBit(x / 2, k - 1);
      AndStepEven(x, Pow2(k - 1));
    }
  }

  lemma {:induction false} OrBit(x: nat, k: nat)
    ensures BitOr(x, Pow2(k)) == if High(x, k) % 2 == 1 then x else x + Pow2(k)
  {
    if k == 0 {
      assert BitOr(x / 2, 0) == x / 2;
    } else {
      OrBit(x / 2, k - 1);
      OrStepEven(x, Pow2(k - 1));
    }
  }

  lemma OrStepEven(x: nat, h: nat)
    ensures BitOr(x, 2 * h) == 2 * BitOr(x / 2, h) + x % 2
  {
    var y := 2 * h;
    assert y / 2 == h && y % 2 == 0;
    if x == 0 {
    } else if y == 0 {
      assert BitOr(x / 2, 0) == x / 2;
    }
  }

  /** Masking with all ones but bit k clears that bit of an m-bit number. */
  lemma {:induction false} AndNotBit(x: nat, m: nat, k: nat)
    requires k < m && x < Pow2(m)
    ensures Pow2(k) < Pow2(m)
    ensures BitAnd(x, Pow2(m) - 1 - Pow2(k)) == if High(x, k) % 2 == 1 then x - Pow2(k) else x
    decreases k
  {
    hide BitAnd;
    PowMonotone(k + 1, m);
    if k == 0 {
      AndNotLowest(x, m);
    } else {
      var h := Pow2(m - 1) - 1 - Pow2(k - 1);
      AndNotBit(x / 2, m - 1, k - 1);
      AndStepOdd(x, h);
      assert Pow2(m) - 1 - Pow2(k) == 2 * h + 1;
      assert High(x, k) == High(x / 2, k - 1);
    }
  }

  lemma AndNotLowest(x: nat, m: nat)
    requires 0 < m && x < Pow2(m)
    ensures BitAnd(x, Pow2(m) - 2) == x - x % 2
  {
    AndStepEven(x, Pow2(m - 1) - 1);
    AndLow(x / 2, m - 1);
    LowOfSmall(x / 2, m - 1);
  }

  lemma {:induction false} OrBitFits(x: nat, m: nat, k: nat)
    requires k < m && x < Pow2(m) && High(x, k) % 2 == 0
    ensures x + Pow2(k) < Pow2(m)
  {
    if k > 0 { OrBitFits(x / 2, m - 1, k - 1); }
  }

  lemma {:induction false} OrCommutes(x: nat, y: nat)
    ensures BitOr(x, y) == BitOr(y, x)
  {
    if x != 0 && y != 0 { OrCommutes(x / 2, y / 2); }
  }

  /** The low k + 1 bits are the low k bits and bit k. */
  lemma ModSplit(x: int, k: nat)
    ensures x % Pow2(k + 1) == x % Pow2(k) + Pow2(k) * ((x / Pow2(k)) % 2)
    ensures x / Pow2(k + 1) == x / Pow2(k) / 2
  {
    var p := Pow2(k);
    var q, r := x / p, x % p;
    assert x == q * p + r;
    assert q == 2 * (q / 2) + q % 2;
    assert q * p == (q / 2) * (2 * p) + (q % 2) * p by {
      assert (2 * (q / 2) + q % 2) * p == 2 * (q / 2) * p + (q % 2) * p;
    }
    DivModUnique(x, 2 * p, q / 2, (q % 2) * p + r);
  }

  lemma DivDiv(x: int, a: int, b: int)
    requires a > 0 && b > 0
    ensures a * b > 0 && x / (a * b) == (x / a) / b
  {
    var q, r := x / a, x % a;
    var q', r' := q / b, q % b;
    var c := a * b;
    assert c > 0 by { MulMonotone(1, b, a); }
    assert q * a == q' * c + r' * a by {
      assert (q' * b + r') * a == (q' * b) * a + r' * a;
      assert (q' * b) * a == q' * c;
    }
    MulMonotone(0, r', a);
    MulMonotone(r', b - 1, a);
    DivModUnique(x, c, q', r' * a + r);
  }

  lemma MulMonotone(x: int, y: int, d: int)
    requires x <= y && 0 <= d
    ensures x * d <= y * d
  {
  }
}
