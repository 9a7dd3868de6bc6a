/** Signed 128-bit integers kept in two machine words: the word-level steps of the operators of
    inet/src/util/int128.cc,
    each tied to integer arithmetic modulo 2^128 under two's complement. */
module TwosComplement {
  import opened Bits

  const B32: int := 0x1_0000_0000
  const B63: int := 0x8000_0000_0000_0000
  const B64: int := 0x1_0000_0000_0000_0000
  const B127: int := 0x8000_0000_0000_0000_0000_0000_0000_0000
  const B128: int := 0x1_0000_0000_0000_0000_0000_0000_0000_0000
  const INT128_MIN: int := -B127

  type uint64 = x: int | 0 <= x < 0x1_0000_0000_0000_0000
  type int64 = x: int | -0x8000_0000_0000_0000 <= x < 0x8000_0000_0000_0000

  /** Conversion to uint64_t. */
  function ToU64(x: int): uint64 {
    x % B64
  }

  /** Conversion to int64_t, two's complement. */
  function ToS64(x: int): int64 {
    var m := x % B64;
    if m < B63 then m else m - B64
  }

  predicate InRange(v: int) {
    INT128_MIN <= v < B127
  }

  /** The 128-bit two's complement number congruent to v. */
  function Wrap(v: int): (w: int)
    ensures InRange(w)
  {
    var m := v % B128;
    if m < B127 then m else m - B128
  }

  function Abs(v: int): nat {
    if v < 0 then -v else v
  }

  // ---------- two's complement facts ----------

  lemma WrapUnique(v: int, w: int, k: int)
    requires v == w + k * B128 && InRange(w)
    ensures Wrap(v) == w
  {
    if w >= 0 {
      DivModUnique(v, B128, k, w);
    } else {
      DivModUnique(v, B128, k - 1, w + B128);
    }
  }

  lemma WrapSmall(v: int)
    requires INT128_MIN <= v < B127
    ensures Wrap(v) == v
  {
    WrapUnique(v, v, 0);
  }

  lemma WrapForm(v: int) returns (k: int)
    ensures v == Wrap(v) + k * B128
  {
    k := if v % B128 < B127 then v / B128 else v / B128 + 1;
  }

  lemma WrapShift(v: int, k: int)
    ensures Wrap(v + k * B128) == Wrap(v)
  {
    var j := WrapForm(v);
    WrapUnique(v + k * B128, Wrap(v), j + k);
  }

  lemma WrapSum(x: int, y: int)
    ensures Wrap(Wrap(x) + Wrap(y)) == Wrap(x + y)
  {
    var j := WrapForm(x);
    var k := WrapForm(y);
    WrapShift(Wrap(x) + Wrap(y), j + k);
  }

  lemma WrapProduct(x: int, y: int)
    ensures Wrap(Wrap(x) * y) == Wrap(x * y)
  {
    var j := WrapForm(x);
    assert x * y == Wrap(x) * y + (j * y) * B128 by {
      assert (Wrap(x) + j * B128) * y == Wrap(x) * y + (j * B128) * y;
      assert (j * B128) * y == (j * y) * B128;
    }
    WrapShift(Wrap(x) * y, j * y);
  }

  lemma ToS64Form(x: int) returns (k: int)
    ensures x == ToS64(x) + k * B64
  {
    k := if x % B64 < B63 then x / B64 else x / B64 + 1;
  }

  // ---------- the two words ----------

  ghost function Join(lo: uint64, hi: int64): (v: int)
    ensures InRange(v)
  {
    hi * B64 + lo
  }

  /** The comparison of int128.cc: low words compare as signed when both highs are equal and negative. */
  predicate LessWords(alo: uint64, ahi: int64, blo: uint64, bhi: int64) {
    if ahi == bhi then
      if ahi < 0 then ToS64(alo) < ToS64(blo) else alo < blo
    else ahi < bhi
  }

  /** operator< is the integer order exactly when it does not compare two negative numbers
      with equal high words whose low words differ in their top bit. */
  lemma LessIsOrderExactly(alo: uint64, ahi: int64, blo: uint64, bhi: int64)
    ensures (LessWords(alo, ahi, blo, bhi) <==> Join(alo, ahi) < Join(blo, bhi))
       <==> !(ahi == bhi && ahi < 0 && (alo < B63) != (blo < B63))
  {
    if ahi < bhi {
      assert ahi + 1 <= bhi;
    } else if ahi > bhi {
      assert bhi + 1 <= ahi;
    } else {
      ToU64Small(alo);
      ToU64Small(blo);
    }
  }

  lemma ToU64Small(x: uint64)
    ensures ToU64(x) == x
    ensures ToS64(x) == if x < B63 then x else x - B64
  {
    DivModUnique(x, B64, 0, x);
  }

  lemma AddWords(alo: uint64, ahi: int64, blo: uint64, bhi: int64)
    ensures
      var lo := ToU64(alo + blo);
      var hi := ToS64(ahi + bhi);
      Join(lo, if lo < alo then ToS64(hi + 1) else hi) == Wrap(Join(alo, ahi) + Join(blo, bhi))
  {
    var lo := ToU64(alo + blo);
    var hi: int := ToS64(ahi + bhi);
    var k := ToS64Form(ahi + bhi);
    var c := if alo + blo < B64 then 0 else 1;
    DivModUnique(alo + blo, B64, c, alo + blo - c * B64);
    assert (lo < alo) == (c == 1);
    if c == 1 {
      var k' := ToS64Form(hi + 1);
      WrapUnique(Join(alo, ahi) + Join(blo, bhi), Join(lo, ToS64(hi + 1)), k + k');
    } else {
      WrapUnique(Join(alo, ahi) + Join(blo, bhi), Join(lo, hi), k);
    }
  }

  /** The words of the negation, as operator- computes them. */
  function NegLo(lo: int): uint64 {
    if lo == 0 then 0 else ToU64(-lo)
  }

  function NegHi(lo: int, hi: int): int64 {
    if lo == 0 then ToS64(-hi) else ToS64(-1 - hi)
  }

  lemma NegateWords(lo: uint64, hi: int64)
    ensures Join(NegLo(lo), NegHi(lo, hi)) == Wrap(-Join(lo, hi))
  {
    var l: int, h: int := lo, hi;
    if l == 0 {
      var k := ToS64Form(-h);
      WrapUnique(-Join(lo, hi), Join(0, NegHi(l, h)), k);
    } else {
      DivModUnique(-l, B64, -1, B64 - l);
      var k := ToS64Form(-1 - h);
      WrapUnique(-Join(lo, hi), Join(NegLo(l), NegHi(l, h)), k);
    }
  }

  // ---------- shifts within and across the words ----------

  function ShiftLeft(x: int, n: nat): int {
    x * Pow2(n)
  }

  /** Arithmetic right shift: division rounding down. */
  function ShiftRight(x: int, n: nat): (y: int)
    ensures x >= 0 ==> 0 <= y <= x
    ensures x < 0 ==> x <= y < 0
  {
    DivNonNegative(x, Pow2(n));
    DivNegative(x, Pow2(n));
    x / Pow2(n)
  }

  /** The n low bits set. */
  function LowMask(n: nat): nat {
    Pow2(n) - 1
  }

  /** The n high bits of the low word, as the left shift moves them into the high word. */
  function HighBits(lo: uint64, n: nat): nat
    requires 0 < n < 64
  {
    ShiftRight(BitAnd(lo, ToU64(-1 - LowMask(64 - n))), 64 - n)
  }

  function ShlHi(lo: uint64, hi: int64, n: nat): int64
    requires 0 < n < 64
  {
    ToS64(BitOr(ToU64(ToS64(ShiftLeft(ToU64(hi), n))), HighBits(lo, n)))
  }

  function ShrLo(lo: uint64, hi: int64, n: nat): nat
    requires 0 < n < 64
  {
    BitOr(ShiftRight(lo, n), ToU64(ShiftLeft(BitAnd(ToU64(hi), LowMask(n)), 64 - n)))
  }

  lemma DivNonNegative(x: int, p: int)
    requires p > 0
    ensures x >= 0 ==> 0 <= x / p <= x
  {
    var q := x / p;
    assert x == q * p + x % p;
    if x >= 0 {
      MulMonotone(1, p, q);
      if q < 0 { MulMonotone(q, -1, p); assert false; }
    }
  }

  lemma DivNegative(x: int, p: int)
    requires p > 0
    ensures x < 0 ==> x <= x / p < 0
  {
    var q := x / p;
    assert x == q * p + x % p;
    if x < 0 {
      if q >= 0 { MulMonotone(0, q, p); assert false; }
      var a := -q - 1;
      MulMonotone(1, p, a);
      assert a * p == -(q * p) - p;
    }
  }

  lemma ModShift(x: int, k: int, d: int)
    requires d > 0
    ensures (x + k * d) % d == x % d
    ensures (x + k * d) / d == x / d + k
  {
    assert x + k * d == (x / d + k) * d + x % d by {
      assert (x / d + k) * d == (x / d) * d + k * d;
    }
    DivModUnique(x + k * d, d, x / d + k, x % d);
  }

  lemma ModProduct(x: int, p: int, w: int)
    requires w > 0
    ensures ((x % w) * p) % w == (x * p) % w
  {
    var j := x / w;
    assert x * p == (x % w) * p + (j * p) * w by {
      assert (x % w + j * w) * p == (x % w) * p + (j * w) * p;
      assert (j * w) * p == (j * p) * w;
    }
    ModShift((x % w) * p, j * p, w);
  }

  /** Multiplying by p in words of p * q values: the quotient by q is carried out. */
  lemma CarryOut(lo: int, p: int, q: int)
    requires p > 0 && q > 0 && 0 <= lo < p * q
    ensures (lo * p) % (p * q) == (lo % q) * p && (lo * p) / (p * q) == lo / q
    ensures 0 <= lo / q < p
  {
    var w, top, low: int := p * q, lo / q, lo % q;
    assert lo == top * q + low;
    CarryValue(lo, p, q, top, low);
    MulMonotone(0, low, p);
    MulMonotone(low, q - 1, p);
    assert (q - 1) * p == w - p;
    DivModUnique(lo * p, w, top, low * p);
    TopFits(lo, p, q, top, low);
  }

  lemma CarryValue(lo: int, p: int, q: int, top: int, low: int)
    requires lo == top * q + low
    ensures lo * p == top * (p * q) + low * p
  {
    MulDistributes(top * q, low, p);
    MulAssociative(top, q, p);
    assert q * p == p * q;
  }

  lemma TopFits(lo: int, p: int, q: int, top: int, low: int)
    requires 0 <= low < q && 0 <= lo < p * q && lo == top * q + low
    ensures 0 <= top < p
  {
    if top >= p {
      MulMonotone(p, top, q);
    }
    if top < 0 {
      MulMonotone(top, -1, q);
    }
  }

  lemma MultipleModulo(x: int, p: int, q: int)
    requires p > 0 && q > 0
    ensures p * q > 0 && ((x * p) % (p * q)) % p == 0
  {
    MulMonotone(1, q, p);
    var w := p * q;
    var d := x * p / w;
    assert (x * p) % w == (x - d * q) * p by {
      assert d * w == (d * q) * p;
    }
    DivModUnique((x - d * q) * p, p, x - d * q, 0);
  }

  lemma {:induction false} ShlAlgebra(w: int, p: int, lo: int, hi: int, hu: int, j: int, top: int, lo': int, hi': int,
                                      k: int)
    requires hi * p == hu + j * w
    requires lo * p == top * w + lo'
    requires hu + top == hi' + k * w
    ensures (hi * w + lo) * p == (hi' * w + lo') + (k + j) * (w * w)
  {
    calc {
      (hi * w + lo) * p;
    ==
      (hi * p) * w + lo * p;
    ==
      (hu + j * w) * w + (top * w + lo');
    ==
      (hu + top) * w + j * (w * w) + lo';
    ==
      (hi' + k * w) * w + j * (w * w) + lo';
    ==
      (hi' * w + lo') + (k + j) * (w * w);
    }
  }

  lemma ShlWords(lo: uint64, hi: int64, n: nat)
    requires 0 < n < 64
    ensures Join(ToU64(ShiftLeft(lo, n)), ShlHi(lo, hi, n)) == Wrap(ShiftLeft(Join(lo, hi), n))
  {
    var p, q := Pow2(n), Pow2(64 - n);
    var top, hu := HighBits(lo, n), (hi * p) % B64;
    WordSplit(n);
    HighBitsValue(lo, n);
    CarryOut(lo, p, q);
    MultipleModulo(hi, p, q);
    ModProduct(hi, p, B64);
    var k1 := ToS64Form(ToU64(hi) * p);
    ModShift(ToS64(ToU64(hi) * p), k1, B64);
    assert ToU64(ToS64(ShiftLeft(ToU64(hi), n))) == hu;
    HighLow(hu, n);
    OrDisjoint(hu, top, n);
    var hi' := ShlHi(lo, hi, n);
    var k := ToS64Form(hu + top);
    ShlAlgebra(B64, p, lo, hi, hu, hi * p / B64, top, (lo * p) % B64, hi', k);
    WrapUnique(Join(lo, hi) * p, Join((lo * p) % B64, hi'), k + hi * p / B64);
  }

  lemma WordSplit(n: nat)
    requires n <= 64
    ensures Pow2(n) * Pow2(64 - n) == B64 && Pow2(64 - n) <= B64
  {
    PowWords();
    PowAdd(n, 64 - n);
    PowMonotone(64 - n, 64);
  }

  /** The complement of the low mask keeps the bits from k up. */
  lemma HighMask(k: nat)
    requires k <= 64
    ensures ToU64(-1 - LowMask(k)) == Pow2(64) - Pow2(k)
  {
    var q: int := Pow2(k);
    PowWords();
    PowMonotone(k, 64);
    DivModUnique(-q, B64, -1, B64 - q);
  }

  lemma DropRemainder(x: int, d: int)
    requires d > 0
    ensures (x - x % d) / d == x / d
  {
    DivModUnique(x - x % d, d, x / d, 0);
  }

  lemma MaskedHigh(lo: uint64, m: nat, k: nat)
    requires k <= m && m == 64
    ensures BitAnd(lo, ToU64(-1 - LowMask(k))) == lo - lo % Pow2(k)
  {
    HighMask(k);
    assert Pow2(m) == B64 by { PowWords(); }
    AndHigh(lo, m, k);
    HighLow(lo, k);
  }

  lemma HighBitsValue(lo: uint64, n: nat)
    requires 0 < n < 64
    ensures HighBits(lo, n) == lo / Pow2(64 - n)
  {
    var k := 64 - n;
    MaskedHigh(lo, 64, k);
    DropRemainder(lo, Pow2(k));
  }

  lemma {:induction false} ShrAlgebra(lo: int, hi: int, p: int, q: int)
    requires p > 0 && q > 0
    ensures (hi * (p * q) + lo) / p == (hi / p) * (p * q) + (hi % p) * q + lo / p
  {
    var h, m, l, r := hi / p, hi % p, lo / p, lo % p;
    var w := p * q;
    calc {
      hi * w + lo;
    ==
      (h * p + m) * w + (l * p + r);
    ==
      (h * w) * p + m * w + l * p + r;
    == { assert m * w == (m * q) * p; }
      (h * w + m * q + l) * p + r;
    }
    DivModUnique(hi * w + lo, p, h * w + m * q + l, r);
  }

  lemma ModOfMod(x: int, p: int, q: int)
    requires p > 0 && q > 0
    ensures p * q > 0 && (x % (p * q)) % p == x % p
  {
    MulMonotone(1, q, p);
    var w := p * q;
    var j := x / w;
    assert x == x % w + (j * q) * p by { assert j * w == (j * q) * p; }
    ModShift(x % w, j * q, p);
  }

  lemma FieldFits(low: int, p: int, q: int)
    requires q > 0 && 0 <= low < p
    ensures 0 <= low * q <= p * q - q
    ensures (low * q) % (p * q) == low * q && (low * q) % q == 0
  {
    MulMonotone(0, low, q);
    MulMonotone(low, p - 1, q);
    DivModUnique(low * q, p * q, 0, low * q);
    DivModUnique(low * q, q, low, 0);
  }

  /** The n low bits of the high word, moved to the top of the low word. */
  lemma LowBitsMoved(hi: int64, n: nat)
    requires 0 < n < 64
    ensures ToU64(ShiftLeft(BitAnd(ToU64(hi), LowMask(n)), 64 - n)) == (hi % Pow2(n)) * Pow2(64 - n)
  {
    AndLow(ToU64(hi), n);
    HighLow(ToU64(hi), n);
    ModOfMod(hi, Pow2(n), Pow2(64 - n));
    FieldFits(hi % Pow2(n), Pow2(n), Pow2(64 - n));
    WordSplit(n);
  }

  lemma QuotientFits(lo: uint64, n: nat)
    requires 0 < n < 64
    ensures 0 <= lo / Pow2(n) < Pow2(64 - n)
  {
    WordSplit(64 - n);
    CarryOut(lo, Pow2(64 - n), Pow2(n));
  }

  lemma OrFields(low: nat, l: nat, k: nat)
    requires l < Pow2(k) && (low * Pow2(k)) % Pow2(k) == 0
    ensures low * Pow2(k) >= 0 && BitOr(l, low * Pow2(k)) == low * Pow2(k) + l
  {
    MulMonotone(0, low, Pow2(k));
    OrCommutes(l, low * Pow2(k));
    HighLow(low * Pow2(k), k);
    OrDisjoint(low * Pow2(k), l, k);
  }

  lemma ShrLoValue(lo: uint64, hi: int64, n: nat)
    requires 0 < n < 64
    ensures ShrLo(lo, hi, n) == (hi % Pow2(n)) * Pow2(64 - n) + lo / Pow2(n) < B64
  {
    LowBitsMoved(hi, n);
    QuotientFits(lo, n);
    FieldFits(hi % Pow2(n), Pow2(n), Pow2(64 - n));
    OrFields(hi % Pow2(n), lo / Pow2(n), 64 - n);
    WordSplit(n);
  }

  lemma ShrWords(lo: uint64, hi: int64, n: nat)
    requires 0 < n < 64
    ensures ShrLo(lo, hi, n) < B64 && -B63 <= ShiftRight(hi, n) < B63
    ensures Join(ShrLo(lo, hi, n), ShiftRight(hi, n)) == ShiftRight(Join(lo, hi), n)
  {
    ShrLoValue(lo, hi, n);
    ShrAlgebra(lo, hi, Pow2(n), Pow2(64 - n));
    WordSplit(n);
  }

  // ---------- shifts by whole words ----------

  lemma {:induction false} ShlUpAlgebra(w: int, p: int, lo: int, hi: int, r: int, k: int)
    requires lo * p == r + k * w
    ensures (hi * w + lo) * (w * p) == r * w + (hi * p + k) * (w * w)
  {
    calc {
      (hi * w + lo) * (w * p);
    ==
      (hi * w) * (w * p) + lo * (w * p);
    == { assert lo * (w * p) == (lo * p) * w; }
      (hi * p) * (w * w) + (r + k * w) * w;
    ==
      r * w + (hi * p + k) * (w * w);
    }
  }

  lemma PowSplit(w: nat, n: nat)
    requires w <= n
    ensures Pow2(n) == Pow2(w) * Pow2(n - w)
  {
    PowAdd(w, n - w);
  }

  lemma ShlWordUp(lo: uint64, hi: int64, n: nat)
    requires 64 <= n < 128
    ensures Join(0, ToS64(ShiftLeft(lo, n - 64))) == Wrap(ShiftLeft(Join(lo, hi), n))
  {
    var p := Pow2(n - 64);
    PowSplit(64, n);
    assert Pow2(64) == B64 by { PowWords(); }
    var k := ToS64Form(lo * p);
    ShlUpAlgebra(B64, p, lo, hi, ToS64(lo * p), k);
    WrapUnique(Join(lo, hi) * Pow2(n), Join(0, ToS64(lo * p)), hi * p + k);
  }

  lemma ShlAllOut(v: int, n: nat)
    requires n >= 128
    ensures Wrap(ShiftLeft(v, n)) == 0
  {
    var p := Pow2(n - 128);
    PowSplit(n - 128, n);
    assert Pow2(128) == B128 by { PowWords(); }
    MulAssociative(v, p, B128);
    WrapUnique(v * Pow2(n), 0, v * p);
  }

  lemma DropLowWord(lo: uint64, hi: int64, m: nat)
    ensures Join(lo, hi) / Pow2(64 + m) == hi / Pow2(m)
  {
    PowAdd(64, m);
    DivDiv(Join(lo, hi), Pow2(64), Pow2(m));
    assert Join(lo, hi) / Pow2(64) == hi by {
      PowWords();
      DivModUnique(Join(lo, hi), B64, hi, lo);
    }
  }

  lemma ShrAllOut(x: int, n: nat)
    requires -Pow2(n) <= x < Pow2(n)
    ensures ShiftRight(x, n) == if x < 0 then -1 else 0
  {
    if x < 0 {
      DivModUnique(x, Pow2(n), -1, x + Pow2(n));
    } else {
      DivModUnique(x, Pow2(n), 0, x);
    }
  }

  lemma ShrWordDown(lo: uint64, hi: int64, n: nat)
    requires 64 <= n < 128
    ensures Join(ToU64(ShiftRight(hi, n - 64)), if hi < 0 then -1 else 0) == ShiftRight(Join(lo, hi), n)
  {
    DropLowWord(lo, hi, n - 64);
    var y := ShiftRight(hi, n - 64);
    if hi < 0 {
      DivModUnique(y, B64, -1, y + B64);
    } else {
      DivModUnique(y, B64, 0, y);
    }
  }

  // ---------- single bits ----------

  /** Bit n of the (infinite) two's complement expansion of v. */
  predicate BitOf(v: int, n: nat) {
    (v / Pow2(n)) % 2 == 1
  }

  lemma EvenPower(x: int, n: nat)
    requires n > 0
    ensures (x * Pow2(n)) % 2 == 0
  {
    MulAssociative(x, Pow2(n - 1), 2);
    DivModUnique(x * Pow2(n), 2, x * Pow2(n - 1), 0);
  }

  lemma EvenSum(x: int, y: int)
    requires y % 2 == 0
    ensures (x + y) % 2 == x % 2
  {
  }

  /** Adding a multiple of 2^w changes no bit below w. */
  lemma BitBelow(x: int, j: int, w: nat, n: nat)
    requires n < w
    ensures BitOf(x + j * Pow2(w), n) == BitOf(x, n)
  {
    PowAdd(w - n, n);
    MulAssociative(j, Pow2(w - n), Pow2(n));
    ModShift(x, j * Pow2(w - n), Pow2(n));
    EvenPower(j, w - n);
    EvenSum(x / Pow2(n), j * Pow2(w - n));
  }

  lemma BitBelowWord(x: int, j: int, n: nat)
    requires n < 64
    ensures BitOf(x + j * B64, n) == BitOf(x, n)
  {
    var w := 64;
    assert Pow2(w) == B64 by { PowWords(); }
    BitBelow(x, j, w, n);
  }

  lemma BitHighWord(lo: uint64, hi: int64, n: nat)
    requires 64 <= n < 128
    ensures BitOf(Join(lo, hi), n) == BitOf(ToU64(hi), n - 64)
  {
    var m := n - 64;
    DropLowWord(lo, hi, m);
    BitBelowWord(ToU64(hi), hi / B64, m);
  }
}
