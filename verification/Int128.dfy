/** The class Int128 of inet/src/util/int128.cc and int128.h: operators that update two words in
    place, shift-add multiplication and restoring division, proved against integer arithmetic. */
module Int128Model {
  import opened Bits
  import opened CStrings
  import opened Numerals
  import opened TwosComplement

  class Int128 {
    var lo: uint64
    var hi: int64

    /** The integer that the two words stand for. */
    ghost function Value(): (v: int)
      reads this
      ensures InRange(v) && INT128_MIN <= v < B127
    {
      Join(lo, hi)
    }

    constructor FromWords(lo: uint64, hi: int64)
      ensures this.lo == lo && this.hi == hi
      ensures Value() == hi * B64 + lo
    {
      this.lo, this.hi := lo, hi;
    }

    constructor Copy(a: Int128)
      ensures lo == a.lo && hi == a.hi
      ensures Value() == a.Value()
    {
      lo, hi := a.lo, a.hi;
    }

    predicate IsZero()
      reads this
      ensures IsZero() <==> Value() == 0
    {
      hi == 0 && lo == 0
    }

    /** operator< */
    predicate Less(b: Int128)
      reads this, b
      ensures Value() >= 0 || b.Value() >= 0 ==> (Less(b) <==> Value() < b.Value())
    {
      LessIsOrderExactly(lo, hi, b.lo, b.hi);
      LessWords(lo, hi, b.lo, b.hi)
    }

    predicate IsNegative()
      reads this
      ensures IsNegative() <==> Value() < 0
    {
      LessIsOrderExactly(lo, hi, 0, 0);
      LessWords(lo, hi, 0, 0)
    }

    method Assign(b: Int128)
      modifies this
      ensures Value() == old(b.Value())
    {
      lo, hi := b.lo, b.hi;
    }

    /** Unary minus. */
    method Negate() returns (r: Int128)
      ensures fresh(r) && r.Value() == Wrap(-Value())
    {
      NegateWords(lo, hi);
      r := new Int128.FromWords(NegLo(lo), NegHi(lo, hi));
    }

    /** operator+=; b may be this object. */
    method AddAssign(b: Int128)
      modifies this
      ensures Value() == Wrap(old(Value()) + old(b.Value()))
    {
      AddWords(lo, hi, b.lo, b.hi);
      var oldLo := lo;
      lo := ToU64(lo + b.lo);
      hi := ToS64(hi + b.hi);
      if lo < oldLo {
        hi := ToS64(hi as int + 1);
      }
    }

    /** operator-=; b may be this object. */
    method SubAssign(b: Int128)
      modifies this
      ensures Value() == Wrap(old(Value()) - old(b.Value()))
    {
      var m := b.Negate();
      ghost var v, w := Value(), b.Value();
      AddAssign(m);
      WrapSum(-w, v);
      assert Wrap(v) == v by { WrapSmall(v); }
    }

    /** operator<<=, for every shift count. */
    method ShlAssign(n: nat)
      modifies this
      ensures Value() == Wrap(ShiftLeft(old(Value()), n))
    {
      if n >= 128 {
        ShlAllOut(Value(), n);
        lo, hi := 0, 0;
        return;
      }
      if n >= 64 {
        ShlWordUp(lo, hi, n);
        hi := ToS64(ShiftLeft(lo, n - 64));
        lo := 0;
        return;
      }
      if n != 0 {
        ShlWords(lo, hi, n);
        hi := ShlHi(lo, hi, n);
        lo := ToU64(ShiftLeft(lo, n));
      } else {
        WrapSmall(Value());
      }
    }

    /** operator>>=, for every shift count: division by 2^n rounding down. */
    method ShrAssign(n: nat)
      modifies this
      ensures Value() == ShiftRight(old(Value()), n)
    {
      if n >= 128 {
        assert -Pow2(n) <= Value() < Pow2(n) by { PowWords(); PowMonotone(128, n); }
        ShrAllOut(Value(), n);
        hi := if hi < 0 then -1 else 0;
        lo := ToU64(hi);
        return;
      }
      if n >= 64 {
        ShrWordDown(lo, hi, n);
        lo := ToU64(ShiftRight(hi, n - 64));
        hi := if hi < 0 then -1 else 0;
        return;
      }
      if n != 0 {
        ShrWords(lo, hi, n);
        lo := ShrLo(lo, hi, n);
        hi := ShiftRight(hi, n);
      }
    }

    /** bit(n): the sign for n >= 128. */
    predicate Bit(n: nat)
      reads this
      ensures Bit(n) <==> BitOf(Value(), n)
    {
      BitValue(lo, hi, n);
      BitWords(lo, hi, n)
    }

    /** bit(n, val): no effect for n >= 128. */
    method SetBit(n: nat, val: bool)
      modifies this
      ensures Value() == if n >= 128 then old(Value()) else ValueWithBit(old(Value()), n, val)
    {
      if n >= 128 {
        return;
      }
      if n < 64 {
        SetLowBit(lo, hi, n, val);
        lo := WithBit(lo, n, val);
      } else {
        SetHighBit(lo, hi, n, val);
        hi := ToS64(WithBit(ToU64(hi), n - 64, val));
      }
    }

    /** operator*=: shift-add over 128 bits; b may be this object. */
    method MulAssign(b: Int128)
      modifies this
      ensures Value() == Wrap(old(Value()) * old(b.Value()))
    {
      hide Wrap, Pow2, BitAnd, BitOr;
      WrapSmall(0);
      ghost var av, bv := Value(), b.Value();
      if b.IsZero() {
        lo, hi := 0, 0;
        assert av * bv == 0;
        return;
      }
      if b.hi == 0 && b.lo == 1 {
        WrapSmall(av);
        assert av * bv == av;
        return;
      }
      var a := new Int128.Copy(this);
      var t := new Int128.Copy(b);
      lo, hi := 0, 0;
      MulStart(av, bv);
      for i := 0 to 128
        invariant fresh(a) && fresh(t) && a != t
        invariant a.Value() == av
        invariant t.Value() == bv / Pow2(i)
        invariant Value() == Wrap(av * (bv % Pow2(i)))
      {
        LowestBit(t.lo, t.hi);
        MulStep(av, bv, i);
        if BitAnd(t.lo, 1) != 0 {
          var s := new Int128.Copy(a);
          s.ShlAssign(i);
          AddAssign(s);
        }
        t.ShrAssign(1);
      }
      MulEnd(av, bv);
    }

    /** r <<= 1; if (bit) r.lo |= 1; */
    method ShiftIn(bit: bool)
      requires 0 <= Value() && 2 * Value() + 1 < B127
      modifies this
      ensures Value() == 2 * old(Value()) + (if bit then 1 else 0)
    {
      hide Wrap, Pow2;
      WrapSmall(2 * Value());
      DoubledByShift(Value());
      ShlAssign(1);
      if bit {
        OrLowest(lo);
        lo := BitOr(lo, 1);
      }
    }

    /** The first loop of div: shifts in leading bits of dd until the divisor fits.  The counter b is
        an unsigned int, so it wraps when bit 0 has been taken; afterwards it is the number of bits left. */
    static method LeadingBits(dd: Int128, ds: Int128) returns (r: Int128, b: nat)
      requires 0 < ds.Value() <= dd.Value()
      ensures fresh(r) && b < 128
      ensures r.Value() == dd.Value() / Pow2(b)
      ensures 0 <= r.Value() < 2 * ds.Value()
    {
      hide *;
      ghost var dv, sv := dd.Value(), ds.Value();
      r := new Int128.FromWords(0, 0);
      b := 127;
      ghost var m: nat := 128;   // the number of bits not yet taken
      LeadingStart(dv, sv);
      while r.Less(ds)
        invariant fresh(r) && dd.Value() == dv && ds.Value() == sv
        invariant Leading(r.Value(), m, b, dv, sv)
        decreases m
      {
        LeadingStep(r.Value(), m, b, dv, sv);
        var bit := dd.Bit(b);
        m, b := m - 1, if b == 0 then B32 - 1 else b - 1;
        r.ShiftIn(bit);
      }
      LeadingEnd(r.Value(), m, b, dv, sv);
      b := if b == B32 - 1 then 0 else b + 1;
    }

    /** The second loop of div: restoring division, one quotient bit at a time. */
    static method Restore(dd: Int128, ds: Int128, r: Int128, b0: nat) returns (q: Int128)
      requires r != dd && r != ds && b0 < 128
      requires 0 < ds.Value() <= dd.Value()
      requires r.Value() == dd.Value() / Pow2(b0) && 0 <= r.Value() < 2 * ds.Value()
      modifies r
      ensures fresh(q)
      ensures 0 <= r.Value() < ds.Value() && 0 <= q.Value()
      ensures q.Value() * ds.Value() + r.Value() == dd.Value()
    {
      hide *;
      ghost var dv, sv := dd.Value(), ds.Value();
      q := new Int128.FromWords(0, 0);
      var b := b0;
      ghost var k: nat := 0;   // the quotient bits found so far
      RestoreStart(sv, r.Value(), dv, b);
      while true
        invariant fresh(q) && b < 128
        invariant ds.Value() == sv && dd.Value() == dv
        invariant Restoring(q.Value(), k, sv, r.Value(), dv, b)
        decreases b, if r.Value() < sv then 0 else 1
      {
        if r.Less(ds) {
          if b == 0 { break; }
          b := b - 1;
          RestoreShift(q.Value(), k, sv, r.Value(), dv, b);
          r.ShiftIn(dd.Bit(b));
          k := 2 * k;
        } else {
          RestoreSubtract(q.Value(), k, sv, r.Value(), dv, b);
          r.SubAssign(ds);
          q.SetBit(b, true);
          k := k + 1;
        }
      }
      RestoreEnd(q.Value(), k, sv, r.Value(), dv);
    }

    /** (x < 0) ? -x : x, where -INT128_MIN is INT128_MIN. */
    method AbsoluteValue() returns (r: Int128)
      ensures fresh(r) && r.Value() == if Value() == INT128_MIN then INT128_MIN else Abs(Value())
    {
      r := new Int128.Copy(this);
      Magnitude(Value());
      if IsNegative() { r := Negate(); }
    }

    /** x, or -x where that can be negated exactly. */
    method Signed(negative: bool) returns (r: Int128)
      requires Value() != INT128_MIN
      ensures fresh(r) && r.Value() == if negative then -Value() else Value()
    {
      r := new Int128.Copy(this);
      WrapSmall(-Value());
      if negative { r := Negate(); }
    }

    /** div(divisor, remainder): remainder may be this object or the divisor. The divisor 0 is a trap, a division by
        zero; with the divisor INT128_MIN the loops never end (see MinDivisorNeverEnds). */
    method Div(divisor: Int128, remainder: Int128) returns (trapped: bool, q: Int128)
      requires divisor.Value() != INT128_MIN
      modifies remainder
      ensures fresh(q) && (trapped <==> old(divisor.Value()) == 0)
      ensures trapped ==> remainder.Value() == old(remainder.Value())
      ensures !trapped && old(Value()) != INT128_MIN ==>
        TruncatedDivision(old(Value()), old(divisor.Value()), q.Value(), remainder.Value())
      ensures !trapped && old(Value()) == INT128_MIN ==> q.Value() == 0 && remainder.Value() == INT128_MIN
    {
      hide *;
      trapped := divisor.IsZero();
      if trapped {
        q := new Int128.FromWords(0, 0);
        return;
      }
      ghost var av, bv := Value(), divisor.Value();
      var ds := divisor.AbsoluteValue();
      var dd := AbsoluteValue();
      DividendCases(av, bv);
      // the dividend is smaller than the divisor
      if dd.Less(ds) {
        q := new Int128.FromWords(0, 0);
        remainder.Assign(this);
        return;
      }
      var r, b := LeadingBits(dd, ds);
      q := Restore(dd, ds, r, b);
      // the signs of quotient and remainder
      Correct(av, bv, q.Value(), r.Value());
      q := q.Signed(divisor.IsNegative() != IsNegative());
      r := r.Signed(IsNegative());
      remainder.Assign(r);
    }

    /** operator/= */
    method DivAssign(b: Int128) returns (trapped: bool)
      requires b.Value() != INT128_MIN
      modifies this
      ensures trapped <==> old(b.Value()) == 0
      ensures trapped ==> Value() == old(Value())
      ensures !trapped && old(Value()) != INT128_MIN ==>
        exists r :: TruncatedDivision(old(Value()), old(b.Value()), Value(), r)
      ensures !trapped && old(Value()) == INT128_MIN ==> Value() == 0
    {
      hide *;
      var dummy := new Int128.FromWords(0, 0);
      var q;
      trapped, q := Div(b, dummy);
      ghost var r := dummy.Value();
      if !trapped {
        Assign(q);
      }
      assert !trapped && old(Value()) != INT128_MIN ==> TruncatedDivision(old(Value()), old(b.Value()), Value(), r);
    }

    /** operator%=: the remainder that div writes is this object itself; b may be too. */
    method ModAssign(b: Int128) returns (trapped: bool)
      requires b.Value() != INT128_MIN
      modifies this
      ensures trapped <==> old(b.Value()) == 0
      ensures trapped ==> Value() == old(Value())
      ensures !trapped && old(Value()) != INT128_MIN ==>
        exists q :: TruncatedDivision(old(Value()), old(b.Value()), q, Value())
      ensures !trapped && old(Value()) == INT128_MIN ==> Value() == INT128_MIN
    {
      hide *;
      var q;
      trapped, q := Div(b, this);
      assert !trapped && old(Value()) != INT128_MIN ==>
        TruncatedDivision(old(Value()), old(b.Value()), q.Value(), Value());
    }

    /** toString(radix): fills a 256-character buffer from its end. */
    method ToString(radix: nat) returns (s: string)
      requires radix < B32
      ensures s == Print(Value(), radix)
    {
      hide *;
      ghost var v := Value();
      PrintShort(v, radix);
      if IsZero() {
        return "0";
      }
      if radix < 2 || radix > 37 {
        return "(invalid radix)";
      }
      var sz := new char[256](_ => '\0');
      var ii := AbsoluteValue();
      var r := new Int128.FromWords(0, 0);
      var aux := new Int128.FromWords(radix, 0);
      var i: nat := 255;
      Magnitude(v);
      PrintingStart(v, radix);
      assert sz[i..255] == "";
      while !ii.IsZero() && i != 0
        invariant fresh(r) && fresh(sz) && aux.Value() == radix && r != aux
        invariant v == Value() && 127 <= i <= 255
        invariant Printing(v, radix, ii.Value(), i, sz[i..255])
        decreases i
      {
        ghost var a, done := ii.Value(), sz[i..255];
        var trapped;
        trapped, ii := ii.Div(aux, r);
        PrintingStep(v, radix, a, i, done, ii.Value(), r);
        var c := r.lo % B32;   // toInt(), as an unsigned int
        PutBefore(sz, i, DigitChar(c));
        i := i - 1;
      }
      PrintingEnd(v, radix, i, sz[i..255]);
      if IsNegative() {
        PutBefore(sz, i, '-');
        i := i - 1;
      }
      s := sz[i..255];
    }

    /** set(sz) for a C string. */
    method Set(sz: string)
      requires '\0' !in sz
      modifies this
      ensures Value() == Parse(sz)
    {
      lo, hi := 0, 0;
      WrapSmall(0);
      if |sz| == 0 {
        return;
      }
      var radix: nat := 10;
      var i: nat := 0;
      var minus := false;
      if sz[i] == '-' {
        i := i + 1;
        minus := true;
      }
      if At(sz, i) == '0' {
        radix := 8;
        i := i + 1;
        if At(sz, i) == 'x' {
          radix := 16;
          i := i + 1;
        }
      }
      assert (radix, i) == Prefix(sz, if minus then 1 else 0);
      ReadNumber(sz, i, radix);
      if minus {
        var zero := new Int128.FromWords(0, 0);
        zero.SubAssign(this);
        Assign(zero);
        WrapNegation(ReadDigits(sz[i..], 0, radix));
      }
    }

    /** The loop of set over the digits, up to the first character that is none. */
    method ReadNumber(sz: string, start: nat, radix: nat)
      requires start <= |sz| && radix in {8, 10, 16} && Value() == 0
      modifies this
      ensures Value() == Wrap(ReadDigits(sz[start..], 0, radix))
    {
      hide ReadDigits, Wrap, DigitOf;
      var i := start;
      ghost var n := ReadDigits(sz[i..], 0, radix);
      ghost var acc := 0;
      WrapSmall(0);
      while i < |sz|
        invariant i <= |sz|
        invariant Value() == Wrap(acc)
        invariant n == ReadDigits(sz[i..], acc, radix)
        invariant radix in {8, 10, 16}
      {
        var d := DigitOf(sz[i], radix);
        if d < 0 {
          break;
        }
        ReadMore(sz, i, acc, radix);
        Accumulate(acc, radix, d);
        var m := new Int128.FromWords(radix, 0);
        MulAssign(m);
        m := new Int128.FromWords(d, 0);
        AddAssign(m);
        acc := acc * radix + d;
        i := i + 1;
      }
      ReadEnd(sz, i, acc, radix);
    }
  }

  predicate BitWords(lo: uint64, hi: int64, n: nat) {
    if n >= 128 then hi < 0
    else if n < 64 then BitAnd(lo, Pow2(n)) != 0
    else BitAnd(ToU64(hi), Pow2(n - 64)) != 0
  }

  lemma BitValue(lo: uint64, hi: int64, n: nat)
    ensures BitWords(lo, hi, n) <==> BitOf(Join(lo, hi), n)
  {
    if n >= 128 {
      assert -Pow2(n) <= Join(lo, hi) < Pow2(n) by { PowWords(); PowMonotone(128, n); }
      ShrAllOut(Join(lo, hi), n);
    } else if n < 64 {
      BitBelowWord(lo, hi, n);
      AndBit(lo, n);
      HighLow(lo, n);
    } else {
      BitHighWord(lo, hi, n);
      AndBit(ToU64(hi), n - 64);
      HighLow(ToU64(hi), n - 64);
    }
  }

  /** ~(1ull << n) */
  function NotBit(n: nat): uint64 {
    ToU64(-1 - Pow2(n))
  }

  lemma NotBitMask(n: nat)
    requires n < 64
    ensures NotBit(n) == Pow2(64) - 1 - Pow2(n)
  {
    PowWords();
    PowMonotone(n, 63);
    DivModUnique(-1 - Pow2(n), B64, -1, B64 - 1 - Pow2(n));
  }

  /** Setting or clearing bit n < 64 of one word. */
  lemma WordBit(x: uint64, n: nat)
    requires n < 64
    ensures BitOr(x, Pow2(n)) == (if BitOf(x, n) then x else x + Pow2(n)) < B64
    ensures BitAnd(x, NotBit(n)) == if BitOf(x, n) then x - Pow2(n) else x
  {
    HighLow(x, n);
    OrBit(x, n);
    NotBitMask(n);
    var m := 64;
    assert Pow2(m) == B64 by { PowWords(); }
    AndNotBit(x, m, n);
    if !BitOf(x, n) { OrBitFits(x, m, n); }
  }

  lemma HighWordDelta(lo: uint64, hi: int64, d: int)
    ensures Join(lo, ToS64(ToU64(hi) + d)) == Wrap(Join(lo, hi) + d * B64)
  {
    var k := ToS64Form(ToU64(hi) + d);
    WrapUnique(Join(lo, hi) + d * B64, Join(lo, ToS64(ToU64(hi) + d)), k + hi / B64);
  }

  /** One word with bit n set (or-ed in) or cleared (masked out). */
  function WithBit(x: uint64, n: nat, val: bool): (y: uint64)
    requires n < 64
    ensures y == if BitOf(x, n) == val then x else if val then x + Pow2(n) else x - Pow2(n)
  {
    WordBit(x, n);
    if val then BitOr(x, Pow2(n)) else BitAnd(x, NotBit(n))
  }

  /** v with bit n made val, as a 128-bit number. */
  ghost function ValueWithBit(v: int, n: nat, val: bool): int {
    if BitOf(v, n) == val then v else if val then Wrap(v + Pow2(n)) else Wrap(v - Pow2(n))
  }

  lemma SetLowBit(lo: uint64, hi: int64, n: nat, val: bool)
    requires n < 64
    ensures Join(WithBit(lo, n, val), hi) == ValueWithBit(Join(lo, hi), n, val)
  {
    BitBelowWord(lo, hi, n);
    var w := Join(WithBit(lo, n, val), hi);
    WrapSmall(w);
  }

  lemma SetHighBit(lo: uint64, hi: int64, n: nat, val: bool)
    requires 64 <= n < 128
    ensures Join(lo, ToS64(WithBit(ToU64(hi), n - 64, val))) == ValueWithBit(Join(lo, hi), n, val)
  {
    BitHighWord(lo, hi, n);
    assert Pow2(n) == Pow2(n - 64) * B64 by { PowSplit(n - 64, n); PowWords(); }
    HighWordDelta(lo, hi, WithBit(ToU64(hi), n - 64, val) - ToU64(hi));
    var v := Join(lo, hi);
    WrapSmall(v);
  }

  // ---------- multiplication ----------

  lemma MulStart(a: int, b: int)
    ensures b / Pow2(0) == b && a * (b % Pow2(0)) == 0
  {
    DivModUnique(b, 1, b, 0);
  }

  lemma LowestBit(lo: uint64, hi: int64)
    ensures BitAnd(lo, 1) != 0 <==> Join(lo, hi) % 2 == 1
  {
    AndStepOdd(lo, 0);
    assert BitAnd(lo / 2, 0) == 0;
  }

  lemma MulStep(a: int, b: int, i: nat)
    ensures
      Wrap(a * (b % Pow2(i + 1))) ==
      if (b / Pow2(i)) % 2 == 1 then Wrap(Wrap(a * (b % Pow2(i))) + Wrap(ShiftLeft(a, i)))
      else Wrap(a * (b % Pow2(i)))
    ensures b / Pow2(i + 1) == ShiftRight(b / Pow2(i), 1)
  {
    hide Wrap, Pow2;
    ModSplit(b, i);
    ShiftRightOne(b / Pow2(i));
    var m, p: int := b % Pow2(i), Pow2(i);
    if (b / Pow2(i)) % 2 == 1 {
      assert b % Pow2(i + 1) == m + p;
      MulDistributes(m, p, a);
      WrapSum(a * m, a * p);
    } else {
      assert b % Pow2(i + 1) == m;
    }
  }

  lemma ShiftRightOne(x: int)
    ensures ShiftRight(x, 1) == x / 2
  {
    assert Pow2(1) == 2;
  }

  lemma MulEnd(a: int, b: int)
    ensures Wrap(a * (b % Pow2(128))) == Wrap(a * b)
  {
    var m, j := b % Pow2(128), b / Pow2(128);
    assert Pow2(128) == B128 by { PowWords(); }
    assert a * (m + j * B128) == a * m + (a * j) * B128 by { MulAssociative(a, j, B128); }
    WrapShift(a * m, a * j);
  }

  // ---------- division ----------

  /** C++ division: q * b + r == a, the remainder smaller than the divisor and of the dividend's sign. */
  ghost predicate TruncatedDivision(a: int, b: int, q: int, r: int) {
    && a == q * b + r
    && Abs(r) < Abs(b)
    && (r == 0 || (r < 0 <==> a < 0))
  }

  /** For the dividend INT128_MIN div returns 0 and the dividend, which is the right answer for no divisor that its
      loops end for. */
  lemma MinDividendIsNotDivided(b: int)
    requires InRange(b) && b != INT128_MIN
    ensures !TruncatedDivision(INT128_MIN, b, 0, INT128_MIN)
  {
  }

  /** The partial remainder after n turns of div's second loop, when the divisor is INT128_MIN. */
  function Turns(n: nat): int {
    if n == 0 then 0 else Wrap(Turns(n - 1) - INT128_MIN)
  }

  /** With the divisor INT128_MIN, which is its own negation, div gets past the shortcut for small dividends, and its
      partial remainder is never less than the divisor: every turn subtracts, and the bit counter stands still. */
  lemma {:induction false} MinDivisorNeverEnds(n: nat, lo: uint64, hi: int64)
    ensures Join(lo, hi) == Turns(n) ==> !LessWords(lo, hi, 0, -B63)
    ensures Join(lo, hi) >= 0 || Join(lo, hi) == INT128_MIN ==> !LessWords(lo, hi, 0, -B63)
  {
    TurnsBetween(n);
    if Join(lo, hi) >= 0 || Join(lo, hi) == INT128_MIN {
      MinOrNotNegative(lo, hi);
    }
  }

  lemma {:induction false} TurnsBetween(n: nat)
    ensures Turns(n) == if n % 2 == 0 then 0 else INT128_MIN
  {
    if n > 0 {
      TurnsBetween(n - 1);
      WrapUnique(-INT128_MIN, INT128_MIN, 1);
      WrapUnique(0, 0, 0);
    }
  }

  lemma MinOrNotNegative(lo: uint64, hi: int64)
    requires Join(lo, hi) >= 0 || Join(lo, hi) == INT128_MIN
    ensures !LessWords(lo, hi, 0, -B63)
  {
    ToU64Small(0);
    ToU64Small(lo);
  }

  /** div's first loop: r are the leading bits of the dividend d, m are not taken yet, and b is the counter. */
  ghost predicate Leading(r: int, m: nat, b: nat, d: int, s: int) {
    && 0 < s <= d < B127
    && m <= 128 && b == (if m == 0 then B32 - 1 else m - 1)
    && r == d / Pow2(m) && 0 <= r < 2 * s
    && (m == 128 ==> r == 0) && (m == 0 ==> r == d)
  }

  lemma LeadingStart(d: int, s: int)
    requires 0 < s <= d < B127
    ensures Leading(0, 128, 127, d, s)
  {
    NothingTaken(d);
  }

  lemma LeadingStep(r: int, m: nat, b: nat, d: int, s: int)
    requires Leading(r, m, b, d, s) && r < s
    ensures 0 < m && b == m - 1 && 2 * r + 1 < B127 && 0 < B32
    ensures Leading(2 * r + (if BitOf(d, b) then 1 else 0), m - 1, if b == 0 then B32 - 1 else b - 1, d, s)
  {
    PartialFits(0, 1, r, d, m - 1);
    if m == 1 {
      DivModUnique(d, 1, d, 0);
    }
  }

  lemma LeadingEnd(r: int, m: nat, b: nat, d: int, s: int)
    requires Leading(r, m, b, d, s) && s <= r
    ensures var left := if b == B32 - 1 then 0 else b + 1;
            left < 128 && r == d / Pow2(left) && 0 <= r < 2 * s
  {
  }

  lemma DoubledByShift(v: int)
    ensures ShiftLeft(v, 1) == 2 * v
  {
    assert Pow2(1) == 2;
  }

  lemma OrLowest(lo: uint64)
    requires lo % 2 == 0
    ensures BitOr(lo, 1) == lo + 1
  {
    OrBit(lo, 0);
  }

  lemma QuotientStep(d: nat, b: nat)
    requires d < B127
    ensures d / Pow2(b) == 2 * (d / Pow2(b + 1)) + (if BitOf(d, b) then 1 else 0) <= d
  {
    ModSplit(d, b);
    DivNonNegative(d, Pow2(b));
  }

  /** The state of restoring division when the bits of d from b up have been divided:
      k is their quotient (kept in q at its final position), r what is left of them. */
  ghost predicate Restoring(q: int, k: nat, s: int, r: int, d: int, b: nat) {
    && 0 < s && 0 <= d < B127
    && q == k * Pow2(b)
    && k * s + r == d / Pow2(b)
    && 0 <= r < 2 * s
    && (r >= s ==> k % 2 == 0)
  }

  lemma RestoreStart(s: int, r: int, d: int, b: nat)
    requires 0 < s && 0 <= d < B127 && r == d / Pow2(b) && 0 <= r < 2 * s
    ensures Restoring(0, 0, s, r, d, b)
  {
  }

  /** Bringing down bit b never overflows into the sign bit. */
  lemma RestoreShift(q: int, k: nat, s: int, r: int, d: int, b: nat)
    requires Restoring(q, k, s, r, d, b + 1) && r < s
    ensures 0 <= r && 2 * r + 1 < B127
    ensures Restoring(q, 2 * k, s, 2 * r + (if BitOf(d, b) then 1 else 0), d, b)
  {
    PartialFits(k, s, r, d, b);
    MulAssociative(k, 2, Pow2(b));
    MulAssociative(2, k, s);
  }

  /** Subtracting the divisor and setting bit b of the quotient. */
  lemma RestoreSubtract(q: int, k: nat, s: int, r: int, d: int, b: nat)
    requires Restoring(q, k, s, r, d, b) && r >= s
    ensures Wrap(r - s) == r - s < s
    ensures Restoring(ValueWithBit(q, b, true), k + 1, s, r - s, d, b)
  {
    OneMore(k, s);
    WrapSmall(r - s);
    QuotientBit(k, s, d, b);
  }

  lemma RestoreEnd(q: int, k: nat, s: int, r: int, d: int)
    requires Restoring(q, k, s, r, d, 0) && r < s
    ensures q * s + r == d && 0 <= q && 0 <= r < s
  {
    DivModUnique(d, 1, d, 0);
  }

  lemma OneMore(k: int, p: int)
    ensures (k + 1) * p == k * p + p
  {
  }

  lemma ScaledFits(k: int, s: int, d: int, p: int)
    requires 0 <= k && 0 < s && 0 < p && k * s <= d / p
    ensures k * p <= d
  {
    MulMonotone(1, s, k);
    MulMonotone(k, d / p, p);
  }

  /** Setting bit b of the quotient so far, whose bit b is clear and which stays below 2^127. */
  lemma QuotientBit(k: nat, s: int, d: nat, b: nat)
    requires k % 2 == 0 && 0 < s && d < B127
    requires (k + 1) * s <= d / Pow2(b)
    ensures ValueWithBit(k * Pow2(b), b, true) == (k + 1) * Pow2(b)
  {
    hide Wrap, Pow2;
    var p := Pow2(b);
    ScaledFits(k + 1, s, d, p);
    OneMore(k, p);
    MulMonotone(0, k + 1, p);
    WrapSmall(k * p + p);
    DivModUnique(k * p, p, k, 0);
  }

  lemma PartialFits(k: nat, s: int, r: int, d: nat, b: nat)
    requires 0 < s && d < B127 && k * s + r == d / Pow2(b + 1)
    ensures d / Pow2(b) == 2 * (k * s + r) + (if BitOf(d, b) then 1 else 0)
    ensures 2 * r + 1 < B127
  {
    QuotientStep(d, b);
    MulMonotone(0, k, s);
    assert d / Pow2(b + 1) <= d / 2 by { ModSplit(d, b); DivNonNegative(d, Pow2(b)); }
  }

  lemma NothingTaken(d: nat)
    requires d < B127
    ensures d / Pow2(128) == 0
  {
    PowWords();
    DivModUnique(d, Pow2(128), 0, d);
  }

  lemma SmallDividend(a: int, b: int)
    ensures Abs(a) < Abs(b) ==> TruncatedDivision(a, b, 0, a)
  {
  }

  /** |v|, which does not exist for INT128_MIN. */
  lemma Magnitude(v: int)
    requires InRange(v)
    ensures Wrap(-v) == if v == INT128_MIN then v else -v
    ensures Abs(v) == if v < 0 then -v else v
  {
    if v == INT128_MIN { WrapUnique(-v, v, 1); } else { WrapSmall(-v); }
  }

  /** What the shortcut for small dividends decides on. */
  lemma DividendCases(a: int, b: int)
    requires InRange(a) && InRange(b) && b != 0 && b != INT128_MIN
    ensures Abs(b) > 0 && INT128_MIN < 0 && (a == INT128_MIN ==> Abs(b) > a)
    ensures Abs(a) < Abs(b) ==> TruncatedDivision(a, b, 0, a)
    ensures Abs(a) >= 0
  {
    SmallDividend(a, b);
  }

  lemma SignRules(k: int, b: int)
    ensures (-k) * b == -(k * b) && k * (-b) == -(k * b)
  {
  }

  /** The signs that the final correction gives to the quotient and the remainder. */
  lemma Correct(a: int, b: int, k: int, r: int)
    requires InRange(a) && InRange(b) && a != INT128_MIN && b != 0
    requires k * Abs(b) + r == Abs(a) && 0 <= r < Abs(b) && 0 <= k
    ensures k <= Abs(a)
    ensures Wrap(-k) == -k && Wrap(-r) == -r
    ensures TruncatedDivision(a, b, if (b < 0) != (a < 0) then -k else k, if a < 0 then -r else r)
  {
    MulMonotone(1, Abs(b), k);
    WrapSmall(-k);
    WrapSmall(-r);
    SignRules(k, b);
  }

  // ---------- text ----------

  lemma PrintShort(v: int, radix: nat)
    ensures v == 0 ==> Print(v, radix) == "0"
    ensures v != 0 && (radix < 2 || radix > 37) ==> Print(v, radix) == "(invalid radix)"
  {
  }

  /** The next character in front of those in the buffer, which end before index 255. */
  method PutBefore(sz: array<char>, i: nat, c: char)
    requires 0 < i <= 255 < sz.Length
    modifies sz
    ensures sz[i - 1..255] == [c] + old(sz[i..255])
  {
    sz[i - 1] := c;
  }

  /** The state of toString: a is still to be printed, suffix is in the buffer from index i on. */
  ghost predicate Printing(v: int, radix: nat, a: int, i: int, suffix: string) {
    && 2 <= radix <= 37 && v != 0 && 127 <= i <= 255
    && if v == INT128_MIN then (a == INT128_MIN && suffix == "" && i == 255) || (a == 0 && suffix == "0")
       else 0 <= a < Pow2(i - 127) && Digits(Abs(v), radix) == Digits(a, radix) + suffix
  }

  lemma PrintingStart(v: int, radix: nat)
    requires InRange(v) && v != 0 && 2 <= radix <= 37
    ensures Printing(v, radix, if v == INT128_MIN then v else Abs(v), 255, "")
  {
    PowWords();
    assert Digits(Abs(v), radix) + "" == Digits(Abs(v), radix);
  }

  /** One digit: what div leaves, and room for it in the buffer. */
  lemma PrintingStep(v: int, radix: nat, a: int, i: int, suffix: string, q: int, r: Int128)
    requires Printing(v, radix, a, i, suffix) && a != 0
    requires if a == INT128_MIN then q == 0 && r.Value() == INT128_MIN
             else TruncatedDivision(a, radix, q, r.Value())
    ensures 127 < i && 0 <= r.lo % B32 < 37
    ensures Printing(v, radix, q, i - 1, [DigitChar(r.lo % B32)] + suffix)
  {
    hide Digits, Pow2;
    if v == INT128_MIN {
      MinWords(r.lo, r.hi);
    } else {
      DigitTaken(a, radix, q, r.Value());
      SmallWord(r.lo, r.hi);
      DigitFits(a, i - 127, q);
      OneDigit(a, radix, suffix);
    }
  }

  lemma MinWords(lo: uint64, hi: int64)
    requires Join(lo, hi) == INT128_MIN
    ensures lo == 0
  {
  }

  lemma SmallWord(lo: uint64, hi: int64)
    requires 0 <= Join(lo, hi) < B32
    ensures lo % B32 == Join(lo, hi)
  {
    DivModUnique(lo, B32, 0, Join(lo, hi));
  }

  lemma DigitTaken(a: int, radix: nat, q: int, r: int)
    requires TruncatedDivision(a, radix, q, r) && a > 0 && 2 <= radix <= 37
    ensures q == a / radix && 0 <= q <= a / 2 && r == a % radix && 0 <= r < 37
  {
    DivModUnique(a, radix, q, r);
    Smaller(a, radix);
  }

  lemma DigitFits(a: int, n: int, q: int)
    requires n >= 0 && 0 < a < Pow2(n) && q <= a / 2
    ensures n > 0 && q < Pow2(n - 1)
  {
  }

  lemma OneDigit(a: nat, radix: nat, suffix: string)
    requires 2 <= radix <= 37 && a > 0
    ensures 0 <= a / radix && 0 <= a % radix < 37
    ensures Digits(a, radix) + suffix == Digits(a / radix, radix) + ([DigitChar(a % radix)] + suffix)
  {
    Smaller(a, radix);
  }

  lemma PrintingEnd(v: int, radix: nat, i: int, suffix: string)
    requires Printing(v, radix, 0, i, suffix)
    ensures Print(v, radix) == if v < 0 then "-" + suffix else suffix
  {
    assert "" + suffix == suffix;
  }

  lemma ReadMore(s: string, i: nat, acc: int, radix: nat)
    requires i < |s| && DigitOf(s[i], radix) >= 0
    ensures ReadDigits(s[i..], acc, radix) == ReadDigits(s[i + 1..], acc * radix + DigitOf(s[i], radix), radix)
    ensures radix <= 16 ==> DigitOf(s[i], radix) <= 16
  {
    assert s[i..][1..] == s[i + 1..];
  }

  lemma ReadEnd(s: string, i: nat, acc: int, radix: nat)
    requires i <= |s| && (i < |s| ==> DigitOf(s[i], radix) < 0)
    ensures ReadDigits(s[i..], acc, radix) == acc
  {
  }

  lemma Accumulate(acc: int, radix: int, d: int)
    requires 0 <= d < B127
    ensures Wrap(Wrap(Wrap(acc) * radix) + d) == Wrap(acc * radix + d)
  {
    hide Wrap;
    WrapProduct(acc, radix);
    WrapSmall(d);
    WrapSum(acc * radix, d);
  }

  lemma WrapNegation(x: int)
    ensures Wrap(-Wrap(x)) == Wrap(-x)
  {
    WrapProduct(x, -1);
  }
}
