/** The text form of 128-bit integers: what Int128::toString prints and Int128::set reads. */
module Numerals {
  import opened Bits
  import opened CStrings
  import opened TwosComplement

  /** The digit character that toString emits: upper-case letters from ten on. */
  function DigitChar(c: nat): char
    requires c < 37
  {
    if c > 9 then (c + 'A' as int - 10) as char else (c + '0' as int) as char
  }

  /** n in the given radix, most significant digit first; nothing for zero. */
  function Digits(n: nat, radix: nat): string
    requires 2 <= radix <= 37
  {
    if n == 0 then "" else
      assert n / radix < n by { Smaller(n, radix); }
      Digits(n / radix, radix) + [DigitChar(n % radix)]
  }

  lemma Smaller(n: nat, radix: nat)
    requires 2 <= radix && 0 < n
    ensures 0 <= n / radix <= n / 2 < n
    ensures n == (n / radix) * radix + n % radix
    ensures n < radix ==> n / radix == 0 && n % radix == n
    ensures n / radix == 0 ==> n < radix
  {
    var q := n / radix;
    assert n == q * radix + n % radix;
    if n < radix { DivModUnique(n, radix, 0, n); }
    if q < 0 { MulMonotone(q, -1, radix); assert false; }
    MulMonotone(2, radix, q);
  }

  /** The text of v.  The magnitude of INT128_MIN does not exist, and its text is "-0". */
  function Print(v: int, radix: nat): string {
    if v == 0 then "0"
    else if radix < 2 || radix > 37 then "(invalid radix)"
    else if v == INT128_MIN then "-0"
    else if v < 0 then "-" + Digits(-v, radix)
    else Digits(v, radix)
  }

  /** The value of a digit character, or -1 where reading stops. */
  function DigitOf(c: char, radix: nat): int {
    var x := c as int;
    if '0' <= c <= '9' && x < '0' as int + radix then x - '0' as int
    else if 'a' <= c && x <= 'a' as int + radix - 10 then x - 'a' as int + 10
    else if 'A' <= c && x <= 'A' as int + radix - 10 then x - 'A' as int + 10
    else -1
  }

  /** Reads digits up to the first character that is none. */
  function ReadDigits(s: string, acc: int, radix: nat): int {
    if s == "" || DigitOf(s[0], radix) < 0 then acc
    else ReadDigits(s[1..], acc * radix + DigitOf(s[0], radix), radix)
  }

  /** The radix that a prefix after the sign selects, and where the digits start. */
  function Prefix(s: string, i: nat): (p: (nat, nat))
    requires i <= |s| && '\0' !in s
    ensures i <= p.1 <= |s|
  {
    if At(s, i) != '0' then (10, i)
    else if At(s, i + 1) == 'x' then (16, i + 2)
    else (8, i + 1)
  }

  /** The number that a text stands for. */
  function Parse(s: string): int
    requires '\0' !in s
  {
    var i := if At(s, 0) == '-' then 1 else 0;
    var (radix, j) := Prefix(s, i);
    var n := ReadDigits(s[j..], 0, radix);
    Wrap(if i == 1 then -n else n)
  }

  // ---------- reading back what was printed ----------

  lemma DigitRoundTrip(d: nat, radix: nat)
    requires d < radix <= 16
    ensures DigitOf(DigitChar(d), radix) == d
    ensures DigitChar(d) !in "\0-x"
    ensures DigitChar(d) == '0' ==> d == 0
  {
  }

  lemma ReadOne(d: nat, radix: nat, acc: int, t: string)
    requires d < radix <= 16
    ensures ReadDigits([DigitChar(d)] + t, acc, radix) == ReadDigits(t, acc * radix + d, radix)
  {
    DigitRoundTrip(d, radix);
    assert ([DigitChar(d)] + t)[1..] == t;
  }

  lemma {:induction false} ReadPrinted(n: nat, radix: nat, t: string)
    requires 2 <= radix <= 16
    ensures ReadDigits(Digits(n, radix) + t, 0, radix) == ReadDigits(t, n, radix)
    decreases n
  {
    if n == 0 {
      assert Digits(n, radix) + t == t;
    } else {
      var c := DigitChar(n % radix);
      Smaller(n, radix);
      ReadPrinted(n / radix, radix, [c] + t);
      assert Digits(n, radix) + t == Digits(n / radix, radix) + ([c] + t);
      ReadOne(n % radix, radix, n / radix, t);
    }
  }

  lemma {:induction false} LeadingDigit(n: nat, radix: nat)
    requires 2 <= radix <= 16 && 0 < n
    ensures Digits(n, radix) != "" && Digits(n, radix)[0] !in "0-x"
    ensures '\0' !in Digits(n, radix)
    decreases n
  {
    Smaller(n, radix);
    DigitRoundTrip(n % radix, radix);
    if n >= radix {
      LeadingDigit(n / radix, radix);
    }
  }

  /** Digits beyond nine are printed as upper-case letters. */
  lemma {:induction false} PrintsUpperCase(n: nat, radix: nat)
    requires 2 <= radix <= 16
    ensures forall c | c in Digits(n, radix) :: c in "0123456789ABCDEF"[..radix]
    decreases n
  {
    if n > 0 {
      Smaller(n, radix);
      PrintsUpperCase(n / radix, radix);
      assert DigitChar(n % radix) == "0123456789ABCDEF"[n % radix] == "0123456789ABCDEF"[..radix][n % radix];
    }
  }

  lemma ReadDecimal(n: nat)
    requires 0 < n
    ensures ReadDigits(Digits(n, 10), 0, 10) == n
    ensures Digits(n, 10) != "" && Digits(n, 10)[0] !in "0-x" && '\0' !in Digits(n, 10)
  {
    LeadingDigit(n, 10);
    ReadPrinted(n, 10, "");
    assert Digits(n, 10) + "" == Digits(n, 10);
  }

  lemma ParseDecimal(d: string, minus: bool)
    requires d != "" && d[0] !in "0-x" && '\0' !in d
    ensures Parse(if minus then "-" + d else d) == Wrap(if minus then -ReadDigits(d, 0, 10) else ReadDigits(d, 0, 10))
  {
    if minus {
      assert ("-" + d)[1..] == d;
    } else {
      assert d[0..] == d;
    }
  }

  /** Reading what was printed in decimal gives the number back exactly when it is not INT128_MIN. */
  lemma DecimalRoundTrip(v: int)
    requires InRange(v)
    ensures '\0' !in Print(v, 10)
    ensures Parse(Print(v, 10)) == v <==> v != INT128_MIN
  {
    hide Wrap, Digits, ReadDigits, Pow2;
    WrapSmall(v);
    if v == INT128_MIN {
      ParseZero("-0");
    } else if v == 0 {
      ParseZero("0");
    } else {
      ReadDecimal(Abs(v));
      ParseDecimal(Digits(Abs(v), 10), v < 0);
    }
  }

  lemma ParseZero(s: string)
    requires s == "0" || s == "-0"
    ensures Parse(s) == 0
  {
    assert "0"[1..] == "" && "-0"[2..] == "";
    WrapSmall(0);
  }

  /** Text that does not go on with what could belong to a decimal number. */
  predicate IsApart(t: string) {
    '\0' !in t && (t != "" ==> t[0] !in "0123456789aAx")
  }

  lemma NothingToRead(t: string, n: nat, radix: nat)
    requires 8 <= radix <= 10 && IsApart(t)
    ensures ReadDigits(t, n, radix) == n
  {
  }

  lemma ParseZeroAnd(t: string)
    requires IsApart(t)
    ensures '\0' !in "0" + t && Parse("0" + t) == 0
  {
    assert ("0" + t)[1..] == t;
    NothingToRead(t, 0, 8);
    WrapSmall(0);
    hide Wrap, ReadDigits;
  }

  lemma PrintedDecimal(v: int, t: string)
    requires v != 0 && v != INT128_MIN
    ensures Print(v, 10) + t == if v < 0 then "-" + (Digits(-v, 10) + t) else Digits(v, 10) + t
  {
    hide Digits;
  }

  lemma ParseBefore(d: string, t: string, minus: bool)
    requires d != "" && d[0] !in "0-x" && '\0' !in d && '\0' !in t
    ensures '\0' !in d + t && '\0' !in "-" + (d + t)
    ensures Parse(if minus then "-" + (d + t) else d + t)
            == Wrap(if minus then -ReadDigits(d + t, 0, 10) else ReadDigits(d + t, 0, 10))
  {
    hide *;
    ParseDecimal(d + t, minus);
  }

  lemma ApartHasNoEnd(t: string)
    requires IsApart(t)
    ensures '\0' !in t
  {
  }

  lemma MagnitudeIsRead(n: int, t: string, minus: bool)
    requires 0 < n && IsApart(t)
    ensures '\0' !in Digits(n, 10) + t && '\0' !in "-" + (Digits(n, 10) + t)
    ensures Parse(if minus then "-" + (Digits(n, 10) + t) else Digits(n, 10) + t) == Wrap(if minus then -n else n)
  {
    hide *;
    ApartHasNoEnd(t);
    ReadDecimal(n);
    ReadPrinted(n, 10, t);
    NothingToRead(t, n, 10);
    ParseBefore(Digits(n, 10), t, minus);
  }

  /** What follows the number is not read. */
  lemma ReadingStops(v: int, t: string)
    requires InRange(v) && v != INT128_MIN && IsApart(t)
    ensures '\0' !in Print(v, 10) + t
    ensures Parse(Print(v, 10) + t) == v
  {
    hide *;
    WrapInRange(v);
    if v == 0 {
      ParseZeroAnd(t);
      PrintedZero();
    } else if v < 0 {
      PrintedDecimal(v, t);
      MagnitudeIsRead(-v, t, true);
    } else {
      PrintedDecimal(v, t);
      MagnitudeIsRead(v, t, false);
    }
  }

  lemma WrapInRange(v: int)
    requires InRange(v)
    ensures Wrap(v) == v
  {
    WrapSmall(v);
  }

  lemma PrintedZero()
    ensures Print(0, 10) == "0"
  {
  }

  lemma HexRoundTrip(v: int)
    requires InRange(v) && v >= 0
    ensures '\0' !in Print(v, 16)
    ensures Parse("0x" + Print(v, 16)) == v
  {
    WrapSmall(v);
    var d := Print(v, 16);
    if v == 0 {
      assert ("0x" + d)[2..] == "0" && "0"[1..] == "";
    } else {
      LeadingDigit(v, 16);
      ReadPrinted(v, 16, "");
      assert d + "" == d;
      assert ("0x" + d)[2..] == d;
    }
  }

  lemma OctalRoundTrip(v: int)
    requires InRange(v) && v >= 0
    ensures '\0' !in Print(v, 8)
    ensures Parse("0" + Print(v, 8)) == v
  {
    WrapSmall(v);
    var d := Print(v, 8);
    if v == 0 {
      assert ("0" + d)[1..] == "0" && "0"[1..] == "";
    } else {
      LeadingDigit(v, 8);
      ReadPrinted(v, 8, "");
      assert d + "" == d;
      assert ("0" + d)[1..] == d;
    }
  }

  // ---------- upper and lower case ----------

  function Lower(c: char): char {
    if 'A' <= c <= 'Z' then (c as int - 'A' as int + 'a' as int) as char else c
  }

  function Lowered(s: string): (t: string)
    ensures |t| == |s| && forall i | 0 <= i < |s| :: t[i] == Lower(s[i])
  {
    if s == "" then "" else [Lower(s[0])] + Lowered(s[1..])
  }

  /** What a character counts as: its place among the digits, in either case. A radix of ten or more takes one letter
      too many, the one that would be the radix itself. */
  lemma DigitsInEitherCase(c: char, radix: nat, d: nat)
    requires 2 <= radix <= 16
    ensures DigitOf(Lower(c), radix) == DigitOf(c, radix)
    ensures d < 17 && (c == "0123456789abcdefg"[d] || c == "0123456789ABCDEFG"[d]) ==>
              DigitOf(c, radix) == if d < radix || (d == radix && radix >= 10) then d else -1
    ensures c !in "0123456789abcdefg" && c !in "0123456789ABCDEFG" ==> DigitOf(c, radix) == -1
  {
  }

  lemma SameInEitherCase(c: char, radix: nat)
    requires 2 <= radix <= 16
    ensures DigitOf(Lower(c), radix) == DigitOf(c, radix)
  {
  }

  lemma {:induction false} ReadsEitherCase(s: string, acc: int, radix: nat)
    requires 2 <= radix <= 16
    ensures ReadDigits(Lowered(s), acc, radix) == ReadDigits(s, acc, radix)
  {
    if s != "" {
      SameInEitherCase(s[0], radix);
      hide DigitOf;
      assert Lowered(s)[1..] == Lowered(s[1..]);
      ReadsEitherCase(s[1..], acc * radix + DigitOf(s[0], radix), radix);
    }
  }

  lemma {:induction false} LoweredRest(s: string, j: nat)
    requires j <= |s|
    ensures Lowered(s)[j..] == Lowered(s[j..])
  {
  }

  lemma LoweredAt(s: string, k: nat)
    requires '\0' !in s
    ensures '\0' !in Lowered(s) && At(Lowered(s), k) == Lower(At(s, k))
    ensures At(Lowered(s), k) == '-' <==> At(s, k) == '-'
    ensures At(Lowered(s), k) == '0' <==> At(s, k) == '0'
    ensures At(Lowered(s), k) == 'x' <==> At(s, k) == 'x' || At(s, k) == 'X'
  {
  }

  lemma PrefixInEitherCase(s: string, i: nat)
    requires i <= |s| && '\0' !in s && !(At(s, i) == '0' && At(s, i + 1) == 'X')
    ensures '\0' !in Lowered(s) && Prefix(Lowered(s), i) == Prefix(s, i) && Prefix(s, i).0 in {8, 10, 16}
  {
    LoweredAt(s, i);
    LoweredAt(s, i + 1);
    hide Lowered, Lower, At;
  }

  lemma ParseIs(s: string, i: nat)
    requires '\0' !in s && i == if At(s, 0) == '-' then 1 else 0
    ensures i <= |s|
    ensures var n := ReadDigits(s[Prefix(s, i).1..], 0, Prefix(s, i).0);
            Parse(s) == Wrap(if i == 1 then -n else n)
  {
    hide Wrap, ReadDigits;
  }

  /** Letter case does not matter, but for the "x" of a hexadecimal prefix. */
  lemma ParseIgnoresCase(s: string)
    requires '\0' !in s
    requires var i := if At(s, 0) == '-' then 1 else 0; !(At(s, i) == '0' && At(s, i + 1) == 'X')
    ensures '\0' !in Lowered(s) && Parse(Lowered(s)) == Parse(s)
  {
    hide *;
    LoweredAt(s, 0);
    var i := if At(s, 0) == '-' then 1 else 0;
    ParseIs(s, i);
    PrefixInEitherCase(s, i);
    LoweredRest(s, Prefix(s, i).1);
    ReadsEitherCase(s[Prefix(s, i).1..], 0, Prefix(s, i).0);
    ParseIs(Lowered(s), i);
  }

  /** Negative numbers are read back in base 16 as well, when the sign is put before the prefix. */
  lemma NegativeHexRoundTrip(v: int)
    requires InRange(v) && INT128_MIN < v < 0
    ensures Print(v, 16) != "" && Print(v, 16)[0] == '-' && '\0' !in Print(v, 16)
    ensures Parse("-0x" + Print(v, 16)[1..]) == v
  {
    WrapSmall(v);
    LeadingDigit(-v, 16);
    ReadPrinted(-v, 16, "");
    var d := Digits(-v, 16);
    assert d + "" == d && Print(v, 16)[1..] == d;
    assert ("-0x" + d)[3..] == d;
    hide Wrap, Digits, ReadDigits;
  }
}
