/** What a pattern text says, told from the text alone: a pattern is written as a list of parts, and each part stands
    for a piece of the line. */
module PatternText {
  import opened CStrings
  import opened GlobPattern
  import opened Tokenizer

  /** The parts of a pattern text. Index is what stands between the brackets of "[lo..up]"; the brackets themselves
      belong to the texts before and after it. */
  datatype Part =
    | Text(written: string)
    | Question
    | Star
    | DoubleStar
    | Chars(negated: bool, ranges: string)
    | Number(lo: string, up: string)
    | Index(lo: string, up: string)

  function Rendered(part: Part): string {
    match part
    case Text(written) => written
    case Question => "?"
    case Star => "*"
    case DoubleStar => "**"
    case Chars(negated, ranges) => (if negated then "{^" else "{") + ranges + "}"
    case Number(lo, up) => "{" + lo + ".." + up + "}"
    case Index(lo, up) => lo + ".." + up
  }

  function Render(parts: seq<Part>): string {
    if parts == [] then "" else Rendered(parts[0]) + Render(parts[1..])
  }

  // ---------- Meaning ----------

  /** Text without its backslashes. */
  function Unescaped(w: string): string {
    if w == "" then ""
    else if w[0] == '\\' && |w| >= 2 then [w[1]] + Unescaped(w[2..])
    else [w[0]] + Unescaped(w[1..])
  }

  /** c is one of the characters written within braces: "a-z" is a range, and any other character stands for itself. */
  predicate Among(cs: bool, c: char, ranges: string) {
    if ranges == "" then false
    else if |ranges| >= 3 && ranges[1] == '-' then
      Fold(cs, ranges[0]) <= Fold(cs, c) <= Fold(cs, ranges[2]) || Among(cs, c, ranges[3..])
    else Fold(cs, c) == Fold(cs, ranges[0]) || Among(cs, c, ranges[1..])
  }

  predicate AllDigits(s: string) {
    forall i | 0 <= i < |s| :: IsDigit(s[i])
  }

  /** A number from lo to up, where a bound that is left out does not bound it. */
  predicate Between(lo: string, up: string, piece: string) {
    && piece != "" && AllDigits(piece)
    && (lo != "" ==> NumberOf(lo) <= NumberOf(piece)) && (up != "" ==> NumberOf(piece) <= NumberOf(up))
  }

  /** The piece of a line that a part stands for. */
  predicate Means(dottedPath: bool, cs: bool, part: Part, piece: string) {
    match part
    case Text(written) => SameText(cs, piece, Unescaped(written))
    case Question => |piece| == 1 && (dottedPath ==> piece[0] != '.')
    case Star => dottedPath ==> '.' !in piece
    case DoubleStar => true
    case Chars(negated, ranges) => |piece| == 1 && (negated <==> !Among(cs, piece[0], ranges))
    case Number(lo, up) => Between(lo, up, piece)
    case Index(lo, up) => Between(lo, up, piece)
  }

  /** A number goes as far as there are digits. */
  predicate Ends(part: Part, rest: string) {
    part.Number? || part.Index? ==> rest == "" || !IsDigit(rest[0])
  }

  /** s can be cut into one piece for each part, when after is what follows s in the line. */
  ghost predicate Says(dottedPath: bool, cs: bool, parts: seq<Part>, s: string, after: string) {
    if parts == [] then s == ""
    else exists n: nat | n <= |s| ::
      Means(dottedPath, cs, parts[0], s[..n]) && Ends(parts[0], s[n..] + after)
      && Says(dottedPath, cs, parts[1..], s[n..], after)
  }

  // ---------- How a pattern may be written ----------

  predicate StandsAt(p: string, i: nat, t: string) {
    i + |t| <= |p| && p[i..i + |t|] == t
  }

  /** "lo..up" and the closing character stand at i. */
  predicate RangeText(p: string, i: nat, lo: string, up: string, closing: char) {
    AllDigits(lo) && AllDigits(up) && StandsAt(p, i, lo + ".." + up + [closing])
  }

  ghost predicate SomeRangeText(p: string, i: nat, closing: char) {
    exists lo, up :: RangeText(p, i, lo, up, closing)
  }

  /** Text has no wildcard that is not escaped, and no backslash at its end that escapes nothing. */
  predicate TextOk(w: string) {
    if w == "" then true
    else if w[0] == '\\' then |w| >= 2 && TextOk(w[2..])
    else !StartsOther(w[0]) && TextOk(w[1..])
  }

  /** No bracket within the text begins a numeric range. */
  ghost predicate Quiet(w: string) {
    forall i | 0 <= i < |w| && w[i] == '[' :: !SomeRangeText(w, i + 1, ']')
  }

  ghost predicate PartOk(part: Part) {
    match part
    case Text(written) => written != "" && TextOk(written) && Quiet(written)
    case Chars(negated, ranges) =>
      && ranges != "" && (forall i | 1 <= i < |ranges| :: ranges[i] != '}')
      && (!negated ==> ranges[0] != '^' && !SomeRangeText(ranges + "}", 0, '}'))
    case Number(lo, up) => AllDigits(lo) && AllDigits(up)
    case Index(lo, up) => AllDigits(lo) && AllDigits(up)
    case _ => true
  }

  /** b may follow a: texts are not split, a star is not followed by another, and an index has its brackets. */
  predicate MayFollow(a: Part, b: Part) {
    && !(a.Text? && b.Text?) && !(a.Star? && (b.Star? || b.DoubleStar?))
    && (b.Index? ==> a.Text? && a.written != "" && a.written[|a.written| - 1] == '[')
    && (a.Index? ==> b.Text? && b.written != "" && b.written[0] == ']')
  }

  ghost predicate Writable(parts: seq<Part>) {
    && (forall i | 0 <= i < |parts| :: PartOk(parts[i]))
    && (forall i | 0 <= i < |parts| - 1 :: MayFollow(parts[i], parts[i + 1]))
    && (parts != [] ==> !parts[0].Index? && !parts[|parts| - 1].Index?)
  }

  // ---------- Numeric ranges ----------

  lemma {:induction false} DigitsEnd(d: string, rest: string)
    requires AllDigits(d) && (rest == "" || !IsDigit(rest[0]))
    ensures DigitRun(d + rest) == |d|
  {
    if d == "" {
      assert d + rest == rest;
    } else {
      DigitsEnd(d[1..], rest);
      assert (d + rest)[1..] == d[1..] + rest;
    }
  }

  function Bound(d: string): int {
    if d == "" then -1 else NumberOf(d)
  }

  lemma StandsApart(p: string, i: nat, a: string, b: string)
    ensures StandsAt(p, i, a + b) <==> StandsAt(p, i, a) && StandsAt(p, i + |a|, b)
  {
    if i + |a| + |b| <= |p| {
      assert p[i..i + |a + b|] == p[i..i + |a|] + p[i + |a|..i + |a| + |b|];
      if StandsAt(p, i, a + b) {
        assert p[i..i + |a|] == (a + b)[..|a|] && p[i + |a|..i + |a| + |b|] == (a + b)[|a|..];
      }
    }
  }

  lemma RangeParts(p: string, i: nat, lo: string, up: string, closing: char)
    ensures StandsAt(p, i, lo + ".." + up + [closing]) <==>
              var d := i + |lo|;
              var e := d + 2 + |up|;
              && StandsAt(p, i, lo) && StandsAt(p, d, "..") && StandsAt(p, d + 2, up) && StandsAt(p, e, [closing])
  {
    hide StandsAt;
    StandsApart(p, i, lo + ".." + up, [closing]);
    StandsApart(p, i, lo + "..", up);
    StandsApart(p, i, lo, "..");
  }

  lemma TextStands(p: string, i: nat, t: string)
    ensures StandsAt(p, i, t) <==> i + |t| <= |p| && p[i..i + |t|] == t
  {
  }

  lemma DotsAndCloser(p: string, d: nat, closing: char)
    ensures StandsAt(p, d, "..") <==> d + 2 <= |p| && p[d] == '.' && p[d + 1] == '.'
    ensures StandsAt(p, d, [closing]) <==> d < |p| && p[d] == closing
  {
  }

  lemma DigitsAt(p: string, i: nat, d: string)
    requires StandsAt(p, i, d) && AllDigits(d) && (i + |d| == |p| || !IsDigit(p[i + |d|]))
    ensures DigitRun(p[i..]) == |d|
  {
    DigitsEnd(d, p[i + |d|..]);
    assert p[i..] == d + p[i + |d|..];
  }

  lemma DigitsFound(p: string, i: nat)
    requires i <= |p|
    ensures var n := DigitRun(p[i..]); StandsAt(p, i, p[i..i + n]) && AllDigits(p[i..i + n])
  {
    var n := DigitRun(p[i..]);
    var run := p[i..i + n];
    forall k | 0 <= k < |run|
      ensures IsDigit(run[k])
    {
      assert run[k] == p[i..][k];
    }
  }

  lemma RangeAtIs(p: string, s: nat, d: nat, e: nat, closing: char)
    requires s < d && d + 2 <= e < |p| && closing != '\0'
    requires DigitRun(p[s + 1..]) == d - s - 1 && DigitRun(p[d + 2..]) == e - d - 2
    requires p[d] == '.' && p[d + 1] == '.' && p[e] == closing
    ensures RangeAt(p, s, closing) == Range(e, Bound(p[s + 1..d]), Bound(p[d + 2..e]))
  {
    hide DigitRun, NumberOf;
  }

  lemma RangePlaces(p: string, i: nat, lo: string, up: string, closing: char)
    requires RangeText(p, i, lo, up, closing)
    ensures var d := i + |lo|;
            var e := d + 2 + |up|;
            && e < |p| && p[i..d] == lo && p[d] == '.' && p[d + 1] == '.' && p[d + 2..e] == up && p[e] == closing
  {
    var d := i + |lo|;
    RangeParts(p, i, lo, up, closing);
    hide StandsAt, AllDigits;
    TextStands(p, i, lo);
    TextStands(p, d + 2, up);
    DotsAndCloser(p, d, closing);
    DotsAndCloser(p, d + 2 + |up|, closing);
  }

  lemma FirstRun(p: string, i: nat, lo: string, up: string, closing: char)
    requires RangeText(p, i, lo, up, closing)
    ensures i <= |p| && DigitRun(p[i..]) == |lo|
  {
    RangeParts(p, i, lo, up, closing);
    hide StandsAt, AllDigits, DigitRun;
    DotsAndCloser(p, i + |lo|, closing);
    DigitsAt(p, i, lo);
  }

  lemma SecondRun(p: string, i: nat, lo: string, up: string, closing: char)
    requires RangeText(p, i, lo, up, closing) && !IsDigit(closing)
    ensures i + |lo| + 2 <= |p| && DigitRun(p[i + |lo| + 2..]) == |up|
  {
    RangeParts(p, i, lo, up, closing);
    hide StandsAt, AllDigits, DigitRun, IsDigit;
    DotsAndCloser(p, i + |lo| + 2 + |up|, closing);
    DigitsAt(p, i + |lo| + 2, up);
  }

  /** parseNumRange finds what stands there. */
  lemma RangeIsFound(p: string, s: nat, lo: string, up: string, closing: char)
    requires s < |p| && closing != '\0' && !IsDigit(closing) && RangeText(p, s + 1, lo, up, closing)
    ensures RangeAt(p, s, closing) == Range(s + 3 + |lo| + |up|, Bound(lo), Bound(up))
  {
    hide *;
    RangePlaces(p, s + 1, lo, up, closing);
    FirstRun(p, s + 1, lo, up, closing);
    SecondRun(p, s + 1, lo, up, closing);
    RangeAtIs(p, s, s + 1 + |lo|, s + 3 + |lo| + |up|, closing);
  }

  /** And nothing else. */
  lemma RangeStands(p: string, s: nat, closing: char)
    requires s < |p| && closing != '\0' && RangeAt(p, s, closing).Range?
    ensures SomeRangeText(p, s + 1, closing)
  {
    hide DigitRun, NumberOf, AllDigits, StandsAt;
    var d := s + 1 + DigitRun(p[s + 1..]);
    var e := d + 2 + DigitRun(p[d + 2..]);
    DigitsFound(p, s + 1);
    DigitsFound(p, d + 2);
    DotsAndCloser(p, d, closing);
    DotsAndCloser(p, e, closing);
    RangeParts(p, s + 1, p[s + 1..d], p[d + 2..e], closing);
    assert RangeText(p, s + 1, p[s + 1..d], p[d + 2..e], closing);
  }

  // ---------- Texts ----------

  function RangeLength(lo: string, up: string): nat {
    |lo| + |up| + 3
  }

  lemma RangeCharacters(p: string, i: nat, lo: string, up: string, closing: char, k: nat)
    requires RangeText(p, i, lo, up, closing) && i <= k < i + RangeLength(lo, up)
    ensures i + RangeLength(lo, up) <= |p|
    ensures IsDigit(p[k]) || p[k] == '.' || p[k] == closing
  {
    var t := lo + ".." + up + [closing];
    assert p[k] == p[i..i + |t|][k - i];
  }

  lemma RangeWithin(p: string, s: nat, w: string, i: nat, lo: string, up: string, closing: char)
    requires StandsAt(p, s, w) && i + RangeLength(lo, up) <= |w| && RangeText(p, s + i, lo, up, closing)
    ensures RangeText(w, i, lo, up, closing)
  {
    var t := lo + ".." + up + [closing];
    CharactersOf(p, s, w);
    CharactersOf(p, s + i, t);
    assert forall k | 0 <= k < |t| :: w[i + k] == p[s + (i + k)] == p[s + i + k] == t[k];
    assert w[i..i + |t|] == t;
  }

  lemma NotQuiet(w: string, i: nat, lo: string, up: string)
    requires i < |w| && w[i] == '[' && RangeText(w, i + 1, lo, up, ']')
    ensures !Quiet(w)
  {
    assert SomeRangeText(w, i + 1, ']');
  }

  lemma CharactersOf(p: string, s: nat, w: string)
    requires StandsAt(p, s, w)
    ensures s + |w| <= |p| && forall k | 0 <= k < |w| :: p[s + k] == w[k]
  {
    forall k | 0 <= k < |w|
      ensures p[s + k] == w[k]
    {
      assert p[s..s + |w|][k] == w[k];
    }
  }

  /** A range whose text reaches a character that can stand in none. */
  lemma NoRangeOver(p: string, i: nat, lo: string, up: string, last: nat)
    requires i <= last < |p| && (p[last] == '[' || StartsOther(p[last])) && RangeText(p, i, lo, up, ']')
    ensures i + RangeLength(lo, up) <= last
  {
    hide RangeText;
    if last < i + RangeLength(lo, up) {
      RangeCharacters(p, i, lo, up, ']', last);
    }
  }

  lemma RangeFits(p: string, i: nat, lo: string, up: string)
    requires RangeText(p, i, lo, up, ']')
    ensures i + RangeLength(lo, up) <= |p|
  {
  }

  lemma NoRangeText(p: string, s: nat, w: string, ranged: bool, t: nat, lo: string, up: string)
    requires StandsAt(p, s, w) && Quiet(w) && s <= t < s + |w| <= |p| && p[t] == '['
    requires if ranged then t + 1 < s + |w| && w[|w| - 1] == '[' else s + |w| == |p| || StartsOther(p[s + |w|])
    ensures !RangeText(p, t + 1, lo, up, ']')
  {
    CharactersOf(p, s, w);
    hide RangeText, StandsAt, Quiet, StartsOther;
    if RangeText(p, t + 1, lo, up, ']') {
      RangeFits(p, t + 1, lo, up);
      var last := if ranged then s + |w| - 1 else s + |w|;
      if last < |p| {
        NoRangeOver(p, t + 1, lo, up, last);
      }
      RangeWithin(p, s, w, t + 1 - s, lo, up, ']');
      NotQuiet(w, t - s, lo, up);
    }
  }

  /** Nothing that follows a quiet text turns one of its brackets into a range, but digits after a bracket at its
      end. */
  lemma StaysQuiet(p: string, s: nat, w: string, ranged: bool, t: nat)
    requires StandsAt(p, s, w) && Quiet(w) && s <= t < s + |w| <= |p| && p[t] == '['
    requires if ranged then t + 1 < s + |w| && w[|w| - 1] == '[' else s + |w| == |p| || StartsOther(p[s + |w|])
    ensures RangeAt(p, t, ']').NoRange?
  {
    hide RangeAt, RangeText, StandsAt, Quiet;
    if RangeAt(p, t, ']').Range? {
      RangeStands(p, t, ']');
      var lo, up :| RangeText(p, t + 1, lo, up, ']');
      NoRangeText(p, s, w, ranged, t, lo, up);
    }
  }

  /** One character of a literal, with the backslash that may be before it. */
  lemma LiteralStep(p: string, s: nat, t: nat)
    requires s <= t < |p| && !StartsOther(p[s]) && t == if p[s] == '\\' then s + 1 else s
    ensures LiteralAt(p, s)
            == if p[t] == '[' && RangeAt(p, t, ']').Range? then Literal(t, [p[t]])
               else Continued([p[t]], LiteralAt(p, t + 1))
  {
    hide RangeAt;
  }

  lemma LiteralEnds(p: string, s: nat)
    requires s <= |p| && (s == |p| || StartsOther(p[s]))
    ensures LiteralAt(p, s) == Literal(s, Unescaped(""))
  {
  }

  lemma UnescapedStep(w: string, n: nat)
    requires w != "" && TextOk(w) && n == if w[0] == '\\' then 2 else 1
    ensures n <= |w| && !StartsOther(w[0]) && TextOk(w[n..]) && Unescaped(w) == [w[n - 1]] + Unescaped(w[n..])
    ensures n == |w| ==> Unescaped(w) == [w[n - 1]]
  {
  }

  /** parseLiteralString takes the text as it is meant; if a numeric range follows its last bracket, it stops there. */
  lemma {:induction false} TextIsTaken(p: string, s: nat, w: string, ranged: bool)
    requires s + |w| <= |p| && (forall k | 0 <= k < |w| :: p[s + k] == w[k]) && TextOk(w)
    requires forall t | s <= t < s + |w| && p[t] == '[' ::
               RangeAt(p, t, ']').Range? <==> ranged && t == s + |w| - 1
    requires if ranged then w != "" && w[|w| - 1] == '[' else s + |w| == |p| || StartsOther(p[s + |w|])
    ensures LiteralAt(p, s) == Literal(s + |w| - (if ranged then 1 else 0), Unescaped(w))
    decreases |w|
  {
    hide RangeAt, LiteralAt, Unescaped, TextOk, StartsOther;
    if w == "" {
      LiteralEnds(p, s);
    } else {
      var n := if w[0] == '\\' then 2 else 1;
      var t := s + n - 1;
      UnescapedStep(w, n);
      LiteralStep(p, s, t);
      assert p[t] == w[n - 1];
      if n < |w| || !ranged {
        TextIsTaken(p, s + n, w[n..], ranged);
      } else {
        assert w[n - 1] == '[';
      }
    }
  }

  // ---------- Characters in braces ----------

  /** The pairs that parseSet stores. */
  function Pairs(cs: bool, ranges: string): (chars: string)
    ensures |chars| % 2 == 0
  {
    if ranges == "" then ""
    else if |ranges| >= 3 && ranges[1] == '-' then [Fold(cs, ranges[0]), Fold(cs, ranges[2])] + Pairs(cs, ranges[3..])
    else [Fold(cs, ranges[0]), Fold(cs, ranges[0])] + Pairs(cs, ranges[1..])
  }

  lemma InPairs(c: char, a: char, b: char, rest: string)
    requires |rest| % 2 == 0
    ensures InSet(c, [a, b] + rest) <==> a <= c <= b || InSet(c, rest)
  {
    var all := [a, b] + rest;
    forall i | 0 <= i < |rest| / 2
      ensures all[2 * (i + 1)] == rest[2 * i] && all[2 * (i + 1) + 1] == rest[2 * i + 1]
    {
    }
    if InSet(c, rest) {
      var i :| 0 <= i < |rest| / 2 && rest[2 * i] <= c <= rest[2 * i + 1];
      assert all[2 * (i + 1)] <= c <= all[2 * (i + 1) + 1];
    }
    if a <= c <= b {
      assert all[2 * 0] <= c <= all[2 * 0 + 1];
    }
    if i :| 0 < i < |all| / 2 && all[2 * i] <= c <= all[2 * i + 1] {
      assert rest[2 * (i - 1)] <= c <= rest[2 * (i - 1) + 1];
    }
  }

  /** The pairs hold the characters that are written. */
  lemma {:induction false} PairsAreAmong(cs: bool, c: char, ranges: string)
    ensures InSet(Fold(cs, c), Pairs(cs, ranges)) <==> Among(cs, c, ranges)
  {
    hide InSet, Fold;
    if ranges == "" {
      NotInNothing(Fold(cs, c));
    } else {
      var wide := |ranges| >= 3 && ranges[1] == '-';
      var rest := if wide then ranges[3..] else ranges[1..];
      PairsAreAmong(cs, c, rest);
      InPairs(Fold(cs, c), Fold(cs, ranges[0]), Fold(cs, if wide then ranges[2] else ranges[0]), Pairs(cs, rest));
    }
  }

  lemma NotInNothing(c: char)
    ensures !InSet(c, "")
  {
  }

  /** parseSet takes what stands up to the closing brace; a closing brace that comes first is a member. */
  lemma {:induction false} SetIsTaken(p: string, s: nat, first: nat, ranges: string, cs: bool)
    requires first <= s && s + |ranges| < |p| && p[s + |ranges|] == '}'
    requires forall k | 0 <= k < |ranges| :: p[s + k] == ranges[k]
    requires forall k | 0 <= k < |ranges| && ranges[k] == '}' :: s + k == first
    requires s == first ==> ranges != ""
    ensures SetAt(p, s, first, cs) == CharSet(s + |ranges| + 1, Pairs(cs, ranges))
    decreases |ranges|
  {
    hide Fold;
    if ranges == "" {
    } else {
      var n := if |ranges| >= 3 && ranges[1] == '-' then 3 else 1;
      WideIsWide(p, s, first, ranges);
      hide WideAt;
      assert p[s + 0] == ranges[0];
      SetIsTaken(p, s + n, first, ranges[n..], cs);
      SetGoesOn(p, s, first, ranges, n, cs);
    }
  }

  lemma WideIsWide(p: string, s: nat, first: nat, ranges: string)
    requires first <= s && s + |ranges| < |p| && p[s + |ranges|] == '}'
    requires forall k | 0 <= k < |ranges| :: p[s + k] == ranges[k]
    requires ranges != "" && forall k | 0 <= k < |ranges| && ranges[k] == '}' :: s + k == first
    ensures WideAt(p, s) <==> |ranges| >= 3 && ranges[1] == '-'
  {
    assert |ranges| >= 2 ==> p[s + 1] == ranges[1];
    assert |ranges| >= 3 ==> p[s + 2] == ranges[2];
  }

  lemma SetGoesOn(p: string, s: nat, first: nat, ranges: string, n: nat, cs: bool)
    requires first <= s && ranges != "" && s + |ranges| < |p| && (p[s] == '}' ==> s == first)
    requires forall k | 0 <= k < |ranges| :: p[s + k] == ranges[k]
    requires WideAt(p, s) <==> |ranges| >= 3 && ranges[1] == '-'
    requires n == if |ranges| >= 3 && ranges[1] == '-' then 3 else 1
    ensures SetAt(p, s, first, cs) == ContinuedSet(PairAt(p, s, cs), SetAt(p, s + n, first, cs))
    ensures Pairs(cs, ranges) == PairAt(p, s, cs) + Pairs(cs, ranges[n..])
  {
    hide Fold, WideAt;
    assert p[s + 0] == ranges[0];
    assert n == 3 ==> p[s + 2] == ranges[2];
  }
}
