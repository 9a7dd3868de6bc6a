/** How PatternMatcher::setPattern cuts a pattern text into elements, as a function of the text. */
module Tokenizer {
  import opened CStrings
  import opened GlobPattern

  datatype Range = NoRange | Range(next: nat, lo: int, up: int)

  /** "[n..m]" or "{n..m}" at s, up to the closing character; a missing bound is -1. */
  function RangeAt(p: string, s: nat, closing: char): (r: Range)
    requires s < |p| && closing != '\0'
    ensures r.Range? ==> s + 2 < r.next < |p| && p[r.next] == closing
    ensures r.Range? ==> exists i | s < i < r.next - 1 :: p[i] == '.' && p[i + 1] == '.'
  {
    var n := DigitRun(p[s + 1..]);
    var d := s + 1 + n;
    if At(p, d) != '.' || At(p, d + 1) != '.' then NoRange
    else
      var m := DigitRun(p[d + 2..]);
      var e := d + 2 + m;
      if At(p, e) != closing then NoRange
      else
        assert p[d] == '.' && p[d + 1] == '.';
        Range(e, if n > 0 then NumberOf(p[s + 1..d]) else -1, if m > 0 then NumberOf(p[d + 2..e]) else -1)
  }

  /** A scanned literal; PastEnd when a backslash is the last character, where the code would read
      beyond the end of the string. */
  datatype Literal = Literal(next: nat, text: string) | PastEnd

  predicate StartsOther(c: char) {
    c == '?' || c == '{' || c == '*'
  }

  /** Literal text from s on: a backslash takes the next character as it is; a "[" that starts a
      numeric range, escaped or not, is the last character and is not consumed. */
  function LiteralAt(p: string, s: nat): (r: Literal)
    requires s <= |p|
    ensures r.Literal? ==> s <= r.next <= |p|
    ensures r.Literal? && s < |p| && !StartsOther(p[s]) ==>
      r.text != "" && (s < r.next || (p[s] == '[' && RangeAt(p, s, ']').Range?))
    ensures r.PastEnd? ==> p != "" && p[|p| - 1] == '\\'
    decreases |p| - s
  {
    if s == |p| || StartsOther(p[s]) then Literal(s, "")
    else
      var t := if p[s] == '\\' then s + 1 else s;
      if t == |p| then PastEnd
      else if p[t] == '[' && RangeAt(p, t, ']').Range? then Literal(t, [p[t]])
      else Continued([p[t]], LiteralAt(p, t + 1))
  }

  function Continued(before: string, r: Literal): Literal {
    match r
    case PastEnd => PastEnd
    case Literal(next, text) => Literal(next, before + text)
  }

  /** Either the closed set or no closing brace. */
  datatype CharSet = CharSet(next: nat, chars: string) | Unclosed

  /** A range like "a-z" starts at s. */
  predicate WideAt(p: string, s: nat) {
    At(p, s + 1) == '-' && s + 2 < |p| && p[s + 2] != '}'
  }

  function PairAt(p: string, s: nat, caseSensitive: bool): (pair: string)
    requires s < |p|
    ensures |pair| == 2
  {
    [Fold(caseSensitive, p[s]), Fold(caseSensitive, if WideAt(p, s) then p[s + 2] else p[s])]
  }

  /** The character pairs of a set whose first character is at first: "a-z" is a pair, a single
      character is paired with itself, and "}" in first position is a member. */
  function SetAt(p: string, s: nat, first: nat, caseSensitive: bool): (r: CharSet)
    requires first <= s <= |p|
    ensures r.CharSet? ==> s < r.next <= |p| && |r.chars| % 2 == 0
    ensures r.CharSet? ==> p[r.next - 1] == '}'
    decreases |p| - s
  {
    if s == |p| then Unclosed
    else if p[s] == '}' && s != first then CharSet(s + 1, "")
    else
      ContinuedSet(PairAt(p, s, caseSensitive), SetAt(p, if WideAt(p, s) then s + 3 else s + 1, first, caseSensitive))
  }

  function ContinuedSet(before: string, r: CharSet): CharSet {
    match r
    case Unclosed => Unclosed
    case CharSet(next, chars) => CharSet(next, before + chars)
  }

  lemma ContinuedTwice(a: string, b: string, r: Literal, c: CharSet)
    ensures Continued(a, Continued(b, r)) == Continued(a + b, r)
    ensures ContinuedSet(a, ContinuedSet(b, c)) == ContinuedSet(a + b, c)
    ensures Continued("", r) == r && ContinuedSet("", c) == c
  {
    assert r.Literal? ==> a + (b + r.text) == (a + b) + r.text && "" + r.text == r.text;
    assert c.CharSet? ==> a + (b + c.chars) == (a + b) + c.chars && "" + c.chars == c.chars;
  }

  datatype Outcome = Parsed | UnmatchedBrace | ReadsPastEnd

  /** One element of the pattern at s, and where the next one starts. */
  datatype Token = Token(elem: Elem, next: nat) | Failed(outcome: Outcome)

  predicate AfterLiteral(elems: seq<Elem>) {
    elems != [] && elems[|elems| - 1].LiteralString?
  }

  function LiteralToken(p: string, s: nat): Token
    requires s <= |p|
  {
    match LiteralAt(p, s)
    case PastEnd => Failed(ReadsPastEnd)
    case Literal(next, text) => Token(LiteralString(text), next)
  }

  function SetToken(p: string, s: nat, caseSensitive: bool): Token
    requires s < |p| && p[s] == '{'
  {
    var negated := At(p, s + 1) == '^';
    var first := if negated then s + 2 else s + 1;
    match SetAt(p, first, first, caseSensitive)
    case Unclosed => Failed(UnmatchedBrace)
    case CharSet(next, chars) => Token(if negated then NegSet(chars) else Set(chars), next)
  }

  function TokenAt(p: string, s: nat, elems: seq<Elem>, dottedPath: bool, caseSensitive: bool): Token
    requires s < |p|
  {
    match p[s]
    case '?' => Token(if dottedPath then CommonChar else AnyChar, s + 1)
    case '[' =>
      if AfterLiteral(elems) && RangeAt(p, s, ']').Range? then
        var r := RangeAt(p, s, ']');
        Token(NumRange(r.lo, r.up), r.next)
      else LiteralToken(p, s)
    case '{' =>
      (match RangeAt(p, s, '}')
       case Range(next, lo, up) => Token(NumRange(lo, up), next + 1)
       case NoRange => SetToken(p, s, caseSensitive))
    case '*' =>
      if At(p, s + 1) == '*' then Token(AnySeq, s + 2)
      else Token(if dottedPath then CommonSeq else AnySeq, s + 1)
    case _ => LiteralToken(p, s)
  }

  /** Every token consumes text, except a "[" that becomes a literal because its range needs one before it. */
  lemma TokenProgress(p: string, s: nat, elems: seq<Elem>, dottedPath: bool, caseSensitive: bool)
    requires s < |p|
    ensures
      var t := TokenAt(p, s, elems, dottedPath, caseSensitive);
      t.Token? ==>
        && t.next <= |p| && t.elem != End
        && (s < t.next || (s == t.next && !AfterLiteral(elems) && t.elem.LiteralString?))
        && (t.elem.LiteralString? ==> t.elem.text != "")
        && (t.elem.Set? || t.elem.NegSet? ==> |t.elem.setchars| % 2 == 0)
  {
    hide LiteralAt, SetAt, RangeAt;
  }

  /** What is left to do: the text, and within it the one step that consumes nothing. */
  function Remaining(p: string, s: nat, elems: seq<Elem>): nat
    requires s <= |p|
  {
    2 * (|p| - s) + (if AfterLiteral(elems) then 0 else 1)
  }

  datatype Tokens = Tokens(elems: seq<Elem>, outcome: Outcome)

  /** The elements of the text from s on, appended to those found so far. */
  function TokensFrom(p: string, s: nat, elems: seq<Elem>, dottedPath: bool, caseSensitive: bool): (r: Tokens)
    requires s <= |p|
    decreases Remaining(p, s, elems)
  {
    if s == |p| then Tokens(elems, Parsed)
    else
      TokenProgress(p, s, elems, dottedPath, caseSensitive);
      match TokenAt(p, s, elems, dottedPath, caseSensitive)
      case Failed(outcome) => Tokens(elems, outcome)
      case Token(e, next) => TokensFrom(p, next, elems + [e], dottedPath, caseSensitive)
  }

  /** For a substring match, "**" at both ends unless it is already there. */
  function Widened(elems: seq<Elem>): seq<Elem> {
    var tailed := if elems == [] || !elems[|elems| - 1].AnySeq? then elems + [AnySeq] else elems;
    if tailed[0].AnySeq? then tailed else [AnySeq] + tailed
  }

  /** What setPattern makes of a pattern text. */
  function Tokenize(p: string, dottedPath: bool, fullString: bool, caseSensitive: bool): Tokens {
    var t := TokensFrom(p, 0, [], dottedPath, caseSensitive);
    if t.outcome != Parsed then t
    else Tokens((if fullString then t.elems else Widened(t.elems)) + [End], Parsed)
  }

  // ---------- properties ----------

  predicate GoodElem(e: Elem) {
    && e != End
    && (e.LiteralString? ==> e.text != "")
    && (e.Set? || e.NegSet? ==> |e.setchars| % 2 == 0)
  }

  predicate GoodElems(elems: seq<Elem>) {
    forall i | 0 <= i < |elems| :: GoodElem(elems[i])
  }

  lemma {:induction false} TokensAreGood(p: string, s: nat, elems: seq<Elem>, dottedPath: bool, caseSensitive: bool)
    requires s <= |p| && GoodElems(elems)
    ensures GoodElems(TokensFrom(p, s, elems, dottedPath, caseSensitive).elems)
    decreases Remaining(p, s, elems)
  {
    hide TokenAt;
    if s < |p| {
      TokenProgress(p, s, elems, dottedPath, caseSensitive);
      var t := TokenAt(p, s, elems, dottedPath, caseSensitive);
      if t.Token? { TokensAreGood(p, t.next, elems + [t.elem], dottedPath, caseSensitive); }
    }
  }

  /** A parsed pattern ends with its only END; literals are nonempty and sets are made of pairs. */
  lemma TokenizedIsWellFormed(p: string, dottedPath: bool, fullString: bool, caseSensitive: bool)
    ensures
      var t := Tokenize(p, dottedPath, fullString, caseSensitive);
      t.outcome == Parsed ==> Terminated(t.elems) && GoodElems(t.elems[..|t.elems| - 1])
  {
    TokensAreGood(p, 0, [], dottedPath, caseSensitive);
    var t := Tokenize(p, dottedPath, fullString, caseSensitive);
    if t.outcome == Parsed {
      var body := t.elems[..|t.elems| - 1];
      assert t.elems == body + [End];
      assert GoodElems(body);
      forall i | 0 <= i < |t.elems| - 1 ensures t.elems[i] != End {
        assert GoodElem(body[i]);
      }
    }
  }

  /** The brace at s is never closed: "}" occurs after it at most as the first member of the set. */
  predicate UnclosedBrace(p: string, s: nat) {
    && s < |p| && p[s] == '{'
    && var first := if At(p, s + 1) == '^' then s + 2 else s + 1;
       forall i | first < i < |p| :: p[i] != '}'
  }

  lemma {:induction false} SetIsUnclosed(p: string, s: nat, first: nat, caseSensitive: bool)
    requires first <= s <= |p|
    ensures SetAt(p, s, first, caseSensitive).Unclosed? <==> forall i | s <= i < |p| :: p[i] == '}' ==> i == first
    decreases |p| - s
  {
    if s < |p| && !(p[s] == '}' && s != first) {
      SetIsUnclosed(p, if WideAt(p, s) then s + 3 else s + 1, first, caseSensitive);
    }
  }

  /** One step fails for a missing brace exactly at a brace that is never closed. */
  lemma BraceFailsExactly(p: string, s: nat, elems: seq<Elem>, dottedPath: bool, caseSensitive: bool)
    requires s < |p|
    ensures TokenAt(p, s, elems, dottedPath, caseSensitive) == Failed(UnmatchedBrace) <==> UnclosedBrace(p, s)
  {
    hide LiteralAt, SetAt, RangeAt;
    if p[s] == '{' {
      var first := if At(p, s + 1) == '^' then s + 2 else s + 1;
      SetIsUnclosed(p, first, first, caseSensitive);
      if RangeAt(p, s, '}').Range? {
        RangeCloses(p, s);
      }
    }
  }

  lemma RangeCloses(p: string, s: nat)
    requires s < |p| && RangeAt(p, s, '}').Range?
    ensures exists i | s + 2 < i < |p| :: p[i] == '}'
  {
    assert p[RangeAt(p, s, '}').next] == '}';
  }

  /** Tokenizing from s on comes to an element that starts at i. */
  predicate Reaches(p: string, s: nat, elems: seq<Elem>, dottedPath: bool, caseSensitive: bool, i: nat)
    requires s <= |p|
    decreases Remaining(p, s, elems)
  {
    || s == i
    || (s < |p|
        && var t := TokenAt(p, s, elems, dottedPath, caseSensitive);
           TokenProgress(p, s, elems, dottedPath, caseSensitive);
           t.Token? && Reaches(p, t.next, elems + [t.elem], dottedPath, caseSensitive, i))
  }

  // ---------- a backslash at the end ----------

  /** The number of backslashes right before n. */
  function Backslashes(p: string, n: nat): (k: nat)
    requires n <= |p|
    ensures k <= n && (forall i | n - k <= i < n :: p[i] == '\\') && (k < n ==> p[n - k - 1] != '\\')
  {
    if n == 0 || p[n - 1] != '\\' then 0 else 1 + Backslashes(p, n - 1)
  }

  /** The pattern ends in a backslash that no backslash before it escapes. */
  predicate DanglingBackslash(p: string) {
    Backslashes(p, |p|) % 2 == 1
  }

  /** s is not between a final backslash and the one that escapes it. */
  predicate Boundary(p: string, s: nat)
    requires s <= |p|
  {
    var k := Backslashes(p, |p|);
    s <= |p| - k || (k - (|p| - s)) % 2 == 0
  }

  lemma AfterOther(p: string, q: nat)
    requires q < |p| && p[q] != '\\'
    ensures Boundary(p, q) && Boundary(p, q + 1)
  {
    var k := Backslashes(p, |p|);
    assert q < |p| - k;
  }

  lemma AfterBackslash(p: string, s: nat)
    requires s < |p| && p[s] == '\\' && Boundary(p, s)
    ensures s + 1 == |p| ==> DanglingBackslash(p)
    ensures s + 1 < |p| ==> Boundary(p, s + 2)
  {
    var k := Backslashes(p, |p|);
    if s < |p| - k {
      assert s + 1 < |p| - k;
    }
  }

  lemma {:induction false} LiteralKeepsBoundary(p: string, s: nat)
    requires s <= |p| && Boundary(p, s)
    ensures var r := LiteralAt(p, s); if r.PastEnd? then DanglingBackslash(p) else Boundary(p, r.next)
    decreases |p| - s
  {
    hide Boundary, DanglingBackslash, RangeAt, Backslashes;
    if s < |p| && !StartsOther(p[s]) {
      if p[s] == '\\' {
        AfterBackslash(p, s);
        if s + 1 < |p| {
          if p[s + 1] == '[' {
            AfterOther(p, s + 1);
          }
          LiteralKeepsBoundary(p, s + 2);
        }
      } else {
        AfterOther(p, s);
        LiteralKeepsBoundary(p, s + 1);
      }
    }
  }

  lemma TokenKeepsBoundary(p: string, s: nat, elems: seq<Elem>, dottedPath: bool, caseSensitive: bool)
    requires s < |p| && Boundary(p, s)
    ensures var t := TokenAt(p, s, elems, dottedPath, caseSensitive);
            && (t.Token? ==> t.next <= |p| && Boundary(p, t.next))
            && (t == Failed(ReadsPastEnd) ==> DanglingBackslash(p))
  {
    hide Boundary, DanglingBackslash, RangeAt, SetAt, LiteralAt, Backslashes;
    TokenProgress(p, s, elems, dottedPath, caseSensitive);
    LiteralKeepsBoundary(p, s);
    var t := TokenAt(p, s, elems, dottedPath, caseSensitive);
    if p[s] == '?' || p[s] == '*' {
      AfterOther(p, t.next - 1);
    } else if t.Token? && t.elem.NumRange? {
      AfterOther(p, if p[s] == '[' then t.next else t.next - 1);
    } else if t.Token? && p[s] == '{' {
      AfterOther(p, t.next - 1);
    }
  }

  /** Tokenizing fails if and only if it comes to a brace that is never closed, or the pattern ends in a backslash that
      is not escaped; in the second case alone the code would read past the end. */
  lemma {:induction false} FailureCause(p: string, s: nat, elems: seq<Elem>, dottedPath: bool, caseSensitive: bool)
    requires s <= |p| && Boundary(p, s)
    ensures
      var t := TokensFrom(p, s, elems, dottedPath, caseSensitive);
      && (t.outcome == UnmatchedBrace
          <==> exists i | 0 <= i < |p| :: Reaches(p, s, elems, dottedPath, caseSensitive, i) && UnclosedBrace(p, i))
      && (t.outcome == ReadsPastEnd <==> DanglingBackslash(p) && t.outcome != UnmatchedBrace)
    decreases Remaining(p, s, elems)
  {
    hide Boundary, UnclosedBrace, TokenAt;
    if s == |p| {
      AtTheEnd(p);
    } else {
      TokenProgress(p, s, elems, dottedPath, caseSensitive);
      TokenKeepsBoundary(p, s, elems, dottedPath, caseSensitive);
      BraceFailsExactly(p, s, elems, dottedPath, caseSensitive);
      var t := TokenAt(p, s, elems, dottedPath, caseSensitive);
      if t.Token? {
        FailureCause(p, t.next, elems + [t.elem], dottedPath, caseSensitive);
        forall i | 0 <= i < |p|
          ensures Reaches(p, s, elems, dottedPath, caseSensitive, i)
                  <==> s == i || Reaches(p, t.next, elems + [t.elem], dottedPath, caseSensitive, i)
        {
        }
      } else {
        assert Reaches(p, s, elems, dottedPath, caseSensitive, s);
        FailureIsOneOf(p, s, elems, dottedPath, caseSensitive);
      }
    }
  }

  lemma FailureIsOneOf(p: string, s: nat, elems: seq<Elem>, dottedPath: bool, caseSensitive: bool)
    requires s < |p|
    ensures var t := TokenAt(p, s, elems, dottedPath, caseSensitive);
            t.Failed? ==> t.outcome == UnmatchedBrace || t.outcome == ReadsPastEnd
  {
    hide LiteralAt, SetAt, RangeAt;
  }

  lemma AtTheEnd(p: string)
    ensures Boundary(p, |p|) ==> !DanglingBackslash(p)
  {
  }

  /** The same for the whole of a pattern. */
  lemma PatternFailsExactly(p: string, dottedPath: bool, fullString: bool, caseSensitive: bool)
    ensures
      var t := Tokenize(p, dottedPath, fullString, caseSensitive);
      && (t.outcome == UnmatchedBrace
          <==> exists i | 0 <= i < |p| :: Reaches(p, 0, [], dottedPath, caseSensitive, i) && UnclosedBrace(p, i))
      && (t.outcome == Parsed <==> t.outcome != UnmatchedBrace && !DanglingBackslash(p))
  {
    hide Reaches, UnclosedBrace, TokensFrom, DanglingBackslash;
    assert Boundary(p, 0) by { AtTheStart(p); }
    FailureCause(p, 0, [], dottedPath, caseSensitive);
  }

  lemma AtTheStart(p: string)
    ensures Boundary(p, 0)
  {
  }

  // ---------- an escaped bracket ----------

  /** An escaped "[" ends its literal, and starts a numeric range, if and only if a range stands there; else it is an
      ordinary character. */
  lemma EscapedBracket(p: string, s: nat)
    requires s + 1 < |p| && p[s] == '\\' && p[s + 1] == '['
    ensures RangeAt(p, s + 1, ']').Range? <==> LiteralAt(p, s) == Literal(s + 1, "[")
    ensures RangeAt(p, s + 1, ']').NoRange? <==> LiteralAt(p, s) == Continued("[", LiteralAt(p, s + 2))
  {
    hide RangeAt;
    if RangeAt(p, s + 1, ']').NoRange? {
      assert [p[s + 1]] == "[";
    }
  }

  /** At the beginning of an element an escaped range gives the literal "[" and the range all the same. */
  lemma EscapedRangeIsRange(p: string, s: nat, elems: seq<Elem>, dottedPath: bool, caseSensitive: bool)
    requires s + 1 < |p| && p[s] == '\\' && p[s + 1] == '[' && RangeAt(p, s + 1, ']').Range?
    ensures var r := RangeAt(p, s + 1, ']');
            TokensFrom(p, s, elems, dottedPath, caseSensitive)
            == TokensFrom(p, r.next, elems + [LiteralString("[")] + [NumRange(r.lo, r.up)], dottedPath, caseSensitive)
  {
    hide RangeAt;
    EscapedBracket(p, s);
    var more := elems + [LiteralString("[")];
    assert TokenAt(p, s, elems, dottedPath, caseSensitive) == Token(LiteralString("["), s + 1);
    assert AfterLiteral(more);
    var r := RangeAt(p, s + 1, ']');
    assert TokenAt(p, s + 1, more, dottedPath, caseSensitive) == Token(NumRange(r.lo, r.up), r.next);
  }

  /** Such a pattern. */
  lemma EscapedRangeInstance()
    ensures Tokenize("\\[1..2]", false, true, true)
            == Tokens([LiteralString("["), NumRange(1, 2), LiteralString("]"), End], Parsed)
  {
    hide RangeAt, SetAt, DigitRun, NumberOf;
    var p := "\\[1..2]";
    OneToTwo();
    EscapedRangeIsRange(p, 0, [], false, true);
    var elems := [] + [LiteralString("[")] + [NumRange(1, 2)];
    ClosingBracketIsLiteral(elems);
    assert TokensFrom(p, 6, elems, false, true) == TokensFrom(p, 7, elems + [LiteralString("]")], false, true);
  }

  lemma ClosingBracketIsLiteral(elems: seq<Elem>)
    ensures TokenAt("\\[1..2]", 6, elems, false, true) == Token(LiteralString("]"), 7)
  {
    hide RangeAt, SetAt;
    var p := "\\[1..2]";
    assert LiteralAt(p, 7) == Literal(7, "");
    assert LiteralAt(p, 6) == Literal(7, "]");
  }

  lemma OneToTwo()
    ensures RangeAt("\\[1..2]", 1, ']') == Range(6, 1, 2)
  {
    var p := "\\[1..2]";
    assert p[2..] == "1..2]" && p[2..][1..] == "..2]" && DigitRun("..2]") == 0;
    assert DigitRun(p[2..]) == 1;
    assert p[5..] == "2]" && p[5..][1..] == "]" && DigitRun("]") == 0;
    assert DigitRun(p[5..]) == 1;
    assert p[2..3] == "1" && p[5..6] == "2";
    assert NumberOf("1") == 1 && NumberOf("2") == 2 by {
      assert "1"[..0] == "" && "2"[..0] == "" && NumberOf("") == 0;
    }
  }

  /** containsWildcards */
  predicate ContainsWildcards(p: string) {
    '?' in p || '*' in p || '\\' in p || '{' in p || exists i | 0 <= i < |p| - 1 :: p[i] == '.' && p[i + 1] == '.'
  }

  lemma {:induction false} PlainLiteral(p: string, s: nat)
    requires s <= |p| && !ContainsWildcards(p)
    ensures LiteralAt(p, s) == Literal(|p|, p[s..])
    decreases |p| - s
  {
    if s < |p| {
      PlainLiteral(p, s + 1);
      assert p[s..] == [p[s]] + p[s + 1..];
      if p[s] == '[' { NoRangeInPlain(p, s, ']'); }
    }
  }

  lemma NoRangeInPlain(p: string, s: nat, closing: char)
    requires s < |p| && closing != '\0' && !ContainsWildcards(p)
    ensures RangeAt(p, s, closing) == NoRange
  {
  }

  /** A pattern without wildcards is one literal, the text itself. */
  lemma PlainPattern(p: string, dottedPath: bool, caseSensitive: bool)
    requires !ContainsWildcards(p)
    ensures Tokenize(p, dottedPath, true, caseSensitive) ==
      Tokens(if p == "" then [End] else [LiteralString(p), End], Parsed)
  {
    if p != "" {
      PlainLiteral(p, 0);
      assert p[0..] == p;
      assert TokenAt(p, 0, [], dottedPath, caseSensitive) == Token(LiteralString(p), |p|);
      var one := [LiteralString(p)];
      assert [] + one == one;
      assert TokensFrom(p, 0, [], dottedPath, caseSensitive) == TokensFrom(p, |p|, one, dottedPath, caseSensitive);
    }
  }

  /** The literal fast path: such a pattern denotes its own text and nothing else. */
  lemma PlainPatternMatchesItself(p: string, dottedPath: bool, line: string)
    requires !ContainsWildcards(p)
    ensures Terminated(Tokenize(p, dottedPath, true, true).elems)
    ensures Meaning(true, Tokenize(p, dottedPath, true, true).elems, 0, line) <==> line == p
  {
    PlainPattern(p, dottedPath, true);
    var elems := Tokenize(p, dottedPath, true, true).elems;
    if p != "" {
      LiteralMeaning(true, elems, 0, line);
      if |p| <= |line| {
        assert Meaning(true, elems, 1, line[|p|..]) <==> line[|p|..] == "";
        assert line == line[..|p|] + line[|p|..];
      }
    }
  }
}
