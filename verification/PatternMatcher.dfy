/** The class PatternMatcher of inet/src/util/PatternMatcher.cc: the tokenizer with its cursor, and
    the backtracking matcher with its shortcuts, proved against the meaning in GlobPattern. */
module PatternMatcherModel {
  import opened CStrings
  import opened GlobPattern
  import opened Tokenizer

  class PatternMatcher {
    var pattern: seq<Elem>
    var isCaseSensitive: bool

    /** What a successful setPattern leaves behind. */
    ghost predicate Valid()
      reads this
      ensures Valid() <==> WellFormed(pattern)
    {
      WellFormed(pattern)
    }

    constructor ()
      ensures pattern == []
    {
      pattern := [];
      isCaseSensitive := true;
    }

    /** setPattern; where the source throws or runs past the end of the text, the outcome says so. */
    method SetPattern(patt: string, dottedPath: bool, fullString: bool, caseSensitive: bool) returns (outcome: Outcome)
      modifies this
      ensures isCaseSensitive == caseSensitive
      ensures Tokens(pattern, outcome) == Tokenize(patt, dottedPath, fullString, caseSensitive)
      ensures outcome == Parsed ==> Valid()
    {
      hide *;
      pattern := [];
      isCaseSensitive := caseSensitive;
      var s: nat := 0;
      while s < |patt|
        invariant s <= |patt| && isCaseSensitive == caseSensitive
        invariant TokensFrom(patt, s, pattern, dottedPath, caseSensitive)
               == TokensFrom(patt, 0, [], dottedPath, caseSensitive)
        decreases Remaining(patt, s, pattern)
      {
        TokensStep(patt, s, pattern, dottedPath, caseSensitive);
        var t := NextToken(patt, s, dottedPath);
        if t.Failed? {
          TokenizeResult(patt, dottedPath, fullString, caseSensitive);
          return t.outcome;
        }
        pattern := pattern + [t.elem];
        s := t.next;
      }
      TokensDone(patt, pattern, dottedPath, caseSensitive);
      TokenizeResult(patt, dottedPath, fullString, caseSensitive);
      if !fullString {
        pattern := Widened(pattern);
      }
      pattern := pattern + [End];
      outcome := Parsed;
      WellFormedIsValid(patt, dottedPath, fullString, caseSensitive);
    }

    /** The switch of setPattern on the character at s. */
    method NextToken(p: string, s: nat, dottedPath: bool) returns (t: Token)
      requires s < |p|
      ensures t == TokenAt(p, s, pattern, dottedPath, isCaseSensitive)
    {
      match p[s]
      case '?' => t := Token(if dottedPath then CommonChar else AnyChar, s + 1);
      case '[' =>
        var r := ParseNumRange(p, s, ']');
        if AfterLiteral(pattern) && r.Range? {
          t := Token(NumRange(r.lo, r.up), r.next);
        } else {
          t := ParseLiteralString(p, s);
        }
      case '{' =>
        var r := ParseNumRange(p, s, '}');
        if r.Range? {
          t := Token(NumRange(r.lo, r.up), r.next + 1);
        } else {
          t := ParseSet(p, s);
        }
      case '*' =>
        if At(p, s + 1) == '*' {
          t := Token(AnySeq, s + 2);
        } else {
          t := Token(if dottedPath then CommonSeq else AnySeq, s + 1);
        }
      case _ => t := ParseLiteralString(p, s);
    }

    method ParseSet(p: string, start: nat) returns (t: Token)
      requires start < |p| && p[start] == '{'
      ensures t == SetToken(p, start, isCaseSensitive)
    {
      hide *;
      var cs := isCaseSensitive;
      var s := start + 1;
      var negated := At(p, s) == '^';
      SetOpening(p, start);
      if negated {
        s := s + 1;
      }
      var first := s;
      var chars := "";
      ContinuedTwice("", "", PastEnd, SetAt(p, s, first, cs));
      while s < |p| && (p[s] != '}' || s == first)
        invariant first <= s <= |p| && |chars| % 2 == 0
        invariant SetAt(p, first, first, cs) == ContinuedSet(chars, SetAt(p, s, first, cs))
      {
        SetStep(p, s, first, cs);
        var pair := PairAt(p, s, cs);
        s := if WideAt(p, s) then s + 3 else s + 1;
        ContinuedTwice(chars, pair, PastEnd, SetAt(p, s, first, cs));
        chars := chars + pair;
      }
      SetEnd(p, s, first, cs, chars);
      SetTokenParts(p, start, cs);
      if s == |p| {
        return Failed(UnmatchedBrace);
      }
      t := Token(if negated then NegSet(chars) else Set(chars), s + 1);
    }

    method ParseLiteralString(p: string, start: nat) returns (t: Token)
      requires start <= |p|
      ensures t == LiteralToken(p, start)
    {
      hide Continued, RangeAt;
      var s, text := start, "";
      ContinuedTwice("", "", LiteralAt(p, s), Unclosed);
      while s < |p| && !StartsOther(p[s])
        invariant start <= s <= |p|
        invariant LiteralAt(p, start) == Continued(text, LiteralAt(p, s))
      {
        ghost var before := text;
        LiteralEnds(before, s);
        if p[s] == '\\' {
          s := s + 1;
          if s == |p| {
            return Failed(ReadsPastEnd);
          }
        }
        LiteralStops(before, p[s], s);
        text := text + [p[s]];
        if p[s] == '[' {
          var r := ParseNumRange(p, s, ']');
          if r.Range? {
            return Token(LiteralString(text), s);
          }
        }
        s := s + 1;
        ContinuedTwice(before, [p[s - 1]], LiteralAt(p, s), Unclosed);
      }
      LiteralEnds(text, s);
      t := Token(LiteralString(text), s);
    }

    static method SkipDigits(p: string, start: nat) returns (s: nat)
      requires start <= |p|
      ensures s == start + DigitRun(p[start..]) <= |p|
    {
      s := start;
      while s < |p| && IsDigit(p[s])
        invariant start <= s <= |p|
        invariant DigitRun(p[start..]) == s - start + DigitRun(p[s..])
      {
        assert p[s..][1..] == p[s + 1..];
        s := s + 1;
      }
    }

    static method ParseNumRange(p: string, start: nat, closing: char) returns (r: Range)
      requires start < |p| && closing != '\0'
      ensures r == RangeAt(p, start, closing)
    {
      hide NumberOf, DigitRun;
      var lo, up := -1, -1;
      var s := SkipDigits(p, start + 1);
      if s > start + 1 {
        lo := NumberOf(p[start + 1..s]);
      }
      if At(p, s) != '.' || At(p, s + 1) != '.' {
        return NoRange;
      }
      s := s + 2;
      var e := SkipDigits(p, s);
      if e > s {
        up := NumberOf(p[s..e]);
      }
      if At(p, e) != closing {
        return NoRange;
      }
      r := Range(e, lo, up);
    }

    method IsInSet(c: char, setchars: string) returns (b: bool)
      requires |setchars| % 2 == 0
      ensures b == InSet(Fold(isCaseSensitive, c), setchars)
    {
      var d := Fold(isCaseSensitive, c);
      var i := 0;
      while i < |setchars|
        invariant i <= |setchars| && i % 2 == 0
        invariant forall j | 0 <= j < i / 2 :: !(setchars[2 * j] <= d <= setchars[2 * j + 1])
      {
        if setchars[i] <= d <= setchars[i + 1] {
          assert setchars[2 * (i / 2)] <= d <= setchars[2 * (i / 2) + 1];
          return true;
        }
        i := i + 2;
      }
      b := false;
    }

    /** strncmp or strncasecmp with the literal, over the literal's length. */
    method StartsWith(s: string, text: string) returns (b: bool)
      ensures b == (|text| <= |s| && SameText(isCaseSensitive, s[..|text|], text))
    {
      var i := 0;
      while i < |text|
        invariant i <= |text| && i <= |s|
        invariant SameText(isCaseSensitive, s[..i], text[..i])
      {
        if i == |s| || Fold(isCaseSensitive, s[i]) != Fold(isCaseSensitive, text[i]) {
          if i < |s| && |text| <= |s| { assert s[..|text|][i] == s[i]; }
          return false;
        }
        assert s[..i + 1] == s[..i] + [s[i]] && text[..i + 1] == text[..i] + [text[i]];
        i := i + 1;
      }
      assert text[..i] == text;
      b := true;
    }

    /** The cases of doMatch that consume one piece: whether the element fits, and the text after its piece. */
    method MatchPiece(s: string, k: nat) returns (ok: bool, rest: string)
      requires Valid() && k < |pattern| - 1 && !pattern[k].AnySeq? && !pattern[k].CommonSeq?
      ensures RestMatches(isCaseSensitive, pattern, k, s) <==> ok && Meaning(isCaseSensitive, pattern, k + 1, rest)
    {
      hide PieceOk, NaturalPiece, Meaning, DigitRun, NumberOf, Fold, InSet, SameText, RestMatches, ExactSuffix;
      ok, rest := false, "";
      EndMeaning(isCaseSensitive, pattern, k, s);
      ExactSuffixFacts(isCaseSensitive, pattern, k, s);
      RestIsMeaning(isCaseSensitive, pattern, k, s);
      var e := pattern[k];
      if e.LiteralString? {
        var same := StartsWith(s, e.text);
        if !ExactSuffix(pattern, k) {
          LiteralMeaning(isCaseSensitive, pattern, k, s);
          LiteralPiece(isCaseSensitive, pattern, k, s);
        }
        if same {
          ok, rest := true, s[|e.text|..];
          EndMeaning(isCaseSensitive, pattern, k + 1, rest);
        }
      } else if e.NumRange? {
        NumRangeMeaning(isCaseSensitive, pattern, k, s);
        if s != "" && IsDigit(s[0]) {
          var n := SkipDigits(s, 0);
          assert s[0..] == s;
          var num := NumberOf(s[..n]);
          ok := !((e.fromnum >= 0 && num < e.fromnum) || (e.tonum >= 0 && num > e.tonum));
          rest := s[n..];
        }
      } else {
        OneCharMeaning(isCaseSensitive, pattern, k, s);
        OneCharPiece(isCaseSensitive, pattern, k, s);
        if s != "" {
          ok := MatchChar(s[0], k);
          rest := s[1..];
        }
      }
    }

    /** The cases that consume one character. */
    method MatchChar(c: char, k: nat) returns (ok: bool)
      requires Valid() && k < |pattern| - 1
      requires pattern[k].AnyChar? || pattern[k].CommonChar? || pattern[k].Set? || pattern[k].NegSet?
      ensures ok == CharFits(isCaseSensitive, pattern[k], c)
    {
      assert GoodElem(pattern[..|pattern| - 1][k]);
      match pattern[k] {
        case AnyChar => ok := true;
        case CommonChar => ok := c != '.';
        case Set(setchars) => ok := IsInSet(c, setchars);
        case NegSet(setchars) =>
          var inside := IsInSet(c, setchars);
          ok := !inside;
      }
    }

    /** doMatch(line, k, 0); only a call that starts at the literal of a final "**literal" may compare it with letter
        case ignored. */
    method DoMatch(line: string, from: nat) returns (b: bool)
      requires Valid() && from < |pattern|
      ensures b <==> RestMatches(isCaseSensitive, pattern, from, line)
      decreases |pattern| - from
    {
      hide Meaning, RestMatches, ExactSuffix, EndsWith, GoodElems;
      var s, k := line, from;
      while true
        invariant k < |pattern| && from <= k
        invariant k == from || !ExactSuffix(pattern, k)
        invariant RestMatches(isCaseSensitive, pattern, from, line) <==> RestMatches(isCaseSensitive, pattern, k, s)
        decreases |pattern| - k
      {
        EndMeaning(isCaseSensitive, pattern, k, s);
        ExactSuffixFacts(isCaseSensitive, pattern, k, s);
        RestIsMeaning(isCaseSensitive, pattern, k, s);
        var e := pattern[k];
        if e.AnySeq? {
          // a sequence that ends the pattern, or stands before its last literal
          if k == |pattern| - 2 {
            FinalAnySeq(isCaseSensitive, pattern, k, s);
            return true;
          }
          if k == |pattern| - 3 && pattern[k + 1].LiteralString? {
            FinalAnySeqLiteral(isCaseSensitive, pattern, k, s);
            return EndsWith(s, pattern[k + 1].text);
          }
          // any other: the rest is tried at every later place
          while true
            invariant RestMatches(isCaseSensitive, pattern, from, line) <==> Meaning(isCaseSensitive, pattern, k, s)
            decreases s
          {
            SequenceMeaning(isCaseSensitive, pattern, k, s);
            RestIsMeaning(isCaseSensitive, pattern, k + 1, s);
            var rest := DoMatch(s, k + 1);
            if rest { return true; }
            if s == "" { return false; }
            s := s[1..];
          }
        } else if e.CommonSeq? {
          while true
            invariant RestMatches(isCaseSensitive, pattern, from, line) <==> Meaning(isCaseSensitive, pattern, k, s)
            decreases s
          {
            SequenceMeaning(isCaseSensitive, pattern, k, s);
            RestIsMeaning(isCaseSensitive, pattern, k + 1, s);
            var rest := DoMatch(s, k + 1);
            if rest { return true; }
            if s == "" || s[0] == '.' { return false; }
            s := s[1..];
          }
        } else if e.End? {
          return s == "";
        } else {
          var ok, rest := MatchPiece(s, k);
          if !ok { return false; }
          s := rest;
        }
        RestIsMeaning(isCaseSensitive, pattern, k + 1, s);
        k := k + 1;
      }
    }

    /** matches(line). */
    method Matches(line: string) returns (b: bool)
      requires Valid()
      ensures b <==> Denotes(isCaseSensitive, pattern, line)
      ensures b <==>
        && NaturallyDenotes(isCaseSensitive, pattern, line)
        && (|pattern| >= 2 && ExactSuffix(pattern, |pattern| - 2) ==> EndsWith(line, pattern[|pattern| - 2].text))
      ensures isCaseSensitive ==> (b <==> NaturallyDenotes(true, pattern, line))
    {
      hide Denotes, NaturallyDenotes, Meaning, EndsWith;
      DenotesExactly(isCaseSensitive, pattern, line);
      RestIsMeaning(isCaseSensitive, pattern, 0, line);
      if isCaseSensitive {
        CaseSensitiveIsNatural(pattern, line);
      }
      MeaningIsDenotation(isCaseSensitive, pattern, line);
      if |pattern| >= 2 && isCaseSensitive {
        var e := pattern[|pattern| - 2];
        if e.LiteralString? {
          // a final literal must end as the line does
          var pattlen, linelen := |e.text|, |line|;
          if pattlen >= 2 && linelen >= 2
            && (line[linelen - 1] != e.text[pattlen - 1] || line[linelen - 2] != e.text[pattlen - 2])
          {
            if Meaning(true, pattern, 0, line) {
              LastTwoAgree(pattern, line);
            }
            return false;
          }
        }
      }
      b := DoMatch(line, 0);
    }
  }

  /** What doMatch decides from element k on. */
  ghost predicate RestMatches(cs: bool, p: seq<Elem>, k: nat, s: string)
    requires Terminated(p) && k < |p|
  {
    if ExactSuffix(p, k) then SameText(cs, s, p[k].text) else Meaning(cs, p, k, s)
  }

  lemma RestIsMeaning(cs: bool, p: seq<Elem>, k: nat, s: string)
    requires Terminated(p) && k < |p|
    ensures if ExactSuffix(p, k) then RestMatches(cs, p, k, s) <==> SameText(cs, s, p[k].text)
            else RestMatches(cs, p, k, s) <==> Meaning(cs, p, k, s)
  {
  }

  /** The literal of a final "**literal" is followed by the end, and only a call can start there. */
  lemma ExactSuffixFacts(cs: bool, p: seq<Elem>, k: nat, s: string)
    requires Terminated(p) && k < |p|
    ensures k < |p| - 1 && ExactSuffix(p, k + 1) ==> k == |p| - 3 && p[k].AnySeq? && p[k + 1].LiteralString?
    ensures ExactSuffix(p, k) ==>
              var n := |p[k].text|;
              k == |p| - 2 && p[k].LiteralString?
              && (SameText(cs, s, p[k].text) <==> n <= |s| && SameText(cs, s[..n], p[k].text) && s[n..] == "")
  {
    if ExactSuffix(p, k) && |p[k].text| <= |s| && s[|p[k].text|..] == "" {
      assert s[..|p[k].text|] == s;
    }
    if ExactSuffix(p, k) && |p[k].text| == |s| {
      assert s[..|p[k].text|] == s;
    }
  }

  lemma EndMeaning(cs: bool, p: seq<Elem>, k: nat, s: string)
    requires Terminated(p) && k < |p|
    ensures p[k] == End <==> k == |p| - 1
    ensures k == |p| - 1 ==> (Meaning(cs, p, k, s) <==> s == "")
  {
  }

  lemma LiteralPiece(cs: bool, p: seq<Elem>, k: nat, s: string)
    requires k < |p| && p[k].LiteralString? && (cs || !ExactSuffix(p, k))
    ensures |p[k].text| <= |s| ==> (PieceOk(cs, p, k, s[..|p[k].text|]) <==> SameText(cs, s[..|p[k].text|], p[k].text))
  {
  }

  /** Whether a character is the piece of an element that stands for one. */
  predicate CharFits(cs: bool, e: Elem, c: char) {
    match e
    case AnyChar => true
    case CommonChar => c != '.'
    case Set(setchars) => InSet(Fold(cs, c), setchars)
    case NegSet(setchars) => !InSet(Fold(cs, c), setchars)
    case _ => false
  }

  lemma OneCharPiece(cs: bool, p: seq<Elem>, k: nat, s: string)
    requires k < |p| && (p[k].AnyChar? || p[k].CommonChar? || p[k].Set? || p[k].NegSet?)
    ensures s != "" ==> (PieceOk(cs, p, k, s[..1]) <==> CharFits(cs, p[k], s[0]))
  {
  }

  /** The two-character pre-check never rejects a line that matches. */
  lemma LastTwoAgree(p: seq<Elem>, line: string)
    requires Terminated(p) && |p| >= 2 && p[|p| - 2].LiteralString? && |p[|p| - 2].text| >= 2 && |line| >= 2
    requires Meaning(true, p, 0, line)
    ensures
      var t := p[|p| - 2].text;
      line[|line| - 1] == t[|t| - 1] && line[|line| - 2] == t[|t| - 2]
  {
    var t := p[|p| - 2].text;
    MatchEndsWithLiteral(p, 0, line);
    assert t == line[|line| - |t|..];
  }

  lemma SetOpening(p: string, s: nat)
    requires s < |p|
    ensures At(p, s + 1) == '^' ==> s + 2 <= |p|
  {
  }

  lemma SetTokenParts(p: string, s: nat, cs: bool)
    requires s < |p| && p[s] == '{'
    ensures
      var negated := At(p, s + 1) == '^';
      var first := if negated then s + 2 else s + 1;
      first <= |p| &&
      SetToken(p, s, cs) ==
        match SetAt(p, first, first, cs)
        case Unclosed => Failed(UnmatchedBrace)
        case CharSet(next, chars) => Token(if negated then NegSet(chars) else Set(chars), next)
  {
  }

  lemma SetStep(p: string, s: nat, first: nat, cs: bool)
    requires first <= s < |p| && (p[s] != '}' || s == first)
    ensures WideAt(p, s) ==> s + 2 < |p|
    ensures SetAt(p, s, first, cs) ==
      ContinuedSet(PairAt(p, s, cs), SetAt(p, if WideAt(p, s) then s + 3 else s + 1, first, cs))
  {
  }

  lemma SetEnd(p: string, s: nat, first: nat, cs: bool, chars: string)
    requires first <= s <= |p| && (s < |p| ==> p[s] == '}' && s != first)
    ensures ContinuedSet(chars, SetAt(p, s, first, cs)) == if s == |p| then Unclosed else CharSet(s + 1, chars)
  {
    assert chars + "" == chars;
  }

  lemma LiteralEnds(text: string, s: nat)
    ensures Continued(text, Literal(s, "")) == Literal(s, text)
    ensures Continued(text, PastEnd) == PastEnd
  {
    assert text + "" == text;
  }

  lemma LiteralStops(text: string, c: char, s: nat)
    ensures Continued(text, Literal(s, [c])) == Literal(s, text + [c])
  {
  }

  lemma TokensStep(p: string, s: nat, elems: seq<Elem>, dottedPath: bool, cs: bool)
    requires s < |p|
    ensures
      var t := TokenAt(p, s, elems, dottedPath, cs);
      match t
      case Failed(outcome) => outcome != Parsed && TokensFrom(p, s, elems, dottedPath, cs) == Tokens(elems, outcome)
      case Token(e, next) =>
        && next <= |p| && Remaining(p, next, elems + [e]) < Remaining(p, s, elems)
        && TokensFrom(p, s, elems, dottedPath, cs) == TokensFrom(p, next, elems + [e], dottedPath, cs)
  {
    TokenProgress(p, s, elems, dottedPath, cs);
    FailureOutcome(p, s, elems, dottedPath, cs);
    hide TokenAt;
  }

  lemma FailureOutcome(p: string, s: nat, elems: seq<Elem>, dottedPath: bool, cs: bool)
    requires s < |p|
    ensures var t := TokenAt(p, s, elems, dottedPath, cs); t.Failed? ==> t.outcome != Parsed
  {
    hide LiteralAt, SetAt, RangeAt;
  }

  lemma TokensDone(p: string, elems: seq<Elem>, dottedPath: bool, cs: bool)
    ensures TokensFrom(p, |p|, elems, dottedPath, cs) == Tokens(elems, Parsed)
  {
  }

  lemma TokenizeResult(p: string, dottedPath: bool, fullString: bool, cs: bool)
    ensures
      var t := TokensFrom(p, 0, [], dottedPath, cs);
      Tokenize(p, dottedPath, fullString, cs) ==
        if t.outcome != Parsed then t
        else Tokens((if fullString then t.elems else Widened(t.elems)) + [End], Parsed)
  {
  }

  lemma WellFormedIsValid(p: string, dottedPath: bool, fullString: bool, cs: bool)
    ensures
      var t := Tokenize(p, dottedPath, fullString, cs);
      t.outcome == Parsed ==> WellFormed(t.elems)
  {
    TokenizedIsWellFormed(p, dottedPath, fullString, cs);
  }

  predicate WellFormed(p: seq<Elem>) {
    Terminated(p) && GoodElems(p[..|p| - 1])
  }
}
