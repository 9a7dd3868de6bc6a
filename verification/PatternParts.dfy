/** How setPattern turns the text of a list of parts into the elements of these parts. */
module PatternParts {
  import opened CStrings
  import opened GlobPattern
  import opened PatternText
  import opened Tokenizer

  // ---------- The element that a part becomes ----------

  function Element(part: Part, dottedPath: bool, cs: bool): Elem {
    match part
    case Text(written) => LiteralString(Unescaped(written))
    case Question => if dottedPath then CommonChar else AnyChar
    case Star => if dottedPath then CommonSeq else AnySeq
    case DoubleStar => AnySeq
    case Chars(negated, ranges) => if negated then NegSet(Pairs(cs, ranges)) else Set(Pairs(cs, ranges))
    case Number(lo, up) => NumRange(Bound(lo), Bound(up))
    case Index(lo, up) => NumRange(Bound(lo), Bound(up))
  }

  lemma BoundIsBound(lo: string, up: string, piece: string)
    requires AllDigits(lo) && AllDigits(up)
    ensures Between(lo, up, piece)
            <==> piece != "" && AllDigits(piece) && InRange(NumRange(Bound(lo), Bound(up)), NumberOf(piece))
  {
    NumbersAreNatural(lo);
    NumbersAreNatural(up);
    hide NumberOf, AllDigits;
  }

  lemma {:induction false} NumbersAreNatural(d: string)
    requires AllDigits(d)
    ensures NumberOf(d) >= 0
  {
    if d != "" {
      NumbersAreNatural(d[..|d| - 1]);
    }
  }

  lemma ElementMeans(part: Part, dottedPath: bool, cs: bool, piece: string, rest: string)
    requires PartOk(part)
    ensures NaturalPiece(cs, Element(part, dottedPath, cs), piece) <==> Means(dottedPath, cs, part, piece)
    ensures FollowOk(Element(part, dottedPath, cs), rest) <==> Ends(part, rest)
  {
    hide Between, InSet, Among, Pairs, NumberOf, SameText, Unescaped;
    if part.Chars? && |piece| == 1 {
      PairsAreAmong(cs, piece[0], part.ranges);
    }
    if part.Number? || part.Index? {
      BoundIsBound(part.lo, part.up, piece);
    }
  }

  /** Where the parts of a set stand. */
  lemma CharsPlace(p: string, s: nat, part: Part)
    requires part.Chars? && PartOk(part) && StandsAt(p, s, Rendered(part))
    ensures var first := if part.negated then s + 2 else s + 1;
            && first + |part.ranges| < |p| && first + |part.ranges| + 1 == s + |Rendered(part)|
            && p[s] == '{' && (p[s + 1] == '^' <==> part.negated) && p[first + |part.ranges|] == '}'
            && forall k | 0 <= k < |part.ranges| :: p[first + k] == part.ranges[k]
  {
    var r, text := part.ranges, Rendered(part);
    CharactersOf(p, s, text);
    hide StandsAt, PartOk;
    var m := if part.negated then 2 else 1;
    assert p[s + 0] == text[0] && p[s + 1] == text[1] && p[s + (|text| - 1)] == text[|text| - 1];
    forall k | 0 <= k < |r|
      ensures p[s + m + k] == r[k]
    {
      assert p[s + (m + k)] == text[m + k];
    }
    assert !part.negated ==> text[1] == r[0] != '^' by { FirstOfChars(part); }
  }

  lemma FirstOfChars(part: Part)
    requires part.Chars? && PartOk(part)
    ensures part.ranges != "" && (!part.negated ==> part.ranges[0] != '^')
    ensures forall k | 0 <= k < |part.ranges| && part.ranges[k] == '}' :: k == 0
  {
  }

  lemma CharsToken(p: string, s: nat, elems: seq<Elem>, part: Part, dottedPath: bool, cs: bool)
    requires part.Chars? && PartOk(part) && StandsAt(p, s, Rendered(part))
    ensures s < |p|
    ensures TokenAt(p, s, elems, dottedPath, cs) == Token(Element(part, dottedPath, cs), s + |Rendered(part)|)
  {
    hide RangeAt, SetAt, StandsAt, Pairs, Rendered, PartOk, LiteralAt;
    CharsPlace(p, s, part);
    FirstOfChars(part);
    NoNumberInBraces(p, s, part);
    var first := if part.negated then s + 2 else s + 1;
    SetIsTaken(p, first, first, part.ranges, cs);
  }

  lemma RangeInner(p: string, i: nat, lo: string, up: string, closing: char)
    requires RangeText(p, i, lo, up, closing)
    ensures var e := i + RangeLength(lo, up) - 1;
            e < |p| && p[e] == closing && forall k | i <= k < e :: IsDigit(p[k]) || p[k] == '.'
  {
    var t := lo + ".." + up + [closing];
    CharactersOf(p, i, t);
    assert p[i + (|t| - 1)] == closing;
    forall k | i <= k < i + |t| - 1
      ensures IsDigit(p[k]) || p[k] == '.'
    {
      assert p[i + (k - i)] == t[k - i];
    }
  }

  lemma SameCharacter(p: string, i: nat, r: string, k: nat)
    requires i + |r| <= |p| && k < |r| && forall j | 0 <= j < |r| :: p[i + j] == r[j]
    ensures p[i + k] == r[k]
  {
  }

  lemma BraceIsOutside(p: string, i: nat, r: string, k: nat)
    requires 1 <= k && i + k < |p| && p[i + k] == '}' && i + |r| <= |p|
    requires forall j | 0 <= j < |r| :: p[i + j] == r[j]
    requires forall j | 0 <= j < |r| && r[j] == '}' :: j == 0
    ensures k >= |r|
  {
    if k < |r| {
      SameCharacter(p, i, r, k);
    }
  }

  lemma BracesHoldRange(p: string, i: nat, r: string, lo: string, up: string)
    requires RangeText(p, i, lo, up, '}') && i + |r| < |p| && p[i + |r|] == '}'
    requires forall k | 0 <= k < |r| :: p[i + k] == r[k]
    requires forall k | 0 <= k < |r| && r[k] == '}' :: k == 0
    ensures SomeRangeText(r + "}", 0, '}')
  {
    RangeInner(p, i, lo, up, '}');
    hide RangeText;
    var k := RangeLength(lo, up) - 1;
    BraceIsOutside(p, i, r, k);
    assert k == |r|;
    assert p[i..i + |r| + 1] == r + "}";
    RangeWithin(p, i, r + "}", 0, lo, up, '}');
    assert RangeText(r + "}", 0, lo, up, '}');
  }

  lemma NotNegated(part: Part)
    requires part.Chars? && PartOk(part) && !part.negated
    ensures !SomeRangeText(part.ranges + "}", 0, '}')
  {
  }

  lemma NoCaretInside(p: string, i: nat, lo: string, up: string)
    requires RangeText(p, i, lo, up, '}')
    ensures i < |p| && p[i] != '^'
  {
    RangeInner(p, i, lo, up, '}');
    hide RangeText;
  }

  lemma NoNumberStands(p: string, s: nat, part: Part, lo: string, up: string)
    requires part.Chars? && PartOk(part) && StandsAt(p, s, Rendered(part))
    ensures !RangeText(p, s + 1, lo, up, '}')
  {
    hide *;
    CharsPlace(p, s, part);
    FirstOfChars(part);
    if RangeText(p, s + 1, lo, up, '}') {
      if part.negated {
        NoCaretInside(p, s + 1, lo, up);
      } else {
        NotNegated(part);
        BracesHoldRange(p, s + 1, part.ranges, lo, up);
      }
    }
  }

  lemma NoNumberInBraces(p: string, s: nat, part: Part)
    requires part.Chars? && PartOk(part) && StandsAt(p, s, Rendered(part)) && s < |p|
    ensures RangeAt(p, s, '}').NoRange?
  {
    hide RangeAt, RangeText, StandsAt, PartOk, Rendered;
    if RangeAt(p, s, '}').Range? {
      RangeStands(p, s, '}');
      var lo, up :| RangeText(p, s + 1, lo, up, '}');
      NoNumberStands(p, s, part, lo, up);
    }
  }

  // ---------- From text to elements ----------

  /** What comes after a part does not change it. */
  predicate NextOk(p: string, part: Part, next: nat) {
    match part
    case Text(_) => next >= |p| || StartsOther(p[next])
    case Star => next >= |p| || p[next] != '*'
    case _ => true
  }

  lemma WildcardToken(p: string, s: nat, elems: seq<Elem>, part: Part, dottedPath: bool, cs: bool)
    requires part.Question? || part.Star? || part.DoubleStar?
    requires StandsAt(p, s, Rendered(part)) && NextOk(p, part, s + |Rendered(part)|)
    ensures s < |p|
    ensures TokenAt(p, s, elems, dottedPath, cs) == Token(Element(part, dottedPath, cs), s + |Rendered(part)|)
  {
    CharactersOf(p, s, Rendered(part));
    hide LiteralAt, RangeAt, SetAt, StandsAt;
    assert p[s + 0] == Rendered(part)[0];
    assert part.DoubleStar? ==> p[s + 1] == Rendered(part)[1];
  }

  lemma NumberRendered(part: Part)
    requires part.Number?
    ensures Rendered(part) == "{" + (part.lo + ".." + part.up + ['}'])
  {
  }

  lemma NumberDigits(part: Part)
    requires part.Number? && PartOk(part)
    ensures AllDigits(part.lo) && AllDigits(part.up)
  {
  }

  lemma NumberPlace(p: string, s: nat, part: Part)
    requires part.Number? && PartOk(part) && StandsAt(p, s, Rendered(part))
    ensures s < |p| && p[s] == '{' && |Rendered(part)| == |part.lo| + |part.up| + 4
    ensures RangeText(p, s + 1, part.lo, part.up, '}')
  {
    hide StandsAt, PartOk, Rendered;
    var t := part.lo + ".." + part.up + ['}'];
    NumberRendered(part);
    StandsApart(p, s, "{", t);
    DotsAndCloser(p, s, '{');
    NumberDigits(part);
  }

  lemma BracedToken(p: string, s: nat, elems: seq<Elem>, part: Part, dottedPath: bool, cs: bool)
    requires part.Number? && s < |p| && p[s] == '{'
    requires RangeAt(p, s, '}') == Range(s + 3 + |part.lo| + |part.up|, Bound(part.lo), Bound(part.up))
    ensures TokenAt(p, s, elems, dottedPath, cs)
            == Token(Element(part, dottedPath, cs), s + 4 + |part.lo| + |part.up|)
  {
    hide RangeAt, LiteralAt, SetAt, NumberOf;
  }

  lemma NumberToken(p: string, s: nat, elems: seq<Elem>, part: Part, dottedPath: bool, cs: bool)
    requires part.Number? && PartOk(part) && StandsAt(p, s, Rendered(part))
    ensures s < |p|
    ensures TokenAt(p, s, elems, dottedPath, cs) == Token(Element(part, dottedPath, cs), s + |Rendered(part)|)
  {
    assert !IsDigit('}');
    hide *;
    NumberPlace(p, s, part);
    RangeIsFound(p, s, part.lo, part.up, '}');
    BracedToken(p, s, elems, part, dottedPath, cs);
  }

  /** ranged: an index follows. */
  predicate TextEnds(p: string, s: nat, w: string, ranged: bool)
    requires w != "" && s + |w| <= |p|
  {
    if ranged then w[|w| - 1] == '[' && p[s + |w| - 1] == '[' && RangeAt(p, s + |w| - 1, ']').Range?
    else NextOk(p, Text(w), s + |w|)
  }

  lemma TextBrackets(p: string, s: nat, w: string, ranged: bool, t: nat)
    requires PartOk(Text(w)) && s + |w| <= |p| && StandsAt(p, s, w) && TextEnds(p, s, w, ranged)
    requires s <= t < s + |w| && p[t] == '['
    ensures RangeAt(p, t, ']').Range? <==> ranged && t == s + |w| - 1
  {
    hide RangeAt, StandsAt, TextOk, Quiet;
    if !(ranged && t == s + |w| - 1) {
      StaysQuiet(p, s, w, ranged, t);
    }
  }

  lemma TextBegins(p: string, s: nat, elems: seq<Elem>, w: string, ranged: bool, dottedPath: bool, cs: bool)
    requires s < |p| && !StartsOther(p[s]) && !AfterLiteral(elems)
    ensures TokenAt(p, s, elems, dottedPath, cs) == LiteralToken(p, s)
  {
    hide LiteralAt, RangeAt, SetAt;
  }

  lemma TextIsOk(w: string)
    requires PartOk(Text(w))
    ensures w != "" && TextOk(w) && !StartsOther(w[0])
  {
  }

  lemma TextEndsWell(p: string, s: nat, w: string, ranged: bool)
    requires w != "" && s + |w| <= |p| && TextEnds(p, s, w, ranged)
    ensures if ranged then w[|w| - 1] == '[' else s + |w| == |p| || StartsOther(p[s + |w|])
  {
  }

  lemma LiteralTokenIs(p: string, s: nat, next: nat, text: string)
    requires s <= |p| && LiteralAt(p, s) == Literal(next, text)
    ensures LiteralToken(p, s) == Token(LiteralString(text), next)
  {
  }

  lemma TextToken(p: string, s: nat, elems: seq<Elem>, w: string, ranged: bool, dottedPath: bool, cs: bool)
    requires PartOk(Text(w)) && s + |w| <= |p| && StandsAt(p, s, w) && !AfterLiteral(elems)
    requires TextEnds(p, s, w, ranged)
    ensures TokenAt(p, s, elems, dottedPath, cs)
            == Token(LiteralString(Unescaped(w)), s + |w| - (if ranged then 1 else 0))
  {
    hide *;
    CharactersOf(p, s, w);
    TextIsOk(w);
    TextEndsWell(p, s, w, ranged);
    forall t | s <= t < s + |w| && p[t] == '['
      ensures RangeAt(p, t, ']').Range? <==> ranged && t == s + |w| - 1
    {
      TextBrackets(p, s, w, ranged, t);
    }
    assert p[s + 0] == w[0];
    TextBegins(p, s, elems, w, ranged, dottedPath, cs);
    TextIsTaken(p, s, w, ranged);
    LiteralTokenIs(p, s, s + |w| - (if ranged then 1 else 0), Unescaped(w));
  }

  /** The token of any other part than a text and an index. */
  lemma PartToken(p: string, s: nat, elems: seq<Elem>, part: Part, dottedPath: bool, cs: bool)
    requires !part.Text? && !part.Index? && PartOk(part)
    requires StandsAt(p, s, Rendered(part)) && NextOk(p, part, s + |Rendered(part)|)
    ensures s < |p|
    ensures TokenAt(p, s, elems, dottedPath, cs) == Token(Element(part, dottedPath, cs), s + |Rendered(part)|)
  {
    hide TokenAt, StandsAt, Rendered, NextOk, PartOk, Element;
    if part.Chars? {
      CharsToken(p, s, elems, part, dottedPath, cs);
    } else if part.Number? {
      NumberToken(p, s, elems, part, dottedPath, cs);
    } else {
      WildcardToken(p, s, elems, part, dottedPath, cs);
    }
  }

  lemma OneToken(p: string, s: nat, elems: seq<Elem>, dottedPath: bool, cs: bool, e: Elem, next: nat)
    requires s < |p| && TokenAt(p, s, elems, dottedPath, cs) == Token(e, next)
    ensures next <= |p|
    ensures TokensFrom(p, s, elems, dottedPath, cs) == TokensFrom(p, next, elems + [e], dottedPath, cs)
  {
    hide TokenAt;
    TokenProgress(p, s, elems, dottedPath, cs);
  }

  /** Where a text, an index and its closing bracket stand. */
  lemma IndexPlace(p: string, s: nat, w: string, index: Part)
    requires PartOk(Text(w)) && index.Index? && PartOk(index) && w[|w| - 1] == '['
    requires StandsAt(p, s, w + Rendered(index) + "]")
    ensures var at := s + |w| - 1;
            && s + |w| <= |p| && StandsAt(p, s, w) && p[at] == '[' && |Rendered(index)| == |index.lo| + |index.up| + 2
            && RangeText(p, at + 1, index.lo, index.up, ']')
  {
    var t := index.lo + ".." + index.up + [']'];
    assert w + Rendered(index) + "]" == w + t;
    StandsApart(p, s, w, t);
    CharactersOf(p, s, w);
    assert p[s + (|w| - 1)] == '[';
    hide StandsAt, TextOk, Quiet;
  }

  lemma IndexToken(p: string, at: nat, elems: seq<Elem>, index: Part, dottedPath: bool, cs: bool)
    requires index.Index? && at < |p| && p[at] == '[' && AfterLiteral(elems)
    requires RangeAt(p, at, ']') == Range(at + 3 + |index.lo| + |index.up|, Bound(index.lo), Bound(index.up))
    ensures TokenAt(p, at, elems, dottedPath, cs)
            == Token(Element(index, dottedPath, cs), at + 3 + |index.lo| + |index.up|)
  {
    hide RangeAt, LiteralAt, SetAt, NumberOf;
  }

  lemma EndsInIndex(p: string, s: nat, w: string)
    requires w != "" && s + |w| <= |p| && w[|w| - 1] == '[' && p[s + |w| - 1] == '['
    requires RangeAt(p, s + |w| - 1, ']').Range?
    ensures TextEnds(p, s, w, true)
  {
  }

  lemma TextBeforeIndex(p: string, s: nat, elems: seq<Elem>, w: string, dottedPath: bool, cs: bool)
    requires PartOk(Text(w)) && w[|w| - 1] == '[' && !AfterLiteral(elems)
    requires s + |w| <= |p| && StandsAt(p, s, w) && p[s + |w| - 1] == '[' && RangeAt(p, s + |w| - 1, ']').Range?
    ensures TokensFrom(p, s, elems, dottedPath, cs)
            == TokensFrom(p, s + |w| - 1, elems + [LiteralString(Unescaped(w))], dottedPath, cs)
  {
    hide *;
    TextIsOk(w);
    EndsInIndex(p, s, w);
    TextToken(p, s, elems, w, true, dottedPath, cs);
    OneToken(p, s, elems, dottedPath, cs, LiteralString(Unescaped(w)), s + |w| - 1);
  }

  lemma IndexAfterText(p: string, at: nat, elems: seq<Elem>, index: Part, dottedPath: bool, cs: bool)
    requires index.Index? && at < |p| && p[at] == '[' && AfterLiteral(elems)
    requires RangeAt(p, at, ']') == Range(at + 3 + |index.lo| + |index.up|, Bound(index.lo), Bound(index.up))
    ensures at + 3 + |index.lo| + |index.up| <= |p|
    ensures TokensFrom(p, at, elems, dottedPath, cs)
            == TokensFrom(p, at + 3 + |index.lo| + |index.up|, elems + [Element(index, dottedPath, cs)], dottedPath, cs)
  {
    hide *;
    IndexToken(p, at, elems, index, dottedPath, cs);
    OneToken(p, at, elems, dottedPath, cs, Element(index, dottedPath, cs), at + 3 + |index.lo| + |index.up|);
  }

  lemma NowAfterLiteral(elems: seq<Elem>, text: string)
    ensures AfterLiteral(elems + [LiteralString(text)]) && !IsDigit(']')
  {
  }

  /** A text and the index that follows it. */
  lemma IndexedTokens(p: string, s: nat, elems: seq<Elem>, w: string, index: Part, dottedPath: bool, cs: bool)
    requires PartOk(Text(w)) && index.Index? && PartOk(index) && w[|w| - 1] == '[' && !AfterLiteral(elems)
    requires StandsAt(p, s, w + Rendered(index) + "]")
    ensures var next := s + |w| + |Rendered(index)|;
            && s <= |p| && next <= |p|
            && TokensFrom(p, s, elems, dottedPath, cs)
               == TokensFrom(p, next, elems + [LiteralString(Unescaped(w))] + [Element(index, dottedPath, cs)],
                             dottedPath, cs)
  {
    hide *;
    TextIsOk(w);
    IndexPlace(p, s, w, index);
    NowAfterLiteral(elems, Unescaped(w));
    RangeIsFound(p, s + |w| - 1, index.lo, index.up, ']');
    TextBeforeIndex(p, s, elems, w, dottedPath, cs);
    IndexAfterText(p, s + |w| - 1, elems + [LiteralString(Unescaped(w))], index, dottedPath, cs);
  }

  function Elements(parts: seq<Part>, dottedPath: bool, cs: bool): seq<Elem> {
    if parts == [] then [] else [Element(parts[0], dottedPath, cs)] + Elements(parts[1..], dottedPath, cs)
  }

  /** Parts that may be the rest of a pattern, after these elements. */
  ghost predicate MayGoOn(parts: seq<Part>, elems: seq<Elem>) {
    && (forall i | 0 <= i < |parts| :: PartOk(parts[i]))
    && (forall i | 0 <= i < |parts| - 1 :: MayFollow(parts[i], parts[i + 1]))
    && (parts != [] ==> !parts[|parts| - 1].Index? && !parts[0].Index? && (parts[0].Text? ==> !AfterLiteral(elems)))
  }

  lemma RestMayGoOn(parts: seq<Part>, elems: seq<Elem>, e: Elem)
    requires parts != [] && MayGoOn(parts, elems) && (e.LiteralString? ==> parts[0].Text?)
    requires |parts| > 1 ==> !parts[1].Index?
    ensures MayGoOn(parts[1..], elems + [e])
  {
    var rest := parts[1..];
    forall i | 0 <= i < |rest| - 1
      ensures MayFollow(rest[i], rest[i + 1])
    {
      assert MayFollow(parts[i + 1], parts[i + 1 + 1]);
    }
    assert |parts| > 1 ==> MayFollow(parts[0], parts[0 + 1]);
  }

  lemma AfterIndexMayGoOn(parts: seq<Part>, elems: seq<Elem>, more: seq<Elem>, e: Elem)
    requires |parts| > 1 && MayGoOn(parts, elems) && parts[1].Index? && e.NumRange?
    ensures |parts| > 2 && parts[2].Text? && parts[2].written != "" && parts[2].written[0] == ']'
    ensures PartOk(parts[0]) && parts[0].Text? && PartOk(parts[1]) && !AfterLiteral(elems)
    ensures parts[0].written != "" && parts[0].written[|parts[0].written| - 1] == '['
    ensures MayGoOn(parts[2..], more + [e])
  {
    var rest := parts[2..];
    assert MayFollow(parts[0], parts[0 + 1]) && MayFollow(parts[1], parts[1 + 1]);
    forall i | 0 <= i < |rest| - 1
      ensures MayFollow(rest[i], rest[i + 1])
    {
      assert MayFollow(parts[i + 2], parts[i + 2 + 1]);
    }
    assert |parts| > 3 ==> MayFollow(parts[2], parts[2 + 1]);
    hide PartOk;
  }

  /** What a part begins with. */
  lemma Begins(part: Part)
    requires PartOk(part) && !part.Index?
    ensures Rendered(part) != ""
    ensures part.Text? ==> !StartsOther(Rendered(part)[0])
    ensures !part.Text? ==>
              StartsOther(Rendered(part)[0]) && (Rendered(part)[0] == '*' <==> part.Star? || part.DoubleStar?)
  {
    if part.Text? {
      TextIsOk(part.written);
    }
  }

  /** Of parts that may follow each other, the later one leaves the earlier one as it is. */
  lemma FollowerIsOk(pre: string, part: Part, rest: seq<Part>)
    requires !part.Index? && PartOk(part)
    requires rest != [] ==> PartOk(rest[0]) && !rest[0].Index? && MayFollow(part, rest[0])
    ensures NextOk(pre + Rendered(part) + Render(rest), part, |pre| + |Rendered(part)|)
    ensures StandsAt(pre + Rendered(part) + Render(rest), |pre|, Rendered(part))
  {
    var p, next := pre + Rendered(part) + Render(rest), |pre| + |Rendered(part)|;
    assert p[|pre|..next] == Rendered(part);
    if rest != [] {
      Begins(rest[0]);
      hide PartOk, Rendered;
      assert p[next] == Rendered(rest[0])[0];
    } else {
      assert next >= |p|;
    }
  }

  lemma TextOnly(part: Part, dottedPath: bool, cs: bool)
    requires part.Text?
    ensures Rendered(part) == part.written && part == Text(part.written)
    ensures Element(part, dottedPath, cs) == LiteralString(Unescaped(part.written))
  {
    hide Unescaped;
  }

  lemma TextAsPart(p: string, s: nat, part: Part, dottedPath: bool, cs: bool)
    requires part.Text? && PartOk(part) && s + |part.written| <= |p| && NextOk(p, part, s + |part.written|)
    ensures part.written != "" && TextEnds(p, s, part.written, false) && PartOk(Text(part.written))
    ensures Rendered(part) == part.written && Element(part, dottedPath, cs) == LiteralString(Unescaped(part.written))
  {
    hide TextOk, Quiet;
  }

  lemma TextAsToken(p: string, s: nat, elems: seq<Elem>, part: Part, dottedPath: bool, cs: bool)
    requires PartOk(part) && part.Text? && !AfterLiteral(elems) && s + |Rendered(part)| <= |p| && s < |p|
    requires StandsAt(p, s, Rendered(part)) && NextOk(p, part, s + |Rendered(part)|)
    ensures TokenAt(p, s, elems, dottedPath, cs) == Token(Element(part, dottedPath, cs), s + |Rendered(part)|)
  {
    hide *;
    TextOnly(part, dottedPath, cs);
    TextAsPart(p, s, part, dottedPath, cs);
    TextToken(p, s, elems, part.written, false, dottedPath, cs);
  }

  lemma TakenAt(p: string, s: nat, elems: seq<Elem>, part: Part, dottedPath: bool, cs: bool)
    requires PartOk(part) && !part.Index? && (part.Text? ==> !AfterLiteral(elems))
    requires StandsAt(p, s, Rendered(part)) && NextOk(p, part, s + |Rendered(part)|)
    ensures s + |Rendered(part)| <= |p|
    ensures TokensFrom(p, s, elems, dottedPath, cs)
            == TokensFrom(p, s + |Rendered(part)|, elems + [Element(part, dottedPath, cs)], dottedPath, cs)
  {
    hide *;
    TextStands(p, s, Rendered(part));
    Begins(part);
    if part.Text? {
      TextAsToken(p, s, elems, part, dottedPath, cs);
    } else {
      PartToken(p, s, elems, part, dottedPath, cs);
    }
    OneToken(p, s, elems, dottedPath, cs, Element(part, dottedPath, cs), s + |Rendered(part)|);
  }

  lemma FirstRendered(pre: string, parts: seq<Part>)
    requires parts != []
    ensures pre + Render(parts) == pre + Rendered(parts[0]) + Render(parts[1..])
  {
    hide Rendered;
  }

  lemma FirstMayGoOn(parts: seq<Part>, elems: seq<Elem>)
    requires parts != [] && MayGoOn(parts, elems) && (|parts| > 1 ==> !parts[1].Index?)
    ensures PartOk(parts[0]) && !parts[0].Index? && (parts[0].Text? ==> !AfterLiteral(elems))
    ensures parts[1..] != [] ==>
              PartOk(parts[1..][0]) && !parts[1..][0].Index? && MayFollow(parts[0], parts[1..][0])
  {
    hide PartOk, MayFollow;
    assert |parts| > 1 ==> MayFollow(parts[0], parts[0 + 1]);
  }

  lemma OnePartTaken(pre: string, parts: seq<Part>, elems: seq<Elem>, dottedPath: bool, cs: bool)
    requires parts != [] && MayGoOn(parts, elems) && (|parts| > 1 ==> !parts[1].Index?)
    ensures var p, e := pre + Render(parts), Element(parts[0], dottedPath, cs);
            && |pre| + |Rendered(parts[0])| <= |p|
            && p == pre + Rendered(parts[0]) + Render(parts[1..])
            && TokensFrom(p, |pre|, elems, dottedPath, cs)
               == TokensFrom(p, |pre| + |Rendered(parts[0])|, elems + [e], dottedPath, cs)
  {
    hide *;
    FirstRendered(pre, parts);
    FirstMayGoOn(parts, elems);
    FollowerIsOk(pre, parts[0], parts[1..]);
    TakenAt(pre + Render(parts), |pre|, elems, parts[0], dottedPath, cs);
  }

  lemma StandsBetween(pre: string, t: string, post: string)
    ensures StandsAt(pre + t + post, |pre|, t)
  {
    assert (pre + t + post)[|pre|..|pre| + |t|] == t;
  }

  lemma ThreeRendered(parts: seq<Part>)
    requires |parts| > 2
    ensures Render(parts) == Rendered(parts[0]) + Rendered(parts[1]) + Render(parts[2..])
    ensures Render(parts[2..]) == Rendered(parts[2]) + Render(parts[3..])
  {
    hide Rendered;
    assert parts[1..][1..] == parts[2..] && parts[2..][1..] == parts[3..];
    assert Render(parts[1..]) == Rendered(parts[1]) + Render(parts[2..]);
  }

  lemma BracketStands(pre: string, w: string, r: string, closing: string, rest: string)
    requires closing != "" && closing[0] == ']'
    ensures StandsAt(pre + (w + r + (closing + rest)), |pre|, w + r + "]")
    ensures pre + (w + r + (closing + rest)) == pre + w + r + (closing + rest)
  {
    hide StandsAt;
    assert pre + (w + r + (closing + rest)) == pre + (w + r + "]") + (closing + rest)[1..];
    StandsBetween(pre, w + r + "]", (closing + rest)[1..]);
  }

  lemma IndexedRendered(pre: string, parts: seq<Part>)
    requires |parts| > 2 && parts[2].Text? && parts[2].written != "" && parts[2].written[0] == ']' && parts[0].Text?
    ensures var w, p := parts[0].written, pre + Render(parts);
            && p == pre + w + Rendered(parts[1]) + Render(parts[2..])
            && StandsAt(p, |pre|, w + Rendered(parts[1]) + "]")
  {
    ThreeRendered(parts);
    assert Rendered(parts[0]) == parts[0].written && Rendered(parts[2]) == parts[2].written;
    hide *;
    BracketStands(pre, parts[0].written, Rendered(parts[1]), parts[2].written, Render(parts[3..]));
  }

  lemma TwoPartsTaken(pre: string, parts: seq<Part>, elems: seq<Elem>, dottedPath: bool, cs: bool)
    requires |parts| > 1 && MayGoOn(parts, elems) && parts[1].Index?
    ensures var p := pre + Render(parts);
            var next := |pre| + |Rendered(parts[0])| + |Rendered(parts[1])|;
            && next <= |p| && p == pre + Rendered(parts[0]) + Rendered(parts[1]) + Render(parts[2..])
            && TokensFrom(p, |pre|, elems, dottedPath, cs)
               == TokensFrom(p, next, elems + [Element(parts[0], dottedPath, cs)] + [Element(parts[1], dottedPath, cs)],
                             dottedPath, cs)
  {
    hide *;
    AfterIndexMayGoOn(parts, elems, elems, NumRange(0, 0));
    TextOnly(parts[0], dottedPath, cs);
    IndexedRendered(pre, parts);
    IndexedTokens(pre + Render(parts), |pre|, elems, parts[0].written, parts[1], dottedPath, cs);
  }

  lemma TwoElements(parts: seq<Part>, dottedPath: bool, cs: bool)
    requires |parts| > 1
    ensures Elements(parts, dottedPath, cs)
            == [Element(parts[0], dottedPath, cs)] + [Element(parts[1], dottedPath, cs)]
               + Elements(parts[2..], dottedPath, cs)
  {
    hide Element;
    assert parts[1..][1..] == parts[2..];
  }

  lemma OneElement(parts: seq<Part>, dottedPath: bool, cs: bool)
    requires parts != []
    ensures Elements(parts, dottedPath, cs)
            == [Element(parts[0], dottedPath, cs)] + Elements(parts[1..], dottedPath, cs)
  {
  }

  lemma NothingLeft(pre: string, elems: seq<Elem>, dottedPath: bool, cs: bool)
    ensures TokensFrom(pre + Render([]), |pre|, elems, dottedPath, cs)
            == Tokens(elems + Elements([], dottedPath, cs), Parsed)
  {
    assert elems + [] == elems;
  }

  lemma IndexIsNumber(part: Part, dottedPath: bool, cs: bool)
    requires part.Index?
    ensures Element(part, dottedPath, cs).NumRange?
  {
  }

  lemma TextIsLiteral(part: Part, dottedPath: bool, cs: bool)
    ensures Element(part, dottedPath, cs).LiteralString? <==> part.Text?
  {
  }

  /** The text of a list of parts becomes the list of their elements. */
  lemma {:induction false} PartsAreTaken(pre: string, parts: seq<Part>, elems: seq<Elem>, dottedPath: bool, cs: bool)
    requires MayGoOn(parts, elems)
    ensures TokensFrom(pre + Render(parts), |pre|, elems, dottedPath, cs)
            == Tokens(elems + Elements(parts, dottedPath, cs), Parsed)
    decreases |parts|
  {
    hide *;
    if parts == [] {
      NothingLeft(pre, elems, dottedPath, cs);
    } else if |parts| > 1 && parts[1].Index? {
      var e, f := Element(parts[0], dottedPath, cs), Element(parts[1], dottedPath, cs);
      TwoPartsTaken(pre, parts, elems, dottedPath, cs);
      IndexIsNumber(parts[1], dottedPath, cs);
      AfterIndexMayGoOn(parts, elems, elems + [e], f);
      PartsAreTaken(pre + Rendered(parts[0]) + Rendered(parts[1]), parts[2..], elems + [e] + [f], dottedPath, cs);
      TwoElements(parts, dottedPath, cs);
    } else {
      var e := Element(parts[0], dottedPath, cs);
      OnePartTaken(pre, parts, elems, dottedPath, cs);
      TextIsLiteral(parts[0], dottedPath, cs);
      RestMayGoOn(parts, elems, e);
      PartsAreTaken(pre + Rendered(parts[0]), parts[1..], elems + [e], dottedPath, cs);
      OneElement(parts, dottedPath, cs);
    }
  }
}
