/** Every pattern text that setPattern accepts is the text of a list of parts. */
module PatternCoverage {
  import opened CStrings
  import opened GlobPattern
  import opened PatternMeaning
  import opened PatternParts
  import opened PatternText
  import opened Tokenizer

  // ---------- Texts ----------

  /** Where the text that parseLiteralString takes ends; a bracket that begins a numeric range is its last character. */
  function TextEnd(p: string, s: nat): (e: nat)
    requires s <= |p| && LiteralAt(p, s).Literal?
    ensures LiteralAt(p, s).next <= e <= |p|
  {
    var next := LiteralAt(p, s).next;
    if next < |p| && !StartsOther(p[next]) then next + 1 else next
  }

  predicate EndsAtBracket(p: string, s: nat)
    requires s <= |p| && LiteralAt(p, s).Literal?
  {
    var next := LiteralAt(p, s).next;
    next < |p| && !StartsOther(p[next])
  }

  lemma TextOkStep(p: string, s: nat, n: nat, e: nat)
    requires s < s + n <= e <= |p| && n == (if p[s] == '\\' then 2 else 1) && !StartsOther(p[s])
    requires TextOk(p[s + n..e])
    ensures TextOk(p[s..e])
  {
    var w := p[s..e];
    assert w[n..] == p[s + n..e];
  }

  /** It is a text, and only its last bracket may begin a range. */
  ghost predicate Scanned(p: string, s: nat, next: nat, e: nat, ranged: bool) {
    && s <= next <= e <= |p| && TextOk(p[s..e]) && e == (if ranged then next + 1 else next)
    && (s < |p| && !StartsOther(p[s]) ==> s < e)
    && (ranged ==> p[next] == '[' && RangeAt(p, next, ']').Range?)
    && (forall t | s <= t < e && p[t] == '[' && RangeAt(p, t, ']').Range? :: ranged && t == next)
    && (!ranged ==> next == |p| || StartsOther(p[next]))
  }

  lemma ScannedNothing(p: string, s: nat)
    requires s <= |p| && (s == |p| || StartsOther(p[s]))
    ensures Scanned(p, s, s, s, false)
  {
    assert p[s..s] == "";
  }

  lemma ScannedBracket(p: string, s: nat, t: nat)
    requires s <= t < |p| && !StartsOther(p[s]) && t == (if p[s] == '\\' then s + 1 else s)
    requires p[t] == '[' && RangeAt(p, t, ']').Range?
    ensures Scanned(p, s, t, t + 1, true)
  {
    assert p[t + 1..t + 1] == "";
    TextOkStep(p, s, t + 1 - s, t + 1);
    hide RangeAt, TextOk;
  }

  lemma ScannedMore(p: string, s: nat, t: nat, next: nat, e: nat, ranged: bool)
    requires s <= t < |p| && !StartsOther(p[s]) && t == (if p[s] == '\\' then s + 1 else s)
    requires p[t] == '[' ==> RangeAt(p, t, ']').NoRange?
    requires Scanned(p, t + 1, next, e, ranged)
    ensures Scanned(p, s, next, e, ranged)
  {
    hide RangeAt, TextOk;
    TextOkStep(p, s, t + 1 - s, e);
    forall u | s <= u < e && p[u] == '[' && RangeAt(p, u, ']').Range?
      ensures ranged && u == next
    {
      assert u != t && (u == s ==> u == t);
    }
  }

  /** What parseLiteralString takes. */
  lemma {:induction false} LiteralIsText(p: string, s: nat)
    requires s <= |p| && LiteralAt(p, s).Literal?
    ensures Scanned(p, s, LiteralAt(p, s).next, TextEnd(p, s), EndsAtBracket(p, s))
    decreases |p| - s
  {
    hide Scanned, RangeAt;
    if s < |p| && !StartsOther(p[s]) {
      var t := if p[s] == '\\' then s + 1 else s;
      if t < |p| {
        LiteralStep(p, s, t);
        hide LiteralAt;
        if p[t] == '[' && RangeAt(p, t, ']').Range? {
          ScannedBracket(p, s, t);
        } else {
          LiteralIsText(p, t + 1);
          ScannedMore(p, s, t, LiteralAt(p, s).next, TextEnd(p, s), EndsAtBracket(p, s));
        }
      }
    } else {
      ScannedNothing(p, s);
    }
  }

  lemma TextReaches(w: string, i: nat, lo: string, up: string, closing: char)
    requires RangeText(w, i, lo, up, closing)
    ensures i + 3 <= |w|
  {
  }

  lemma RangeOutside(p: string, s: nat, e: nat, i: nat, lo: string, up: string, closing: char)
    requires s <= e <= |p| && RangeText(p[s..e], i, lo, up, closing)
    ensures RangeText(p, s + i, lo, up, closing)
  {
    var t := lo + ".." + up + [closing];
    var w := p[s..e];
    CharactersOf(w, i, t);
    forall k | 0 <= k < |t|
      ensures p[s + i + k] == t[k]
    {
      assert w[i + k] == t[k];
    }
    assert p[s + i..s + i + |t|] == t;
  }

  lemma NoRangeInside(p: string, s: nat, next: nat, e: nat, ranged: bool, i: nat, lo: string, up: string)
    requires Scanned(p, s, next, e, ranged) && i < e - s && p[s + i] == '['
    ensures !RangeText(p[s..e], i + 1, lo, up, ']')
  {
    hide RangeText, RangeAt, TextOk;
    if RangeText(p[s..e], i + 1, lo, up, ']') {
      TextReaches(p[s..e], i + 1, lo, up, ']');
      RangeOutside(p, s, e, i + 1, lo, up, ']');
      RangeIsFound(p, s + i, lo, up, ']');
    }
  }

  lemma ScannedIsQuiet(p: string, s: nat, next: nat, e: nat, ranged: bool)
    requires Scanned(p, s, next, e, ranged)
    ensures Quiet(p[s..e])
  {
    var w := p[s..e];
    hide RangeText;
    forall i | 0 <= i < |w| && w[i] == '['
      ensures !SomeRangeText(w, i + 1, ']')
    {
      if SomeRangeText(w, i + 1, ']') {
        var lo, up :| RangeText(w, i + 1, lo, up, ']');
        NoRangeInside(p, s, next, e, ranged, i, lo, up);
      }
    }
  }

  // ---------- Braces ----------

  /** parseSet stops at the first closing brace that is not its first character. */
  lemma {:induction false} SetStops(p: string, s: nat, first: nat, cs: bool)
    requires first <= s <= |p| && SetAt(p, s, first, cs).CharSet?
    ensures var close := SetAt(p, s, first, cs).next - 1;
            && s <= close < |p| && p[close] == '}' && (s == first ==> first < close)
            && forall k | s <= k < close && p[k] == '}' :: k == first
    decreases |p| - s
  {
    hide PairAt;
    if s < |p| && !(p[s] == '}' && s != first) {
      SetStops(p, if WideAt(p, s) then s + 3 else s + 1, first, cs);
    }
  }

  lemma BracesStand(p: string, s: nat, negated: bool, close: nat)
    requires s < |p| && p[s] == '{' && (negated <==> At(p, s + 1) == '^')
    requires (if negated then s + 2 else s + 1) <= close < |p| && p[close] == '}'
    ensures StandsAt(p, s, Rendered(Chars(negated, p[if negated then s + 2 else s + 1..close])))
  {
    var first := if negated then s + 2 else s + 1;
    assert p[s..close + 1] == p[s..first] + p[first..close] + "}";
    assert p[s..first] == if negated then "{^" else "{";
  }

  lemma NoNumberWritten(p: string, s: nat, close: nat)
    requires s + 1 <= close < |p| && p[close] == '}' && RangeAt(p, s, '}').NoRange?
    ensures !SomeRangeText(p[s + 1..close] + "}", 0, '}')
  {
    hide RangeAt, RangeText;
    var text := p[s + 1..close] + "}";
    if SomeRangeText(text, 0, '}') {
      var lo, up :| RangeText(text, 0, lo, up, '}');
      assert text == p[s + 1..close + 1];
      RangeOutside(p, s + 1, close + 1, 0, lo, up, '}');
      RangeIsFound(p, s, lo, up, '}');
    }
  }

  lemma RangesAreOk(p: string, s: nat, negated: bool, close: nat)
    requires s < |p| && (negated <==> At(p, s + 1) == '^') && RangeAt(p, s, '}').NoRange?
    requires var first := if negated then s + 2 else s + 1;
             first < close < |p| && p[close] == '}' && forall k | first <= k < close && p[k] == '}' :: k == first
    ensures PartOk(Chars(negated, p[if negated then s + 2 else s + 1..close]))
  {
    NoNumberWritten(p, s, close);
    hide RangeAt, SomeRangeText;
    var first := if negated then s + 2 else s + 1;
    var ranges := p[first..close];
    forall k | 1 <= k < |ranges|
      ensures ranges[k] != '}'
    {
      assert ranges[k] == p[first + k];
    }
  }

  lemma SetIsPart(p: string, s: nat, cs: bool) returns (part: Part)
    requires s < |p| && p[s] == '{' && RangeAt(p, s, '}').NoRange? && SetToken(p, s, cs).Token?
    ensures part.Chars? && PartOk(part) && StandsAt(p, s, Rendered(part))
  {
    var negated := At(p, s + 1) == '^';
    var first := if negated then s + 2 else s + 1;
    hide RangeAt, SetAt, PartOk, StandsAt, Rendered;
    SetStops(p, first, first, cs);
    var close := SetAt(p, first, first, cs).next - 1;
    part := Chars(negated, p[first..close]);
    BracesStand(p, s, negated, close);
    RangesAreOk(p, s, negated, close);
  }

  lemma NumberIsPart(p: string, s: nat) returns (part: Part)
    requires s < |p| && p[s] == '{' && RangeAt(p, s, '}').Range?
    ensures part.Number? && PartOk(part) && StandsAt(p, s, Rendered(part))
  {
    RangeStands(p, s, '}');
    var lo, up :| RangeText(p, s + 1, lo, up, '}');
    hide RangeAt, StandsAt;
    part := Number(lo, up);
    var t := lo + ".." + up + ['}'];
    assert Rendered(part) == "{" + t;
    StandsApart(p, s, "{", t);
    DotsAndCloser(p, s, '{');
  }

  /** The part that any other character than that of a text begins. */
  lemma OtherIsPart(p: string, s: nat, elems: seq<Elem>, dottedPath: bool, cs: bool) returns (part: Part)
    requires s < |p| && StartsOther(p[s]) && TokenAt(p, s, elems, dottedPath, cs).Token?
    ensures !part.Text? && !part.Index? && PartOk(part) && StandsAt(p, s, Rendered(part))
    ensures NextOk(p, part, s + |Rendered(part)|)
  {
    hide RangeAt, LiteralAt, StandsAt, SetToken;
    if p[s] == '{' {
      if RangeAt(p, s, '}').Range? {
        part := NumberIsPart(p, s);
      } else {
        part := SetIsPart(p, s, cs);
      }
    } else {
      part := if p[s] == '?' then Question else if At(p, s + 1) == '*' then DoubleStar else Star;
      WildcardStands(p, s, part);
    }
  }

  lemma WildcardStands(p: string, s: nat, part: Part)
    requires s < |p|
    requires (part.Question? && p[s] == '?') || (part.Star? && p[s] == '*')
             || (part.DoubleStar? && p[s] == '*' && At(p, s + 1) == '*')
    ensures StandsAt(p, s, Rendered(part))
  {
  }

  // ---------- Whole patterns ----------

  lemma Joined(p: string, s: nat, part: Part, rest: seq<Part>)
    requires StandsAt(p, s, Rendered(part)) && s + |Rendered(part)| <= |p|
    requires Render(rest) == p[s + |Rendered(part)|..]
    ensures Render([part] + rest) == p[s..]
  {
    hide Rendered;
    assert ([part] + rest)[1..] == rest;
    assert p[s..] == p[s..s + |Rendered(part)|] + p[s + |Rendered(part)|..];
  }

  lemma MayBegin(part: Part, rest: seq<Part>, elems: seq<Elem>, e: Elem)
    requires PartOk(part) && !part.Index? && (part.Text? ==> !AfterLiteral(elems))
    requires MayGoOn(rest, elems + [e]) && (rest != [] ==> MayFollow(part, rest[0]))
    ensures MayGoOn([part] + rest, elems)
  {
    hide PartOk, MayFollow;
    var parts := [part] + rest;
    forall i | 0 <= i < |parts| - 1
      ensures MayFollow(parts[i], parts[i + 1])
    {
      if i > 0 {
        assert MayFollow(rest[i - 1], rest[i - 1 + 1]);
      }
    }
  }

  /** The rest of a text begins with a part that may follow. */
  lemma RestMayFollow(p: string, part: Part, next: nat, rest: seq<Part>, elems: seq<Elem>)
    requires !part.Index? && next <= |p| && NextOk(p, part, next) && MayGoOn(rest, elems) && Render(rest) == p[next..]
    ensures rest != [] ==> MayFollow(part, rest[0])
  {
    if rest != [] {
      Begins(rest[0]);
      hide PartOk, Rendered;
      assert Render(rest)[0] == Rendered(rest[0])[0];
      assert p[next] == p[next..][0];
    }
  }

  lemma ThenRest(p: string, s: nat, part: Part, rest: seq<Part>, elems: seq<Elem>, e: Elem) returns (parts: seq<Part>)
    requires PartOk(part) && !part.Index? && (part.Text? ==> !AfterLiteral(elems))
    requires StandsAt(p, s, Rendered(part)) && s + |Rendered(part)| <= |p| && NextOk(p, part, s + |Rendered(part)|)
    requires MayGoOn(rest, elems + [e]) && Render(rest) == p[s + |Rendered(part)|..]
    ensures MayGoOn(parts, elems) && Render(parts) == p[s..]
  {
    hide *;
    RestMayFollow(p, part, s + |Rendered(part)|, rest, elems + [e]);
    MayBegin(part, rest, elems, e);
    Joined(p, s, part, rest);
    parts := [part] + rest;
  }

  lemma BracketIsText(p: string, next: nat, rest: seq<Part>, elems: seq<Elem>)
    requires next < |p| && p[next] == ']' && MayGoOn(rest, elems) && Render(rest) == p[next..]
    ensures rest != [] && rest[0].Text? && rest[0].written != "" && rest[0].written[0] == ']' && PartOk(rest[0])
  {
    assert p[next..][0] == ']';
    assert rest != [];
    Begins(rest[0]);
    assert Render(rest)[0] == Rendered(rest[0])[0];
  }

  lemma MayBeginIndexed(w: string, index: Part, rest: seq<Part>, elems: seq<Elem>, after: seq<Elem>)
    requires PartOk(Text(w)) && index.Index? && PartOk(index) && w != "" && w[|w| - 1] == '[' && !AfterLiteral(elems)
    requires rest != [] && rest[0].Text? && rest[0].written != "" && rest[0].written[0] == ']' && MayGoOn(rest, after)
    ensures MayGoOn([Text(w)] + ([index] + rest), elems)
  {
    var parts := [Text(w)] + ([index] + rest);
    assert MayFollow(Text(w), index) && MayFollow(index, rest[0]);
    hide PartOk, MayFollow;
    forall i | 0 <= i < |parts|
      ensures PartOk(parts[i])
    {
      assert i >= 2 ==> parts[i] == rest[i - 2];
    }
    forall i | 0 <= i < |parts| - 1
      ensures MayFollow(parts[i], parts[i + 1])
    {
      if i >= 2 {
        assert MayFollow(rest[i - 2], rest[i - 2 + 1]);
      }
    }
  }

  lemma IndexedPlaces(p: string, s: nat, w: string, r: string)
    requires StandsAt(p, s, w + r + "]")
    ensures StandsAt(p, s, w) && StandsAt(p, s + |w|, r) && s + |w| + |r| < |p| && p[s + |w| + |r|] == ']'
    ensures Rendered(Text(w)) == w
  {
    StandsApart(p, s, w + r, "]");
    StandsApart(p, s, w, r);
    DotsAndCloser(p, s + |w| + |r|, ']');
    hide StandsAt;
  }

  lemma ThenIndex(p: string, s: nat, w: string, index: Part, rest: seq<Part>, elems: seq<Elem>, after: seq<Elem>)
    returns (parts: seq<Part>)
    requires PartOk(Text(w)) && index.Index? && PartOk(index) && w != "" && w[|w| - 1] == '[' && !AfterLiteral(elems)
    requires StandsAt(p, s, w + Rendered(index) + "]")
    requires s + |w| + |Rendered(index)| <= |p|
    requires MayGoOn(rest, after) && Render(rest) == p[s + |w| + |Rendered(index)|..]
    ensures MayGoOn(parts, elems) && Render(parts) == p[s..]
  {
    hide *;
    var next := s + |w| + |Rendered(index)|;
    IndexedPlaces(p, s, w, Rendered(index));
    BracketIsText(p, next, rest, after);
    MayBeginIndexed(w, index, rest, elems, after);
    Joined(p, s + |w|, index, rest);
    Joined(p, s, Text(w), [index] + rest);
    parts := [Text(w)] + ([index] + rest);
  }

  lemma IndexStands(p: string, s: nat, e: nat, lo: string, up: string)
    requires s <= e <= |p| && StandsAt(p, e, lo + ".." + up + [']'])
    ensures StandsAt(p, s, p[s..e] + Rendered(Index(lo, up)) + "]")
  {
    var w, t := p[s..e], lo + ".." + up + [']'];
    assert w + Rendered(Index(lo, up)) + "]" == w + t;
    assert StandsAt(p, s, w) by { TextStands(p, s, w); }
    hide StandsAt;
    StandsApart(p, s, w, t);
  }

  lemma IndexFits(p: string, s: nat, e: nat, lo: string, up: string)
    requires s <= e <= |p| && RangeText(p, e, lo, up, ']')
    ensures PartOk(Index(lo, up)) && StandsAt(p, s, p[s..e] + Rendered(Index(lo, up)) + "]")
  {
    hide StandsAt, Rendered;
    IndexStands(p, s, e, lo, up);
  }

  /** The index that stands after a text that ends at a bracket. */
  lemma IndexIsPart(p: string, s: nat, e: nat) returns (index: Part)
    requires s < e <= |p| && p[e - 1] == '[' && RangeAt(p, e - 1, ']').Range?
    ensures index.Index? && PartOk(index) && StandsAt(p, s, p[s..e] + Rendered(index) + "]")
  {
    hide RangeAt, StandsAt, Rendered, PartOk, RangeText;
    RangeStands(p, e - 1, ']');
    var lo, up :| RangeText(p, e, lo, up, ']');
    index := Index(lo, up);
    IndexFits(p, s, e, lo, up);
  }

  /** One part that is neither a text before an index nor the index. */
  lemma Advances(p: string, s: nat, elems: seq<Elem>, part: Part, dottedPath: bool, cs: bool)
    requires PartOk(part) && !part.Index? && (part.Text? ==> !AfterLiteral(elems))
    requires StandsAt(p, s, Rendered(part)) && NextOk(p, part, s + |Rendered(part)|)
    requires s <= |p| && TokensFrom(p, s, elems, dottedPath, cs).outcome == Parsed
    ensures var next, more := s + |Rendered(part)|, elems + [Element(part, dottedPath, cs)];
            && s < next <= |p| && TokensFrom(p, next, more, dottedPath, cs).outcome == Parsed
            && (AfterLiteral(more) ==> next == |p| || StartsOther(p[next]))
  {
    TakenAt(p, s, elems, part, dottedPath, cs);
    Begins(part);
    TextIsLiteral(part, dottedPath, cs);
    hide TokensFrom, PartOk, Element, StandsAt, Rendered;
  }

  lemma SomeToken(p: string, s: nat, elems: seq<Elem>, dottedPath: bool, cs: bool)
    requires s < |p| && TokensFrom(p, s, elems, dottedPath, cs).outcome == Parsed
    ensures TokenAt(p, s, elems, dottedPath, cs).Token?
  {
    hide TokenAt;
    FailedIsNotParsed(p, s, elems, dottedPath, cs);
  }

  lemma FailedIsNotParsed(p: string, s: nat, elems: seq<Elem>, dottedPath: bool, cs: bool)
    requires s < |p|
    ensures TokenAt(p, s, elems, dottedPath, cs) != Failed(Parsed)
  {
    hide RangeAt, SetAt, LiteralAt;
  }

  lemma LiteralBegins(p: string, s: nat, elems: seq<Elem>, dottedPath: bool, cs: bool)
    requires s < |p| && !StartsOther(p[s]) && !AfterLiteral(elems)
    requires TokenAt(p, s, elems, dottedPath, cs).Token?
    ensures LiteralAt(p, s).Literal?
  {
    hide RangeAt, SetAt, LiteralAt;
  }

  lemma TextIsPart(p: string, s: nat)
    requires s < |p| && !StartsOther(p[s]) && LiteralAt(p, s).Literal?
    ensures var e := TextEnd(p, s);
            && s < e && PartOk(Text(p[s..e])) && StandsAt(p, s, p[s..e])
            && (if EndsAtBracket(p, s) then p[e - 1] == '[' && RangeAt(p, e - 1, ']').Range?
                else NextOk(p, Text(p[s..e]), e))
  {
    var e := TextEnd(p, s);
    LiteralIsText(p, s);
    ScannedIsQuiet(p, s, LiteralAt(p, s).next, e, EndsAtBracket(p, s));
    hide RangeAt, LiteralAt, Quiet, TextOk;
  }

  lemma NoParts(p: string, elems: seq<Elem>)
    ensures MayGoOn([], elems) && Render([]) == p[|p|..]
  {
  }

  /** From any place on, where an element begins, an accepted text is that of some parts. */
  lemma {:induction false} PartsFrom(p: string, s: nat, elems: seq<Elem>, dottedPath: bool, cs: bool)
    returns (parts: seq<Part>)
    requires s <= |p| && TokensFrom(p, s, elems, dottedPath, cs).outcome == Parsed
    requires AfterLiteral(elems) ==> s == |p| || StartsOther(p[s])
    ensures MayGoOn(parts, elems) && Render(parts) == p[s..]
    decreases |p| - s
  {
    hide *;
    if s == |p| {
      NoParts(p, elems);
      return [];
    }
    SomeToken(p, s, elems, dottedPath, cs);
    if StartsOther(p[s]) {
      var part := OtherIsPart(p, s, elems, dottedPath, cs);
      parts := PartsWith(p, s, elems, part, dottedPath, cs);
    } else {
      LiteralBegins(p, s, elems, dottedPath, cs);
      TextIsPart(p, s);
      parts := PartsWithText(p, s, elems, TextEnd(p, s), EndsAtBracket(p, s), dottedPath, cs);
    }
  }

  lemma {:induction false} PartsWithText(p: string, s: nat, elems: seq<Elem>, e: nat, ranged: bool, dottedPath: bool,
                                         cs: bool)
    returns (parts: seq<Part>)
    requires s < e <= |p| && PartOk(Text(p[s..e])) && StandsAt(p, s, p[s..e]) && !AfterLiteral(elems)
    requires if ranged then p[e - 1] == '[' && RangeAt(p, e - 1, ']').Range? else NextOk(p, Text(p[s..e]), e)
    requires TokensFrom(p, s, elems, dottedPath, cs).outcome == Parsed
    ensures MayGoOn(parts, elems) && Render(parts) == p[s..]
    decreases |p| - s, 1
  {
    hide *;
    var w := p[s..e];
    if ranged {
      var index := IndexIsPart(p, s, e);
      parts := PartsWithIndex(p, s, elems, w, index, dottedPath, cs);
    } else {
      TextOnly(Text(w), dottedPath, cs);
      parts := PartsWith(p, s, elems, Text(w), dottedPath, cs);
    }
  }

  lemma {:induction false} PartsWith(p: string, s: nat, elems: seq<Elem>, part: Part, dottedPath: bool, cs: bool)
    returns (parts: seq<Part>)
    requires PartOk(part) && !part.Index? && (part.Text? ==> !AfterLiteral(elems))
    requires StandsAt(p, s, Rendered(part)) && NextOk(p, part, s + |Rendered(part)|)
    requires s < |p| && TokensFrom(p, s, elems, dottedPath, cs).outcome == Parsed
    ensures MayGoOn(parts, elems) && Render(parts) == p[s..]
    decreases |p| - s, 0
  {
    hide *;
    Advances(p, s, elems, part, dottedPath, cs);
    var e := Element(part, dottedPath, cs);
    var rest := PartsFrom(p, s + |Rendered(part)|, elems + [e], dottedPath, cs);
    parts := ThenRest(p, s, part, rest, elems, e);
  }

  lemma {:induction false} PartsWithIndex(p: string, s: nat, elems: seq<Elem>, w: string, index: Part, dottedPath: bool,
                                          cs: bool)
    returns (parts: seq<Part>)
    requires PartOk(Text(w)) && w != "" && index.Index? && PartOk(index) && w[|w| - 1] == '[' && !AfterLiteral(elems)
    requires StandsAt(p, s, w + Rendered(index) + "]")
    requires s < |p| && TokensFrom(p, s, elems, dottedPath, cs).outcome == Parsed
    ensures MayGoOn(parts, elems) && Render(parts) == p[s..]
    decreases |p| - s, 0
  {
    hide *;
    IndexedTokens(p, s, elems, w, index, dottedPath, cs);
    IndexIsNumber(index, dottedPath, cs);
    var more := elems + [LiteralString(Unescaped(w))];
    var e := Element(index, dottedPath, cs);
    assert !AfterLiteral(more + [e]) by { NumberIsNoLiteral(more, e); }
    var rest := PartsFrom(p, s + |w| + |Rendered(index)|, more + [e], dottedPath, cs);
    parts := ThenIndex(p, s, w, index, rest, elems, more + [e]);
  }

  lemma NumberIsNoLiteral(elems: seq<Elem>, e: Elem)
    requires e.NumRange?
    ensures !AfterLiteral(elems + [e])
  {
  }

  /** The parts of an accepted pattern text; a line matches it if and only if it is what they say. */
  lemma PartsOf(p: string, dottedPath: bool, cs: bool) returns (parts: seq<Part>)
    requires Tokenize(p, dottedPath, true, cs).outcome == Parsed
    ensures Writable(parts) && Render(parts) == p
    ensures forall line :: NaturallyDenotes(cs, Tokenize(p, dottedPath, true, cs).elems, line)
                           <==> Says(dottedPath, cs, parts, line, "")
  {
    parts := PartsFrom(p, 0, [], dottedPath, cs);
    assert p[0..] == p;
    hide Tokenize, NaturallyDenotes, Says;
    assert Writable(parts);
    hide Writable;
    forall line
      ensures NaturallyDenotes(cs, Tokenize(p, dottedPath, true, cs).elems, line)
              <==> Says(dottedPath, cs, parts, line, "")
    {
      PatternSays(parts, dottedPath, cs, line);
    }
  }

  /** A pattern text is accepted if and only if it is the text of parts. */
  lemma AcceptedIsWritten(p: string, dottedPath: bool, cs: bool)
    ensures Tokenize(p, dottedPath, true, cs).outcome == Parsed
            <==> exists parts :: Writable(parts) && Render(parts) == p
  {
    if Tokenize(p, dottedPath, true, cs).outcome == Parsed {
      var parts := PartsOf(p, dottedPath, cs);
    }
    if parts :| Writable(parts) && Render(parts) == p {
      hide Writable, Render;
      PatternSays(parts, dottedPath, cs, "");
    }
  }
}
