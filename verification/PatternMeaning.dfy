/** What the text of a pattern says about a line. */
module PatternMeaning {
  import opened CStrings
  import opened GlobPattern
  import opened GlobPieces
  import opened PatternParts
  import opened PatternText
  import opened SubstringMatch
  import opened Tokenizer

  // ---------- What a pattern text says ----------

  lemma {:induction false} ElementsSay(parts: seq<Part>, dottedPath: bool, cs: bool, s: string, after: string)
    requires forall i | 0 <= i < |parts| :: PartOk(parts[i])
    ensures Fits(cs, Elements(parts, dottedPath, cs), s, after) <==> Says(dottedPath, cs, parts, s, after)
  {
    hide PartOk, Element, NaturalPiece, FollowOk, Means, Ends;
    if parts == [] {
    } else {
      var es, part, rest := Elements(parts, dottedPath, cs), parts[0], parts[1..];
      assert es[0] == Element(part, dottedPath, cs) && es[1..] == Elements(rest, dottedPath, cs);
      forall n: nat | n <= |s|
        ensures FirstFits(cs, es, s, after, n) && Fits(cs, es[1..], s[n..], after)
                <==> Means(dottedPath, cs, part, s[..n]) && Ends(part, s[n..] + after)
                     && Says(dottedPath, cs, rest, s[n..], after)
      {
        ElementMeans(part, dottedPath, cs, s[..n], s[n..] + after);
        ElementsSay(rest, dottedPath, cs, s[n..], after);
      }
    }
  }

  lemma WritableMayGoOn(parts: seq<Part>)
    requires Writable(parts)
    ensures MayGoOn(parts, []) && forall i | 0 <= i < |parts| :: PartOk(parts[i])
  {
  }

  /** A pattern text of any parts is accepted, and a line matches it if and only if the line can be cut into one piece
      for each part, each what its part stands for. */
  lemma PatternSays(parts: seq<Part>, dottedPath: bool, cs: bool, line: string)
    requires Writable(parts)
    ensures var t := Tokenize(Render(parts), dottedPath, true, cs);
            && t.outcome == Parsed && Terminated(t.elems)
            && t.elems == Elements(parts, dottedPath, cs) + [End]
            && (NaturallyDenotes(cs, t.elems, line) <==> Says(dottedPath, cs, parts, line, ""))
  {
    var es := Elements(parts, dottedPath, cs);
    WritableMayGoOn(parts);
    PartsAreTaken("", parts, [], dottedPath, cs);
    assert "" + Render(parts) == Render(parts) && [] + es == es;
    TokenizedIsWellFormed(Render(parts), dottedPath, true, cs);
    ElementsSay(parts, dottedPath, cs, line, "");
    FitsIsMeant(cs, es, line);
    hide Render, Elements, Fits, Says, NaturallyDenotes, TokensFrom, Terminated, Writable;
  }

  /** With letter case this is what the matcher compares. */
  lemma PatternMatches(parts: seq<Part>, dottedPath: bool, line: string)
    requires Writable(parts)
    ensures var t := Tokenize(Render(parts), dottedPath, true, true);
            t.outcome == Parsed && (Denotes(true, t.elems, line) <==> Says(dottedPath, true, parts, line, ""))
  {
    hide *;
    PatternSays(parts, dottedPath, true, line);
    CaseSensitiveIsNatural(Tokenize(Render(parts), dottedPath, true, true).elems, line);
  }

  ghost predicate SaysPart(dottedPath: bool, cs: bool, parts: seq<Part>, line: string, i: nat, j: nat) {
    i <= j <= |line| && Says(dottedPath, cs, parts, line[i..j], line[j..])
  }

  lemma PartFitsSays(parts: seq<Part>, dottedPath: bool, cs: bool, line: string, i: nat, j: nat)
    requires forall i | 0 <= i < |parts| :: PartOk(parts[i])
    ensures PartFits(cs, Elements(parts, dottedPath, cs), line, i, j) <==> SaysPart(dottedPath, cs, parts, line, i, j)
  {
    hide Elements, Fits, Says, PartOk;
    if i <= j <= |line| {
      ElementsSay(parts, dottedPath, cs, line[i..j], line[j..]);
    }
  }

  lemma SomePartSays(parts: seq<Part>, dottedPath: bool, cs: bool, line: string)
    requires forall i | 0 <= i < |parts| :: PartOk(parts[i])
    ensures SomePartFits(cs, Elements(parts, dottedPath, cs), line)
            <==> exists i: nat, j: nat :: SaysPart(dottedPath, cs, parts, line, i, j)
  {
    hide PartFits, SaysPart, Elements, PartOk;
    forall i: nat, j: nat
      ensures PartFits(cs, Elements(parts, dottedPath, cs), line, i, j) <==> SaysPart(dottedPath, cs, parts, line, i, j)
    {
      PartFitsSays(parts, dottedPath, cs, line, i, j);
    }
  }

  lemma WithoutEnd(es: seq<Elem>)
    ensures (es + [End])[..|es + [End]| - 1] == es
  {
  }

  /** A pattern that need not match the whole line says that of some part of it. */
  lemma PatternSaysOfPart(parts: seq<Part>, dottedPath: bool, cs: bool, line: string)
    requires Writable(parts)
    ensures var t := Tokenize(Render(parts), dottedPath, false, cs);
            && t.outcome == Parsed
            && (NaturallyDenotes(cs, t.elems, line)
                <==> exists i: nat, j: nat :: SaysPart(dottedPath, cs, parts, line, i, j))
  {
    hide *;
    WritableMayGoOn(parts);
    PatternSays(parts, dottedPath, cs, line);
    WithoutEnd(Elements(parts, dottedPath, cs));
    SubstringMeans(Render(parts), dottedPath, cs, cs, line);
    SomePartSays(parts, dottedPath, cs, line);
  }

  // ---------- Two kinds of patterns ----------

  /** Every character with a backslash before it. */
  function Escaped(w: string): string {
    if w == "" then "" else ['\\', w[0]] + Escaped(w[1..])
  }

  lemma {:induction false} EscapedIsText(w: string)
    ensures TextOk(Escaped(w)) && Unescaped(Escaped(w)) == w
  {
    if w != "" {
      EscapedIsText(w[1..]);
      assert Escaped(w)[2..] == Escaped(w[1..]);
      assert w == [w[0]] + w[1..];
      hide Escaped;
    }
  }

  lemma {:induction false} EvenIsBackslash(w: string, k: nat)
    requires k < |Escaped(w)| && k % 2 == 0
    ensures Escaped(w)[k] == '\\'
  {
    if k >= 2 {
      EvenIsBackslash(w[1..], k - 2);
    }
  }

  lemma EscapedIsQuiet(w: string)
    ensures Quiet(Escaped(w))
  {
    var e := Escaped(w);
    hide RangeText, Escaped;
    forall i | 0 <= i < |e| && e[i] == '['
      ensures !SomeRangeText(e, i + 1, ']')
    {
      if SomeRangeText(e, i + 1, ']') {
        var lo, up :| RangeText(e, i + 1, lo, up, ']');
        RangeInner(e, i + 1, lo, up, ']');
        EvenIsBackslash(w, if i % 2 == 0 then i else i + 1);
      }
    }
  }

  /** Escaping every character of a text gives a pattern that matches the text and nothing else. */
  lemma EscapedMatchesItself(w: string, dottedPath: bool, line: string)
    ensures Denotes(true, Tokenize(Escaped(w), dottedPath, true, true).elems, line) <==> line == w
  {
    var parts := if w == "" then [] else [Text(Escaped(w))];
    EscapedIsText(w);
    EscapedIsQuiet(w);
    assert w != "" ==> Escaped(w) + "" == Escaped(w) && parts[1..] == [];
    assert Render(parts) == Escaped(w);
    assert Writable(parts) by { hide TextOk, Quiet; }
    hide Tokenize, Denotes, Escaped, Unescaped, TextOk, Quiet, Writable;
    PatternMatches(parts, dottedPath, line);
    if w != "" {
      SaysText(dottedPath, Escaped(w), [], line);
    }
  }

  /** What a text at the beginning says. */
  lemma SaysText(dottedPath: bool, written: string, rest: seq<Part>, s: string)
    ensures var w := Unescaped(written);
            Says(dottedPath, true, [Text(written)] + rest, s, "")
            <==> |w| <= |s| && s[..|w|] == w && Says(dottedPath, true, rest, s[|w|..], "")
  {
    var w := Unescaped(written);
    var parts := [Text(written)] + rest;
    assert parts[1..] == rest && parts[0] == Text(written);
    hide Unescaped;
    forall n: nat | n <= |s|
      ensures Means(dottedPath, true, parts[0], s[..n]) <==> n == |w| && s[..n] == w
    {
    }
  }

  /** A text without wildcards, as parts. */
  function Plain(w: string): seq<Part> {
    if w == "" then [] else [Text(w)]
  }

  lemma {:induction false} PlainIsText(w: string)
    requires !ContainsWildcards(w)
    ensures TextOk(w) && Unescaped(w) == w
  {
    if w != "" {
      PlainIsText(w[1..]);
      assert w == [w[0]] + w[1..];
    }
  }

  lemma PlainIsQuiet(w: string)
    requires !ContainsWildcards(w)
    ensures Quiet(w)
  {
    hide RangeText;
    forall i | 0 <= i < |w| && w[i] == '['
      ensures !SomeRangeText(w, i + 1, ']')
    {
      if SomeRangeText(w, i + 1, ']') {
        var lo, up :| RangeText(w, i + 1, lo, up, ']');
        RangeDots(w, i + 1, lo, up);
      }
    }
  }

  lemma RangeDots(w: string, i: nat, lo: string, up: string)
    requires RangeText(w, i, lo, up, ']')
    ensures i + |lo| + 1 < |w| && w[i + |lo|] == '.' && w[i + |lo| + 1] == '.'
  {
    hide StandsAt;
    RangeParts(w, i, lo, up, ']');
    DotsAndCloser(w, i + |lo|, ']');
  }

  lemma PlainIsOk(w: string)
    requires !ContainsWildcards(w)
    ensures forall i | 0 <= i < |Plain(w)| :: PartOk(Plain(w)[i])
    ensures Render(Plain(w)) == w
  {
    PlainIsText(w);
    PlainIsQuiet(w);
    hide TextOk, Quiet, ContainsWildcards;
    assert w != "" ==> Plain(w)[1..] == [] && w + "" == w;
  }

  lemma StarIsWritable(a: string, b: string)
    requires !ContainsWildcards(a) && !ContainsWildcards(b)
    ensures Writable(Plain(a) + ([Star] + Plain(b)))
  {
    PlainIsOk(a);
    PlainIsOk(b);
    assert PartOk(Star);
    hide PartOk, Render, ContainsWildcards;
    var parts := Plain(a) + ([Star] + Plain(b));
  }

  lemma StarIsRendered(a: string, b: string)
    requires !ContainsWildcards(a) && !ContainsWildcards(b)
    ensures Render(Plain(a) + ([Star] + Plain(b))) == a + "*" + b
  {
    PlainIsOk(b);
    hide PartOk, ContainsWildcards;
    var end := [Star] + Plain(b);
    assert end[1..] == Plain(b) && Render(end) == "*" + b;
    if a != "" {
      assert (Plain(a) + end)[1..] == end;
      assert Render(Plain(a) + end) == a + Render(end);
    } else {
      assert Plain(a) + end == end;
    }
  }

  lemma SaysPlain(dottedPath: bool, w: string, rest: seq<Part>, s: string)
    requires !ContainsWildcards(w)
    ensures Says(dottedPath, true, Plain(w) + rest, s, "")
            <==> |w| <= |s| && s[..|w|] == w && Says(dottedPath, true, rest, s[|w|..], "")
  {
    PlainIsText(w);
    hide Says, Unescaped, ContainsWildcards;
    if w == "" {
      assert Plain(w) + rest == rest && s[0..] == s && s[..0] == "";
    } else {
      SaysText(dottedPath, w, rest, s);
    }
  }

  /** x stands for the star between a and b. */
  predicate StarIs(a: string, x: string, b: string, line: string, dottedPath: bool) {
    line == a + x + b && (dottedPath ==> '.' !in x)
  }

  /** A star between two plain texts stands for any text, and on dotted paths for any without a dot. */
  lemma StarBetween(a: string, b: string, dottedPath: bool, line: string)
    requires !ContainsWildcards(a) && !ContainsWildcards(b)
    ensures Denotes(true, Tokenize(a + "*" + b, dottedPath, true, true).elems, line)
            <==> exists x :: StarIs(a, x, b, line, dottedPath)
  {
    StarIsWritable(a, b);
    StarIsRendered(a, b);
    hide ContainsWildcards, Tokenize, Denotes, Writable, Render, Plain, Says;
    var end := [Star] + Plain(b);
    PatternMatches(Plain(a) + end, dottedPath, line);
    SaysPlain(dottedPath, a, end, line);
    if |a| <= |line| && line[..|a|] == a {
      StarSays(dottedPath, b, line[|a|..]);
      StarsAgree(a, b, dottedPath, line);
    } else {
      forall x
        ensures !StarIs(a, x, b, line, dottedPath)
      {
        assert (a + x + b)[..|a|] == a;
      }
    }
  }

  lemma PlainSays(dottedPath: bool, b: string, s: string)
    requires !ContainsWildcards(b)
    ensures Says(dottedPath, true, Plain(b), s, "") <==> s == b
  {
    assert Plain(b) + [] == Plain(b);
    assert Says(dottedPath, true, [], "", "");
    SaysPlain(dottedPath, b, [], s);
    if |b| <= |s| {
      assert s == s[..|b|] + s[|b|..];
    }
    assert s[|s|..] == "" && s[..|s|] == s;
  }

  lemma FirstStar(dottedPath: bool, rest: seq<Part>, s: string)
    ensures Says(dottedPath, true, [Star] + rest, s, "")
            <==> exists n: nat | n <= |s| :: (dottedPath ==> '.' !in s[..n]) && Says(dottedPath, true, rest, s[n..], "")
  {
    var parts := [Star] + rest;
    assert parts[1..] == rest && parts[0] == Star;
  }

  lemma StarSays(dottedPath: bool, b: string, s: string)
    requires !ContainsWildcards(b)
    ensures Says(dottedPath, true, [Star] + Plain(b), s, "") <==> exists x :: StarIs("", x, b, s, dottedPath)
  {
    FirstStar(dottedPath, Plain(b), s);
    hide ContainsWildcards, Plain, Says;
    forall n: nat | n <= |s|
      ensures Says(dottedPath, true, Plain(b), s[n..], "") <==> s[n..] == b
    {
      PlainSays(dottedPath, b, s[n..]);
    }
    if x :| StarIs("", x, b, s, dottedPath) {
      assert s[..|x|] == x && s[|x|..] == b;
    }
    forall n: nat | n <= |s| && s[n..] == b && (dottedPath ==> '.' !in s[..n])
      ensures StarIs("", s[..n], b, s, dottedPath)
    {
    }
  }

  lemma StarsAgree(a: string, b: string, dottedPath: bool, line: string)
    requires |a| <= |line| && line[..|a|] == a
    ensures (exists x :: StarIs("", x, b, line[|a|..], dottedPath)) <==> exists x :: StarIs(a, x, b, line, dottedPath)
  {
    forall x
      ensures StarIs("", x, b, line[|a|..], dottedPath) <==> StarIs(a, x, b, line, dottedPath)
    {
      assert line == a + line[|a|..];
      assert a + x + b == a + ("" + x + b);
    }
  }
}
