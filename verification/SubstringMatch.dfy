/** What a pattern says that need not match the whole line: setPattern widens it with "**" at both ends. */
module SubstringMatch {
  import opened GlobPattern
  import opened GlobPieces
  import opened Tokenizer

  lemma AnySeqFirst(cs: bool, es: seq<Elem>, s: string, after: string)
    ensures Fits(cs, [AnySeq] + es, s, after) <==> exists i: nat | i <= |s| :: Fits(cs, es, s[i..], after)
  {
    FitsTogether(cs, [AnySeq], es, s, after);
    forall i: nat | i <= |s|
      ensures FitBoth(cs, [AnySeq], es, s, after, i) <==> Fits(cs, es, s[i..], after)
    {
      FitsOne(cs, AnySeq, s[..i], s[i..] + after);
    }
  }

  lemma AnySeqLast(cs: bool, es: seq<Elem>, s: string, after: string)
    ensures Fits(cs, es + [AnySeq], s, after) <==> exists j: nat | j <= |s| :: Fits(cs, es, s[..j], s[j..] + after)
  {
    FitsTogether(cs, es, [AnySeq], s, after);
    forall j: nat | j <= |s|
      ensures FitBoth(cs, es, [AnySeq], s, after, j) <==> Fits(cs, es, s[..j], s[j..] + after)
    {
      FitsOne(cs, AnySeq, s[j..], after);
    }
  }

  /** "**" at the front makes up for any beginning that is left out. */
  lemma AnyBeginning(cs: bool, es: seq<Elem>, s: string, after: string)
    requires es != [] && es[0].AnySeq?
    ensures Fits(cs, es, s, after) <==> exists i: nat | i <= |s| :: Fits(cs, es, s[i..], after)
  {
    hide Fits;
    var rest := es[1..];
    assert es == [AnySeq] + rest && s[0..] == s;
    AnySeqFirst(cs, rest, s, after);
    if i: nat :| i <= |s| && Fits(cs, es, s[i..], after) {
      AnySeqFirst(cs, rest, s[i..], after);
      var k: nat :| k <= |s[i..]| && Fits(cs, rest, s[i..][k..], after);
      assert s[i..][k..] == s[i + k..];
    }
  }

  /** "**" at the end makes up for any end. */
  lemma AnyEnd(cs: bool, es: seq<Elem>, s: string, after: string)
    requires es != [] && es[|es| - 1].AnySeq?
    ensures Fits(cs, es, s, after) <==> exists j: nat | j <= |s| :: Fits(cs, es, s[..j], s[j..] + after)
  {
    hide Fits;
    var rest := es[..|es| - 1];
    assert es == rest + [AnySeq] && s[..|s|] == s && s[|s|..] + after == after;
    AnySeqLast(cs, rest, s, after);
    if j: nat :| j <= |s| && Fits(cs, es, s[..j], s[j..] + after) {
      var t := s[..j];
      AnySeqLast(cs, rest, t, s[j..] + after);
      var k: nat :| k <= |t| && Fits(cs, rest, t[..k], t[k..] + (s[j..] + after));
      assert t[..k] == s[..k] && t[k..] + (s[j..] + after) == s[k..] + after;
    }
  }

  /** The elements fit the part of a line from i to j. */
  ghost predicate PartFits(cs: bool, es: seq<Elem>, line: string, i: nat, j: nat) {
    i <= j <= |line| && Fits(cs, es, line[i..j], line[j..])
  }

  ghost predicate SomePartFits(cs: bool, es: seq<Elem>, line: string) {
    exists i: nat, j: nat :: PartFits(cs, es, line, i, j)
  }

  /** A widened pattern fits a line if and only if the pattern fits some part of it, where it stands. */
  lemma WidenedFits(cs: bool, es: seq<Elem>, line: string)
    ensures Fits(cs, Widened(es), line, "") <==> SomePartFits(cs, es, line)
  {
    var tailed := if es == [] || !es[|es| - 1].AnySeq? then es + [AnySeq] else es;
    hide Fits;
    if tailed[0].AnySeq? {
      AnyBeginning(cs, tailed, line, "");
    } else {
      AnySeqFirst(cs, tailed, line, "");
    }
    if i: nat, j: nat :| PartFits(cs, es, line, i, j) {
      TailedFits(cs, es, line, i);
      assert Fits(cs, tailed, line[i..], "");
    }
    if i: nat :| i <= |line| && Fits(cs, tailed, line[i..], "") {
      TailedFits(cs, es, line, i);
    }
  }

  lemma TailedFits(cs: bool, es: seq<Elem>, line: string, i: nat)
    requires i <= |line|
    ensures var tailed := if es == [] || !es[|es| - 1].AnySeq? then es + [AnySeq] else es;
            Fits(cs, tailed, line[i..], "") <==> exists j: nat :: PartFits(cs, es, line, i, j)
  {
    hide Fits;
    var s := line[i..];
    if es == [] || !es[|es| - 1].AnySeq? {
      AnySeqLast(cs, es, s, "");
    } else {
      AnyEnd(cs, es, s, "");
    }
    forall k: nat | k <= |s|
      ensures s[..k] == line[i..i + k] && s[k..] + "" == line[i + k..]
    {
    }
    if j: nat :| PartFits(cs, es, line, i, j) {
      assert s[..j - i] == line[i..j] && s[j - i..] + "" == line[j..];
    }
    if k: nat :| k <= |s| && Fits(cs, es, s[..k], s[k..] + "") {
      assert PartFits(cs, es, line, i, i + k);
    }
  }

  /** What fits in front of some text fits alone. */
  lemma {:induction false} FitsAlone(cs: bool, es: seq<Elem>, s: string, after: string)
    ensures Fits(cs, es, s, after) ==> Fits(cs, es, s, "")
    ensures (forall e | e in es :: !e.NumRange?) ==> (Fits(cs, es, s, after) <==> Fits(cs, es, s, ""))
  {
    hide NaturalPiece;
    if es != [] {
      forall n: nat | n <= |s|
        ensures FirstFits(cs, es, s, after, n) ==> FirstFits(cs, es, s, "", n)
        ensures !es[0].NumRange? ==> (FirstFits(cs, es, s, after, n) <==> FirstFits(cs, es, s, "", n))
        ensures Fits(cs, es[1..], s[n..], after) ==> Fits(cs, es[1..], s[n..], "")
        ensures (forall e | e in es :: !e.NumRange?) ==>
                  (Fits(cs, es[1..], s[n..], after) <==> Fits(cs, es[1..], s[n..], ""))
      {
        FitsAlone(cs, es[1..], s[n..], after);
        assert s[n..] + "" == s[n..];
      }
    }
  }

  ghost predicate PartMatches(cs: bool, elems: seq<Elem>, line: string, i: nat, j: nat) {
    i <= j <= |line| && NaturallyDenotes(cs, elems, line[i..j])
  }

  /** A pattern that need not match the whole line matches it if and only if some part of it fits the pattern where it
      stands. Such a part matches the pattern by itself, and without numeric ranges that is all there is to it. */
  lemma SubstringMeans(p: string, dottedPath: bool, caseSensitive: bool, cs: bool, line: string)
    requires Tokenize(p, dottedPath, true, caseSensitive).outcome == Parsed
    ensures var whole := Tokenize(p, dottedPath, true, caseSensitive).elems;
            var elems := Tokenize(p, dottedPath, false, caseSensitive).elems;
            && Tokenize(p, dottedPath, false, caseSensitive).outcome == Parsed && |whole| > 0
            && (NaturallyDenotes(cs, elems, line) <==> SomePartFits(cs, whole[..|whole| - 1], line))
            && (NaturallyDenotes(cs, elems, line) ==>
                  exists i: nat, j: nat :: PartMatches(cs, whole, line, i, j))
            && ((forall e | e in whole :: !e.NumRange?) ==>
                  (NaturallyDenotes(cs, elems, line) <==> exists i: nat, j: nat :: PartMatches(cs, whole, line, i, j)))
  {
    var es := TokensFrom(p, 0, [], dottedPath, caseSensitive).elems;
    var whole := Tokenize(p, dottedPath, true, caseSensitive).elems;
    assert whole == es + [End] && whole[..|whole| - 1] == es;
    WidenedFits(cs, es, line);
    FitsIsMeant(cs, Widened(es), line);
    hide Fits, Widened, NaturallyDenotes, TokensFrom;
    forall i: nat, j: nat
      ensures PartFits(cs, es, line, i, j) ==> PartMatches(cs, whole, line, i, j)
      ensures (forall e | e in whole :: !e.NumRange?) ==>
                (PartFits(cs, es, line, i, j) <==> PartMatches(cs, whole, line, i, j))
    {
      if i <= j <= |line| {
        FitsAlone(cs, es, line[i..j], line[j..]);
        FitsIsMeant(cs, es, line[i..j]);
      }
    }
  }

  lemma Numbers()
    ensures NumberOf("1") == 1 && NumberOf("0") == 0 && NumberOf("00") == 0 && NumberOf("100") == 100
  {
    assert "1"[..0] == "" && "0"[..0] == "" && "00"[..1] == "0" && "100"[..2] == "10" && "10"[..1] == "1";
    assert NumberOf("") == 0;
    assert NumberOf("1") == 10 * NumberOf("") + 1;
    assert NumberOf("10") == 10 * NumberOf("1");
  }

  lemma NumberPiece(piece: string)
    ensures NaturalPiece(true, NumRange(1, 9), piece) <==> NaturalPiece(false, NumRange(1, 9), piece)
    ensures piece == "1" ==> NaturalPiece(true, NumRange(1, 9), piece)
    ensures piece in {"100", "00", "0", ""} ==> !NaturalPiece(true, NumRange(1, 9), piece)
  {
    Numbers();
    hide NumberOf;
  }

  lemma NoPartOf100(cs: bool, i: nat, j: nat)
    ensures !PartFits(cs, [NumRange(1, 9)], "100", i, j)
  {
    var es, line := [NumRange(1, 9)], "100";
    if i <= j <= |line| {
      FitsOne(cs, es[0], line[i..j], line[j..]);
      NumberPiece(line[i..j]);
      hide Fits, NaturalPiece;
      assert line[0..] == "100" && line[1..] == "00" && line[2..] == "0" && line[3..] == "";
      assert j == |line| ==> line[i..j] == line[i..];
    }
  }

  /** With a numeric range a part may match by itself and not where it stands, for a number is never cut short. */
  lemma NumberIsNotCut(cs: bool)
    ensures NaturallyDenotes(cs, [NumRange(1, 9)] + [End], "1") && "1" == "100"[0..1]
    ensures !NaturallyDenotes(cs, Widened([NumRange(1, 9)]) + [End], "100")
  {
    var es, line := [NumRange(1, 9)], "100";
    FitsIsMeant(cs, es, "1");
    FitsOne(cs, es[0], "1", "");
    NumberPiece("1");
    WidenedFits(cs, es, line);
    FitsIsMeant(cs, Widened(es), line);
    hide Fits, NaturalPiece, Widened, NaturallyDenotes, PartFits;
    forall i: nat, j: nat
      ensures !PartFits(cs, es, line, i, j)
    {
      NoPartOf100(cs, i, j);
    }
  }
}
