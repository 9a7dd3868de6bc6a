/** What a list of pattern elements is meant to say, one element at a time, about a stretch of a line. */
module GlobPieces {
  import opened GlobPattern

  /** s can be cut into one piece for each element, when after is what follows s in the line. */
  ghost predicate Fits(cs: bool, es: seq<Elem>, s: string, after: string) {
    if es == [] then s == ""
    else exists n: nat | n <= |s| :: FirstFits(cs, es, s, after, n) && Fits(cs, es[1..], s[n..], after)
  }

  predicate FirstFits(cs: bool, es: seq<Elem>, s: string, after: string, n: nat)
    requires es != [] && n <= |s|
  {
    NaturalPiece(cs, es[0], s[..n]) && FollowOk(es[0], s[n..] + after)
  }

  // ---------- It is the natural meaning ----------

  /** The pieces are such a cut. */
  predicate Cut(cs: bool, es: seq<Elem>, s: string, after: string, pieces: seq<string>) {
    && |pieces| == |es| && Concat(pieces) == s
    && forall i: nat | i < |es| ::
         NaturalPiece(cs, es[i], pieces[i]) && FollowOk(es[i], Concat(pieces[i + 1..]) + after)
  }

  lemma CutStep(cs: bool, es: seq<Elem>, s: string, after: string, pieces: seq<string>)
    requires |pieces| == |es| > 0
    ensures Cut(cs, es, s, after, pieces) <==>
              var n := |pieces[0]|;
              && n <= |s| && s[..n] == pieces[0] && FirstFits(cs, es, s, after, n)
              && Cut(cs, es[1..], s[n..], after, pieces[1..])
  {
    hide NaturalPiece, FollowOk;
    var n, rest := |pieces[0]|, pieces[1..];
    assert |s| >= n ==> s == s[..n] + s[n..];
    assert Concat(pieces) == pieces[0] + Concat(rest);
    forall i: nat | 0 < i < |es|
      ensures pieces[i + 1..] == rest[i - 1 + 1..] && es[i] == es[1..][i - 1] && pieces[i] == rest[i - 1]
    {
    }
    if Cut(cs, es, s, after, pieces) {
      assert pieces[0 + 1..] == rest && s[n..] == Concat(rest);
      forall i: nat | i < |es[1..]|
        ensures NaturalPiece(cs, es[1..][i], rest[i]) && FollowOk(es[1..][i], Concat(rest[i + 1..]) + after)
      {
        assert pieces[i + 1 + 1..] == rest[i + 1..] && es[i + 1] == es[1..][i];
      }
    }
  }

  lemma {:induction false} CutFits(cs: bool, es: seq<Elem>, s: string, after: string, pieces: seq<string>)
    requires Cut(cs, es, s, after, pieces)
    ensures Fits(cs, es, s, after)
  {
    hide FirstFits, Cut;
    if es == [] {
      assert Concat(pieces) == s && pieces == [] by { CutParts(cs, es, s, after, pieces); }
    } else {
      CutParts(cs, es, s, after, pieces);
      CutStep(cs, es, s, after, pieces);
      CutFits(cs, es[1..], s[|pieces[0]|..], after, pieces[1..]);
    }
  }

  lemma CutParts(cs: bool, es: seq<Elem>, s: string, after: string, pieces: seq<string>)
    requires Cut(cs, es, s, after, pieces)
    ensures |pieces| == |es| && Concat(pieces) == s
  {
  }

  lemma {:induction false} FitsHasCut(cs: bool, es: seq<Elem>, s: string, after: string) returns (pieces: seq<string>)
    requires Fits(cs, es, s, after)
    ensures Cut(cs, es, s, after, pieces)
  {
    hide FirstFits;
    if es == [] {
      pieces := [];
    } else {
      var n: nat :| n <= |s| && FirstFits(cs, es, s, after, n) && Fits(cs, es[1..], s[n..], after);
      var rest := FitsHasCut(cs, es[1..], s[n..], after);
      CutParts(cs, es[1..], s[n..], after, rest);
      pieces := [s[..n]] + rest;
      assert pieces[1..] == rest;
      hide Cut;
      CutStep(cs, es, s, after, pieces);
    }
  }

  lemma CutIsNatural(cs: bool, es: seq<Elem>, line: string, pieces: seq<string>)
    requires |pieces| == |es|
    ensures Cut(cs, es, line, "", pieces) <==> Concat(pieces) == line && NaturalSplit(cs, es, pieces)
  {
    hide NaturalPiece, FollowOk, Concat;
    forall i: nat | i < |es|
      ensures NaturalFit(cs, es, pieces, i)
              <==> NaturalPiece(cs, es[i], pieces[i]) && FollowOk(es[i], Concat(pieces[i + 1..]) + "")
    {
      assert Concat(pieces[i + 1..]) + "" == Concat(pieces[i + 1..]);
    }
  }

  // ---------- Lists of elements one after the other ----------

  /** s can be cut in two at n. */
  ghost predicate FitBoth(cs: bool, a: seq<Elem>, b: seq<Elem>, s: string, after: string, n: nat)
    requires n <= |s|
  {
    Fits(cs, a, s[..n], s[n..] + after) && Fits(cs, b, s[n..], after)
  }

  lemma {:induction false} FitsTogether(cs: bool, a: seq<Elem>, b: seq<Elem>, s: string, after: string)
    ensures Fits(cs, a + b, s, after) <==> exists n: nat | n <= |s| :: FitBoth(cs, a, b, s, after, n)
  {
    if a == [] {
      assert a + b == b && s[0..] == s;
      assert FitBoth(cs, a, b, s, after, 0) <==> Fits(cs, b, s, after);
    } else {
      assert (a + b)[1..] == a[1..] + b;
      if Fits(cs, a + b, s, after) {
        var n: nat :| n <= |s| && FirstFits(cs, a + b, s, after, n) && Fits(cs, (a + b)[1..], s[n..], after);
        FitsTogether(cs, a[1..], b, s[n..], after);
        var k: nat :| k <= |s[n..]| && FitBoth(cs, a[1..], b, s[n..], after, k);
        FirstOfBoth(cs, a, b, s, after, n, k);
      }
      forall n: nat | n <= |s| && FitBoth(cs, a, b, s, after, n)
        ensures Fits(cs, a + b, s, after)
      {
        var t := s[..n];
        var k: nat :| k <= |t| && FirstFits(cs, a, t, s[n..] + after, k) && Fits(cs, a[1..], t[k..], s[n..] + after);
        FirstOfAll(cs, a, b, s, after, n, k);
        FitsTogether(cs, a[1..], b, s[k..], after);
      }
    }
  }

  lemma FirstOfBoth(cs: bool, a: seq<Elem>, b: seq<Elem>, s: string, after: string, n: nat, k: nat)
    requires a != [] && n <= |s| && FirstFits(cs, a + b, s, after, n)
    requires k <= |s[n..]| && FitBoth(cs, a[1..], b, s[n..], after, k)
    ensures FitBoth(cs, a, b, s, after, n + k)
  {
    hide NaturalPiece, FollowOk;
    var t := s[..n + k];
    assert t[..n] == s[..n] && t[n..] == s[n..][..k] && s[n + k..] == s[n..][k..];
    assert t[n..] + (s[n + k..] + after) == s[n..] + after;
    assert FirstFits(cs, a, t, s[n + k..] + after, n);
  }

  lemma FirstOfAll(cs: bool, a: seq<Elem>, b: seq<Elem>, s: string, after: string, n: nat, k: nat)
    requires a != [] && k <= n <= |s| && FirstFits(cs, a, s[..n], s[n..] + after, k)
    requires Fits(cs, a[1..], s[..n][k..], s[n..] + after) && Fits(cs, b, s[n..], after)
    ensures FirstFits(cs, a + b, s, after, k) && FitBoth(cs, a[1..], b, s[k..], after, n - k)
  {
    hide NaturalPiece, FollowOk, Fits;
    assert s[..n][..k] == s[..k] && s[k..][..n - k] == s[..n][k..] && s[k..][n - k..] == s[n..];
    assert s[..n][k..] + (s[n..] + after) == s[k..] + after;
  }

  lemma FitsOne(cs: bool, e: Elem, s: string, after: string)
    ensures Fits(cs, [e], s, after) <==> NaturalPiece(cs, e, s) && FollowOk(e, after)
  {
    hide NaturalPiece, FollowOk;
    assert [e][1..] == [];
    forall n: nat | n <= |s|
      ensures Fits(cs, [e][1..], s[n..], after) <==> n == |s|
    {
    }
    assert s[..|s|] == s && s[|s|..] + after == after;
    assert FirstFits(cs, [e], s, after, |s|) <==> NaturalPiece(cs, e, s) && FollowOk(e, after);
  }

  /** The natural meaning of a whole pattern. */
  lemma FitsIsMeant(cs: bool, es: seq<Elem>, line: string)
    ensures NaturallyDenotes(cs, es + [End], line) <==> Fits(cs, es, line, "")
  {
    var all := es + [End];
    FitsTogether(cs, es, [End], line, "");
    forall n: nat | n <= |line|
      ensures FitBoth(cs, es, [End], line, "", n) <==> n == |line| && Fits(cs, es, line, "")
    {
      FitsOne(cs, End, line[n..], "");
      if n == |line| {
        assert line[..n] == line && line[n..] + "" == "";
      }
    }
    assert FitBoth(cs, es, [End], line, "", |line|) <==> Fits(cs, es, line, "");
    hide Fits, FitBoth, Cut, NaturalSplit;
    if NaturallyDenotes(cs, all, line) {
      var pieces: seq<string> :| |pieces| == |all| && Concat(pieces) == line && NaturalSplit(cs, all, pieces);
      CutIsNatural(cs, all, line, pieces);
      CutFits(cs, all, line, "", pieces);
    }
    if Fits(cs, all, line, "") {
      var pieces := FitsHasCut(cs, all, line, "");
      CutParts(cs, all, line, "", pieces);
      CutIsNatural(cs, all, line, pieces);
    }
  }
}
