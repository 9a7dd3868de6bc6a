/** Patterns of inet/src/util/PatternMatcher: their elements and what a line must look like to match. */
module GlobPattern {

  datatype Elem =
    | LiteralString(text: string)
    | AnyChar
    | CommonChar
    | Set(setchars: string)
    | NegSet(setchars: string)
    | NumRange(fromnum: int, tonum: int)
    | AnySeq
    | CommonSeq
    | End

  predicate IsDigit(c: char) {
    '0' <= c <= '9'
  }

  function ToUpper(c: char): char {
    if 'a' <= c <= 'z' then (c as int - 'a' as int + 'A' as int) as char else c
  }

  /** A character as it is compared: itself, or upper-cased when case is ignored. */
  function Fold(caseSensitive: bool, c: char): char {
    if caseSensitive then c else ToUpper(c)
  }

  predicate SameLetter(upper: char, lower: char) {
    'A' <= upper <= 'Z' && lower as int - 'a' as int == upper as int - 'A' as int
  }

  /** Ignoring case, two characters compare equal only if they are the same or one letter in two cases; letters compare
      with other characters as upper-case ones do. */
  lemma FoldsTogether(c: char, d: char)
    ensures Fold(true, c) == Fold(true, d) <==> c == d
    ensures Fold(false, c) == Fold(false, d) <==> c == d || SameLetter(c, d) || SameLetter(d, c)
    ensures SameLetter(c, d) ==> Fold(false, d) == c
  {
  }

  predicate SameText(caseSensitive: bool, s: string, t: string) {
    |s| == |t| && forall i | 0 <= i < |s| :: Fold(caseSensitive, s[i]) == Fold(caseSensitive, t[i])
  }

  /** c lies in one of the ranges that the character pairs of a set denote. */
  predicate InSet(c: char, setchars: string) {
    exists i | 0 <= i < |setchars| / 2 :: setchars[2 * i] <= c <= setchars[2 * i + 1]
  }

  /** The number of digits that a text starts with. */
  function DigitRun(s: string): (n: nat)
    ensures n <= |s|
    ensures forall i | 0 <= i < n :: IsDigit(s[i])
    ensures n < |s| ==> !IsDigit(s[n])
  {
    if s == "" || !IsDigit(s[0]) then 0 else 1 + DigitRun(s[1..])
  }

  function NumberOf(digits: string): int {
    if digits == "" then 0
    else 10 * NumberOf(digits[..|digits| - 1]) + (digits[|digits| - 1] as int - '0' as int)
  }

  /** A bound of -1 is unset. */
  predicate InRange(e: Elem, num: int)
    requires e.NumRange?
  {
    (e.fromnum < 0 || e.fromnum <= num) && (e.tonum < 0 || num <= e.tonum)
  }

  /** A tokenized pattern: End last and only there. */
  predicate Terminated(p: seq<Elem>) {
    |p| > 0 && p[|p| - 1] == End && forall i | 0 <= i < |p| - 1 :: p[i] != End
  }

  /** A literal that ends the pattern right after "**": doMatch compares it exactly in every mode. */
  predicate ExactSuffix(p: seq<Elem>, k: nat) {
    k == |p| - 2 && 0 < k && p[k].LiteralString? && p[k - 1].AnySeq?
  }

  /** The piece of a line that an element stands for. */
  predicate NaturalPiece(caseSensitive: bool, e: Elem, piece: string) {
    match e
    case LiteralString(text) => SameText(caseSensitive, piece, text)
    case AnyChar => |piece| == 1
    case CommonChar => |piece| == 1 && piece[0] != '.'
    case Set(setchars) => |piece| == 1 && InSet(Fold(caseSensitive, piece[0]), setchars)
    case NegSet(setchars) => |piece| == 1 && !InSet(Fold(caseSensitive, piece[0]), setchars)
    case NumRange(_, _) =>
      piece != "" && (forall i | 0 <= i < |piece| :: IsDigit(piece[i])) && InRange(e, NumberOf(piece))
    case AnySeq => true
    case CommonSeq => '.' !in piece
    case End => piece == ""
  }

  /** The piece that element k of a pattern stands for when doMatch compares it. */
  predicate PieceOk(caseSensitive: bool, p: seq<Elem>, k: nat, piece: string)
    requires k < |p|
  {
    NaturalPiece(caseSensitive, p[k], piece) && (ExactSuffix(p, k) ==> piece == p[k].text)
  }

  /** A number is never cut short: the text after it does not go on with a digit. */
  predicate FollowOk(e: Elem, rest: string) {
    e.NumRange? ==> rest == "" || !IsDigit(rest[0])
  }

  function Concat(pieces: seq<string>): string {
    if pieces == [] then "" else pieces[0] + Concat(pieces[1..])
  }

  predicate PieceFits(caseSensitive: bool, p: seq<Elem>, k: nat, pieces: seq<string>, i: nat)
    requires k + |pieces| == |p| && i < |pieces|
  {
    PieceOk(caseSensitive, p, k + i, pieces[i]) && FollowOk(p[k + i], Concat(pieces[i + 1..]))
  }

  /** The pieces cut s into what the elements from k on stand for, one piece for each. */
  predicate Splits(caseSensitive: bool, p: seq<Elem>, k: nat, s: string, pieces: seq<string>)
    requires k + |pieces| == |p|
  {
    Concat(pieces) == s && forall i: nat | i < |pieces| :: PieceFits(caseSensitive, p, k, pieces, i)
  }

  /** What the pattern is meant to say: the line can be cut into one piece for each element. */
  ghost predicate NaturallyDenotes(caseSensitive: bool, p: seq<Elem>, line: string) {
    exists pieces: seq<string> | |pieces| == |p| :: Concat(pieces) == line && NaturalSplit(caseSensitive, p, pieces)
  }

  predicate NaturalSplit(caseSensitive: bool, p: seq<Elem>, pieces: seq<string>)
    requires |pieces| == |p|
  {
    forall i: nat | i < |pieces| :: NaturalFit(caseSensitive, p, pieces, i)
  }

  predicate NaturalFit(caseSensitive: bool, p: seq<Elem>, pieces: seq<string>, i: nat)
    requires i < |pieces| == |p|
  {
    NaturalPiece(caseSensitive, p[i], pieces[i]) && FollowOk(p[i], Concat(pieces[i + 1..]))
  }

  /** The same as doMatch compares: the line can be cut into one piece for each element. */
  ghost predicate Denotes(caseSensitive: bool, p: seq<Elem>, line: string) {
    exists pieces: seq<string> | |pieces| == |p| :: Splits(caseSensitive, p, 0, line, pieces)
  }

  /** The same meaning, one element at a time. */
  ghost predicate Meaning(caseSensitive: bool, p: seq<Elem>, k: nat, s: string)
    requires Terminated(p) && k < |p|
    decreases |p| - k
  {
    if k == |p| - 1 then s == ""
    else exists n: nat | n <= |s| ::
      PieceOk(caseSensitive, p, k, s[..n]) && FollowOk(p[k], s[n..]) && Meaning(caseSensitive, p, k + 1, s[n..])
  }

  // ---------- the two meanings agree ----------

  lemma LaterPieceFits(cs: bool, p: seq<Elem>, k: nat, pieces: seq<string>, i: nat)
    requires k + |pieces| == |p| && 0 < i < |pieces|
    ensures PieceFits(cs, p, k, pieces, i) <==> PieceFits(cs, p, k + 1, pieces[1..], i - 1)
  {
    assert pieces[1..][i - 1 + 1..] == pieces[i + 1..];
  }

  /** A split is a first piece that fits and a split of the rest. */
  lemma SplitsStep(cs: bool, p: seq<Elem>, k: nat, s: string, pieces: seq<string>)
    requires k + |pieces| == |p| && pieces != []
    ensures Splits(cs, p, k, s, pieces) <==>
      var n := |pieces[0]|;
      && n <= |s| && s[..n] == pieces[0]
      && PieceOk(cs, p, k, s[..n]) && FollowOk(p[k], s[n..])
      && Splits(cs, p, k + 1, s[n..], pieces[1..])
  {
    var n, rest, j := |pieces[0]|, pieces[1..], k + 1;
    assert |s| >= n ==> s == s[..n] + s[n..];
    forall i: nat | 0 < i < |pieces|
      ensures PieceFits(cs, p, k, pieces, i) <==> PieceFits(cs, p, j, rest, i - 1)
    {
      LaterPieceFits(cs, p, k, pieces, i);
    }
    if forall i: nat | i < |pieces| :: PieceFits(cs, p, k, pieces, i) {
      forall i: nat | i < |rest| ensures PieceFits(cs, p, j, rest, i) {
        assert PieceFits(cs, p, k, pieces, i + 1);
      }
      assert PieceFits(cs, p, k, pieces, 0);
    }
    if forall i: nat | i < |rest| :: PieceFits(cs, p, j, rest, i) {
      forall i: nat | 0 < i < |pieces| ensures PieceFits(cs, p, k, pieces, i) {
        assert PieceFits(cs, p, j, rest, i - 1);
      }
    }
  }

  lemma {:induction false} SplitHasMeaning(cs: bool, p: seq<Elem>, k: nat, s: string, pieces: seq<string>)
    requires Terminated(p) && k + |pieces| == |p| && k < |p|
    requires Splits(cs, p, k, s, pieces)
    ensures Meaning(cs, p, k, s)
    decreases |p| - k
  {
    hide PieceOk, FollowOk, PieceFits;
    var n := |pieces[0]|;
    SplitsStep(cs, p, k, s, pieces);
    if k == |p| - 1 {
      assert pieces[1..] == [];
      LastPiece(cs, p, k, s, pieces);
    } else {
      SplitHasMeaning(cs, p, k + 1, s[n..], pieces[1..]);
    }
  }

  lemma LastPiece(cs: bool, p: seq<Elem>, k: nat, s: string, pieces: seq<string>)
    requires Terminated(p) && |pieces| == 1 && k + 1 == |p|
    ensures Splits(cs, p, k, s, pieces) <==> s == "" && pieces == [""]
  {
    assert pieces == [pieces[0]] && pieces[1..] == [];
    assert Concat(pieces) == pieces[0] + Concat(pieces[1..]) == pieces[0];
    if Splits(cs, p, k, s, pieces) {
      assert PieceFits(cs, p, k, pieces, 0);
    }
    if s == "" && pieces == [""] {
      assert forall i: nat | i < |pieces| :: PieceFits(cs, p, k, pieces, i);
    }
  }

  lemma {:induction false} MeaningHasSplit(cs: bool, p: seq<Elem>, k: nat, s: string) returns (pieces: seq<string>)
    requires Terminated(p) && k < |p| && Meaning(cs, p, k, s)
    ensures k + |pieces| == |p| && Splits(cs, p, k, s, pieces)
    decreases |p| - k
  {
    hide PieceOk, FollowOk, PieceFits;
    if k == |p| - 1 {
      pieces := [""];
      LastPiece(cs, p, k, s, pieces);
    } else {
      var n: nat :| n <= |s| && PieceOk(cs, p, k, s[..n]) && FollowOk(p[k], s[n..]) && Meaning(cs, p, k + 1, s[n..]);
      var rest := MeaningHasSplit(cs, p, k + 1, s[n..]);
      pieces := [s[..n]] + rest;
      assert pieces[1..] == rest;
      SplitsStep(cs, p, k, s, pieces);
    }
  }

  lemma MeaningIsDenotation(cs: bool, p: seq<Elem>, line: string)
    requires Terminated(p)
    ensures Meaning(cs, p, 0, line) <==> Denotes(cs, p, line)
  {
    if Meaning(cs, p, 0, line) {
      var pieces := MeaningHasSplit(cs, p, 0, line);
    }
    if Denotes(cs, p, line) {
      var pieces :| |pieces| == |p| && Splits(cs, p, 0, line, pieces);
      SplitHasMeaning(cs, p, 0, line, pieces);
    }
  }

  // ---------- one step of the meaning, element by element ----------

  /** When only the first n characters can be the piece, the rest must match the rest. */
  lemma OnlyPiece(cs: bool, p: seq<Elem>, k: nat, s: string, n: nat)
    requires Terminated(p) && k < |p| - 1
    requires forall m: nat | m <= |s| && PieceOk(cs, p, k, s[..m]) && FollowOk(p[k], s[m..]) :: m == n
    ensures Meaning(cs, p, k, s) <==>
      n <= |s| && PieceOk(cs, p, k, s[..n]) && FollowOk(p[k], s[n..]) && Meaning(cs, p, k + 1, s[n..])
  {
  }

  lemma OneCharMeaning(cs: bool, p: seq<Elem>, k: nat, s: string)
    requires Terminated(p) && k < |p| - 1
    requires p[k].AnyChar? || p[k].CommonChar? || p[k].Set? || p[k].NegSet?
    ensures Meaning(cs, p, k, s) <==> s != "" && PieceOk(cs, p, k, s[..1]) && Meaning(cs, p, k + 1, s[1..])
  {
    OnlyPiece(cs, p, k, s, 1);
  }

  lemma LiteralMeaning(cs: bool, p: seq<Elem>, k: nat, s: string)
    requires Terminated(p) && k < |p| - 1 && p[k].LiteralString?
    ensures
      var n := |p[k].text|;
      Meaning(cs, p, k, s) <==> n <= |s| && PieceOk(cs, p, k, s[..n]) && Meaning(cs, p, k + 1, s[n..])
  {
    OnlyPiece(cs, p, k, s, |p[k].text|);
  }

  lemma NumRangeMeaning(cs: bool, p: seq<Elem>, k: nat, s: string)
    requires Terminated(p) && k < |p| - 1 && p[k].NumRange?
    ensures
      var n := DigitRun(s);
      Meaning(cs, p, k, s) <==> n > 0 && InRange(p[k], NumberOf(s[..n])) && Meaning(cs, p, k + 1, s[n..])
  {
    var n := DigitRun(s);
    OnlyPiece(cs, p, k, s, n);
    forall i | 0 <= i < n ensures IsDigit(s[..n][i]) { assert s[..n][i] == s[i]; }
  }

  /** "**" and "*" stand for nothing, or for one more character. */
  lemma SequenceMeaning(cs: bool, p: seq<Elem>, k: nat, s: string)
    requires Terminated(p) && k < |p| - 1 && (p[k].AnySeq? || p[k].CommonSeq?)
    ensures Meaning(cs, p, k, s) <==>
      || Meaning(cs, p, k + 1, s)
      || (s != "" && (p[k].AnySeq? || s[0] != '.') && Meaning(cs, p, k, s[1..]))
  {
    if Meaning(cs, p, k, s) {
      SequenceShrinks(cs, p, k, s);
    }
    if Meaning(cs, p, k + 1, s) {
      assert s[0..] == s && s[..0] == "";
      assert PieceOk(cs, p, k, s[..0]) && FollowOk(p[k], s[0..]) && Meaning(cs, p, k + 1, s[0..]);
    }
    if s != "" && (p[k].AnySeq? || s[0] != '.') && Meaning(cs, p, k, s[1..]) {
      SequenceGrows(cs, p, k, s);
    }
  }

  lemma SequencePiece(cs: bool, p: seq<Elem>, k: nat, piece: string)
    requires k < |p| && (p[k].AnySeq? || p[k].CommonSeq?)
    ensures PieceOk(cs, p, k, piece) <==> p[k].AnySeq? || '.' !in piece
  {
  }

  lemma SequenceShrinks(cs: bool, p: seq<Elem>, k: nat, s: string)
    requires Terminated(p) && k < |p| - 1 && (p[k].AnySeq? || p[k].CommonSeq?)
    requires Meaning(cs, p, k, s)
    ensures Meaning(cs, p, k + 1, s) || (s != "" && (p[k].AnySeq? || s[0] != '.') && Meaning(cs, p, k, s[1..]))
  {
    hide PieceOk, NaturalPiece;
    var n: nat :| n <= |s| && PieceOk(cs, p, k, s[..n]) && Meaning(cs, p, k + 1, s[n..]);
    if n == 0 {
      assert s[0..] == s;
    } else {
      var t := s[1..];
      SequencePiece(cs, p, k, s[..n]);
      SequencePiece(cs, p, k, t[..n - 1]);
      assert t[..n - 1] == s[..n][1..] && t[n - 1..] == s[n..] && s[..n][0] == s[0];
      assert PieceOk(cs, p, k, t[..n - 1]) && FollowOk(p[k], t[n - 1..]) && Meaning(cs, p, k + 1, t[n - 1..]);
    }
  }

  lemma SequenceGrows(cs: bool, p: seq<Elem>, k: nat, s: string)
    requires Terminated(p) && k < |p| - 1 && (p[k].AnySeq? || p[k].CommonSeq?)
    requires s != "" && (p[k].AnySeq? || s[0] != '.') && Meaning(cs, p, k, s[1..])
    ensures Meaning(cs, p, k, s)
  {
    hide PieceOk, NaturalPiece;
    var t := s[1..];
    var n: nat :| n <= |t| && PieceOk(cs, p, k, t[..n]) && Meaning(cs, p, k + 1, t[n..]);
    SequencePiece(cs, p, k, t[..n]);
    SequencePiece(cs, p, k, s[..n + 1]);
    var m: nat := n + 1;
    assert s[..m] == [s[0]] + t[..n] && s[m..] == t[n..];
    assert m <= |s| && PieceOk(cs, p, k, s[..m]) && FollowOk(p[k], s[m..]) && Meaning(cs, p, k + 1, s[m..]);
  }

  /** A pattern that goes on with just "**" matches any rest. */
  lemma FinalAnySeq(cs: bool, p: seq<Elem>, k: nat, s: string)
    requires Terminated(p) && k == |p| - 2 && p[k].AnySeq?
    ensures Meaning(cs, p, k, s)
  {
    assert s[..|s|] == s && s[|s|..] == "";
    assert Meaning(cs, p, k + 1, s[|s|..]);
  }

  predicate EndsWith(s: string, t: string) {
    |t| <= |s| && s[|s| - |t|..] == t
  }

  /** A pattern that goes on with "**" and a literal asks for exactly that suffix. */
  lemma FinalAnySeqLiteral(cs: bool, p: seq<Elem>, k: nat, s: string)
    requires Terminated(p) && k == |p| - 3 && p[k].AnySeq? && p[k + 1].LiteralString?
    ensures Meaning(cs, p, k, s) <==> EndsWith(s, p[k + 1].text)
  {
    var t := p[k + 1].text;
    forall n: nat | n <= |s|
      ensures Meaning(cs, p, k + 1, s[n..]) <==> s[n..] == t
    {
      LiteralMeaning(cs, p, k + 1, s[n..]);
      assert s[n..][..|s[n..]|] == s[n..];
    }
    if EndsWith(s, t) {
      var n := |s| - |t|;
      assert Meaning(cs, p, k + 1, s[n..]) && PieceOk(cs, p, k, s[..n]);
    }
  }

  /** A line that matches a pattern ending in a literal ends in that literal. */
  lemma {:induction false} MatchEndsWithLiteral(p: seq<Elem>, k: nat, s: string)
    requires Terminated(p) && |p| >= 2 && k <= |p| - 2 && p[|p| - 2].LiteralString?
    requires Meaning(true, p, k, s)
    ensures EndsWith(s, p[|p| - 2].text)
    decreases |p| - k
  {
    var n: nat :| n <= |s| && PieceOk(true, p, k, s[..n]) && Meaning(true, p, k + 1, s[n..]);
    if k == |p| - 2 {
      assert s[..n] == s;
    } else {
      MatchEndsWithLiteral(p, k + 1, s[n..]);
      var t := p[|p| - 2].text;
      assert s[|s| - |t|..] == s[n..][|s[n..]| - |t|..];
    }
  }

  // ---------- where the comparison is not the natural one ----------

  lemma ConcatFront(pieces: seq<string>)
    ensures Concat(pieces) == if pieces == [] then "" else pieces[0] + Concat(pieces[1..])
  {
  }

  lemma {:induction false} ConcatAppend(a: seq<string>, b: seq<string>)
    ensures Concat(a + b) == Concat(a) + Concat(b)
  {
    ConcatFront(a);
    ConcatFront(a + b);
    hide Concat;
    if a == [] {
      assert a + b == b;
    } else {
      ConcatAppend(a[1..], b);
      assert (a + b)[1..] == a[1..] + b;
    }
  }

  /** The last literal's piece is the end of the line. */
  lemma LastLiteralPiece(cs: bool, p: seq<Elem>, pieces: seq<string>)
    requires Terminated(p) && |p| >= 2 && p[|p| - 2].LiteralString? && |pieces| == |p|
    requires NaturalFit(cs, p, pieces, |p| - 2) && NaturalFit(cs, p, pieces, |p| - 1)
    ensures pieces[|p| - 2] == p[|p| - 2].text <==> EndsWith(Concat(pieces), p[|p| - 2].text)
  {
    var n, text := |p| - 2, p[|p| - 2].text;
    var tail := [pieces[n], pieces[n + 1]];
    assert pieces == pieces[..n] + tail;
    ConcatAppend(pieces[..n], tail);
    assert tail[1..] == [pieces[n + 1]] && tail[1..][1..] == [];
    assert Concat(tail[1..]) == pieces[n + 1] + Concat([]);
    assert Concat(tail) == pieces[n] + Concat(tail[1..]);
    var line := Concat(pieces);
    assert line == Concat(pieces[..n]) + pieces[n];
    assert line[|line| - |text|..] == pieces[n];
  }

  lemma SplitsNaturally(cs: bool, p: seq<Elem>, line: string, pieces: seq<string>)
    requires |pieces| == |p| && Terminated(p)
    ensures Splits(cs, p, 0, line, pieces) <==>
              && Concat(pieces) == line && NaturalSplit(cs, p, pieces)
              && (|p| >= 2 && ExactSuffix(p, |p| - 2) ==> pieces[|p| - 2] == p[|p| - 2].text)
  {
    hide NaturalPiece, FollowOk, Concat;
    forall i: nat | i < |pieces|
      ensures PieceFits(cs, p, 0, pieces, i)
              <==> NaturalFit(cs, p, pieces, i) && (ExactSuffix(p, i) ==> pieces[i] == p[i].text)
    {
    }
  }

  /** doMatch decides the natural meaning, case-sensitive or not, except that a pattern that ends in "**" and a literal
      asks for exactly that literal at the end of the line. */
  lemma DenotesExactly(cs: bool, p: seq<Elem>, line: string)
    requires Terminated(p)
    ensures Denotes(cs, p, line) <==>
              && NaturallyDenotes(cs, p, line)
              && (|p| >= 2 && ExactSuffix(p, |p| - 2) ==> EndsWith(line, p[|p| - 2].text))
  {
    hide NaturalFit, Splits, Concat, EndsWith;
    forall pieces: seq<string> | |pieces| == |p|
      ensures Splits(cs, p, 0, line, pieces) <==>
                && Concat(pieces) == line && NaturalSplit(cs, p, pieces)
                && (|p| >= 2 && ExactSuffix(p, |p| - 2) ==> EndsWith(line, p[|p| - 2].text))
    {
      SplitsNaturally(cs, p, line, pieces);
      if |p| >= 2 && ExactSuffix(p, |p| - 2) && Concat(pieces) == line && NaturalSplit(cs, p, pieces) {
        assert NaturalFit(cs, p, pieces, |p| - 2) && NaturalFit(cs, p, pieces, |p| - 1);
        LastLiteralPiece(cs, p, pieces);
      }
    }
  }

  /** With letter case, that is no exception. */
  lemma CaseSensitiveIsNatural(p: seq<Elem>, line: string)
    requires Terminated(p)
    ensures Denotes(true, p, line) <==> NaturallyDenotes(true, p, line)
  {
    hide Denotes, NaturalSplit, ExactSuffix;
    DenotesExactly(true, p, line);
    if NaturallyDenotes(true, p, line) && |p| >= 2 && ExactSuffix(p, |p| - 2) {
      assert p[|p| - 2].LiteralString? by { ExactSuffixIsLiteral(p); }
      var pieces: seq<string> :| |pieces| == |p| && Concat(pieces) == line && NaturalSplit(true, p, pieces);
      LastFits(true, p, pieces);
      LastLiteralPiece(true, p, pieces);
    }
  }

  lemma ExactSuffixIsLiteral(p: seq<Elem>)
    requires |p| >= 2 && ExactSuffix(p, |p| - 2)
    ensures p[|p| - 2].LiteralString?
  {
  }

  lemma LastFits(cs: bool, p: seq<Elem>, pieces: seq<string>)
    requires |pieces| == |p| >= 2 && NaturalSplit(cs, p, pieces)
    ensures NaturalFit(cs, p, pieces, |p| - 2) && NaturalFit(cs, p, pieces, |p| - 1)
    ensures cs && p[|p| - 2].LiteralString? ==> pieces[|p| - 2] == p[|p| - 2].text
  {
    assert NaturalFit(cs, p, pieces, |p| - 2) && NaturalFit(cs, p, pieces, |p| - 1);
  }

  /** When case is ignored the exception is one: "**A" is meant to match "a" then, and does not. */
  lemma SuffixIsComparedExactly()
    ensures NaturallyDenotes(false, [AnySeq, LiteralString("A"), End], "a")
    ensures !Denotes(false, [AnySeq, LiteralString("A"), End], "a")
    ensures Denotes(false, [AnySeq, LiteralString("A"), End], "A")
  {
    hide Meaning, Denotes, NaturallyDenotes, PieceOk, SameText;
    var p := [AnySeq, LiteralString("A"), End];
    LowerCaseIsMeant();
    assert "a"[0..] == "a" && "A"[0..] == "A";
    MeaningIsDenotation(false, p, "a");
    MeaningIsDenotation(false, p, "A");
    FinalAnySeqLiteral(false, p, 0, "a");
    FinalAnySeqLiteral(false, p, 0, "A");
  }

  lemma LowerCaseIsMeant()
    ensures NaturallyDenotes(false, [AnySeq, LiteralString("A"), End], "a")
  {
    hide SameText, Concat, FollowOk;
    var p, pieces := [AnySeq, LiteralString("A"), End], ["", "a", ""];
    assert Concat(pieces) == "a" by { ThreePieces(); }
    SameLetters();
    assert NaturalFit(false, p, pieces, 0) && NaturalFit(false, p, pieces, 1) && NaturalFit(false, p, pieces, 2) by {
      NoNumber();
    }
  }

  lemma NoNumber()
    ensures forall e: Elem, rest | !e.NumRange? :: FollowOk(e, rest)
  {
  }

  lemma ThreePieces()
    ensures Concat(["", "a", ""]) == "a"
  {
    var pieces := ["", "a", ""];
    assert pieces[1..] == ["a", ""] && pieces[1..][1..] == [""] && pieces[1..][1..][1..] == [];
    assert Concat(pieces[1..][1..]) == "" + Concat([]);
    assert Concat(pieces[1..]) == "a" + Concat(pieces[1..][1..]);
  }

  lemma SameLetters()
    ensures SameText(false, "a", "A")
  {
  }
}
