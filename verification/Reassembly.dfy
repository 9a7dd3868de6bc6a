/** The class ReassemblyBuffer of inet/src/base/ReassemblyBuffer.cc: a prefix that grows as fragments
    arrive, and parked fragments that wait for the gap before them to be filled. */
module Reassembly {

  type ushort = x: nat | x < 65536

  /** A fragment [beg, end) of a datagram; islast marks the datagram's final bytes. */
  datatype Region = Region(beg: ushort, end: ushort, islast: bool)

  /** Fragments that are equal or do not overlap, in any order and with duplicates. An empty one that is marked last
      must not lie before another. */
  ghost predicate Consistent(rs: set<Region>) {
    && (forall r | r in rs :: r.beg <= r.end)
    && (forall r, q | r in rs && q in rs :: r == q || r.end <= q.beg || q.end <= r.beg)
    && (forall r, q | r in rs && q in rs && r.islast && r.beg == r.end :: q.end <= r.end)
  }

  /** Nothing lies beyond a fragment that is marked last, as in what the sender of one datagram puts on the wire. */
  ghost predicate LastIsLast(rs: set<Region>) {
    forall r, q | r in rs && q in rs && r.islast :: q.end <= r.end
  }

  ghost predicate Covered(rs: set<Region>, b: nat) {
    exists r | r in rs :: r.beg <= b < r.end
  }

  /** Every byte below n has been received. */
  ghost predicate CoveredUpTo(rs: set<Region>, n: nat) {
    forall b: nat | b < n :: Covered(rs, b)
  }

  /** n is the length of the longest contiguous prefix that has been received. */
  ghost predicate IsPrefix(rs: set<Region>, n: nat) {
    CoveredUpTo(rs, n) && !Covered(rs, n)
  }

  /** The last fragment and every byte before its end have been received. */
  ghost predicate Complete(rs: set<Region>) {
    exists r | r in rs :: r.islast && CoveredUpTo(rs, r.end)
  }

  lemma CoverageStops(rs: set<Region>, n: nat, m: nat)
    requires CoveredUpTo(rs, n) && !Covered(rs, m)
    ensures n <= m
  {
  }

  lemma PrefixIsUnique(rs: set<Region>, m: nat, n: nat)
    requires IsPrefix(rs, m) && IsPrefix(rs, n)
    ensures m == n
  {
    CoverageStops(rs, m, n);
    CoverageStops(rs, n, m);
  }

  /** The state while parked fragments are being merged: the prefix ends on a fragment boundary, and
      what lies beyond it is parked. */
  ghost predicate Merging(rs: set<Region>, end: nat, islast: bool, parked: set<Region>) {
    && Consistent(rs) && parked <= rs
    && CoveredUpTo(rs, end)
    && (forall r | r in rs :: r.end <= end || end <= r.beg)
    && (forall r | r in rs :: r.end <= end || r in parked)
    && (islast ==> exists r | r in rs :: r.islast && r.end <= end)
    && (forall r | r in rs && r.islast && r.end <= end :: islast || (r.beg == end && r in parked))
  }

  /** Nothing parked touches the prefix any more. */
  ghost predicate Settled(end: nat, parked: set<Region>) {
    forall r | r in parked :: r.beg > end
  }

  /** The whole state between calls. */
  ghost predicate Stable(rs: set<Region>, end: nat, islast: bool, parked: set<Region>) {
    Merging(rs, end, islast, parked) && Settled(end, parked)
  }

  lemma StableIsPrefix(rs: set<Region>, end: nat, islast: bool, parked: set<Region>)
    requires Stable(rs, end, islast, parked)
    ensures IsPrefix(rs, end)
    ensures islast <==> Complete(rs)
    ensures LastIsLast(rs) && islast ==> forall r | r in rs && r.islast :: r.end == end
  {
    if islast {
      var r :| r in rs && r.islast && r.end <= end;
      assert CoveredUpTo(rs, r.end);
    }
    if Complete(rs) {
      var r :| r in rs && r.islast && CoveredUpTo(rs, r.end);
      CoverageStops(rs, r.end, end);
    }
    forall r | r in rs && r.islast && islast && LastIsLast(rs) ensures r.end == end {
      var q :| q in rs && q.islast && q.end <= end;
      LastBounds(rs, end, q);
    }
  }

  /** A covered prefix does not reach beyond the last fragment. */
  lemma LastBounds(rs: set<Region>, end: nat, last: Region)
    requires LastIsLast(rs) && CoveredUpTo(rs, end) && last in rs && last.islast
    ensures end <= last.end
  {
    if end > 0 { assert Covered(rs, end - 1); }
  }

  /** Taking in a received fragment that starts where the prefix ends. */
  lemma Extend(rs: set<Region>, end: nat, islast: bool, parked: set<Region>, f: Region, parked': set<Region>)
    requires Merging(rs, end, islast, parked) && f in parked && f.beg == end
    requires parked - {f} <= parked' <= parked
    ensures Merging(rs, f.end, islast || f.islast, parked')
  {
    forall b: nat | b < f.end ensures Covered(rs, b) {
      if b >= end { assert f.beg <= b < f.end; }
    }
    if f.islast { assert f.end <= f.end; }
  }

  /** Dropping a parked duplicate of what the prefix already holds. */
  lemma Drop(rs: set<Region>, end: nat, islast: bool, parked: set<Region>, f: Region, parked': set<Region>)
    requires Merging(rs, end, islast, parked) && f in parked && f.end <= end && f.beg != end
    requires parked - {f} <= parked' <= parked
    ensures Merging(rs, end, islast, parked')
  {
  }

  lemma ParkedIsOrdered(rs: set<Region>, end: nat, islast: bool, parked: set<Region>, f: Region)
    requires Merging(rs, end, islast, parked) && f in parked
    ensures f.beg <= f.end
  {
  }

  /** A fragment that is neither next nor contained lies beyond the prefix. */
  lemma Beyond(rs: set<Region>, end: nat, islast: bool, parked: set<Region>, f: Region)
    requires Merging(rs, end, islast, parked) && f in parked && f.beg != end && !(f.end <= end)
    ensures f.beg > end
  {
  }

  function Elements(s: seq<Region>): set<Region> {
    set r | r in s
  }

  function Without(s: seq<Region>, i: nat): seq<Region>
    requires i < |s|
  {
    s[..i] + s[i + 1..]
  }

  lemma WithoutElements(s: seq<Region>, i: nat)
    requires i < |s|
    ensures Elements(s) - {s[i]} <= Elements(Without(s, i)) <= Elements(s)
  {
    forall r | r in Elements(s) - {s[i]} ensures r in Without(s, i) {
      var j :| 0 <= j < |s| && s[j] == r;
      assert r == Without(s, i)[if j < i then j else j - 1];
    }
  }

  class ReassemblyBuffer {
    var mainBeg: ushort
    var mainEnd: ushort
    var mainIsLast: bool
    var fragments: seq<Region>      // the parked regions; empty also where the source has no vector yet
    ghost var received: set<Region>

    ghost predicate Valid()
      reads this
    {
      mainBeg == 0 && Stable(received, mainEnd, mainIsLast, Elements(fragments))
    }

    constructor ()
      ensures Valid() && received == {} && mainEnd == 0
    {
      mainBeg, mainEnd, mainIsLast := 0, 0, false;
      fragments := [];
      received := {};
    }

    /** addFragment: whatever the order of arrival, the prefix is the longest one received, and the result tells whether
        the datagram is complete, which ends with the prefix if nothing was sent beyond its last fragment. */
    method AddFragment(beg: ushort, end: ushort, islast: bool) returns (complete: bool)
      requires Valid() && Consistent(received + {Region(beg, end, islast)})
      modifies this
      ensures Valid() && received == old(received) + {Region(beg, end, islast)}
      ensures IsPrefix(received, mainEnd)
      ensures complete <==> Complete(received)
      ensures complete && LastIsLast(received) ==> forall r | r in received && r.islast :: r.end == mainEnd
    {
      Merge(beg, end, islast);
      StableIsPrefix(received, mainEnd, mainIsLast, Elements(fragments));
      complete := mainBeg == 0 && mainIsLast;
    }

    /** getTotalLength, to be called once addFragment has returned true. */
    method GetTotalLength() returns (n: ushort)
      requires Valid() && Complete(received)
      ensures IsPrefix(received, n)
      ensures LastIsLast(received) ==> forall r | r in received && r.islast :: r.end == n
    {
      StableIsPrefix(received, mainEnd, mainIsLast, Elements(fragments));
      n := mainEnd;
    }

    method Merge(beg: ushort, end: ushort, islast: bool)
      requires Valid() && Consistent(received + {Region(beg, end, islast)})
      modifies this
      ensures Valid() && received == old(received) + {Region(beg, end, islast)}
    {
      var f := Region(beg, end, islast);
      hide Merging, CoveredUpTo;
      ghost var parked := Elements(fragments);
      ghost var rs := received + {f};
      ghost var before := received;
      received := rs;
      if mainEnd == beg {
        // the fragment continues the prefix
        ArrivesNext(before, mainEnd, mainIsLast, parked, f);
        mainEnd := end;
        if islast {
          mainIsLast := true;
        }
        if |fragments| > 0 {
          MergeFragments();
        }
      } else if mainBeg == end {
        // an empty fragment where the prefix begins
        ArrivesWithin(before, mainEnd, mainIsLast, parked, f);
        mainBeg := beg;
        if |fragments| > 0 {
          MergeFragments();
        }
      } else if mainEnd < beg || mainBeg > end {
        ArrivesBeyond(before, mainEnd, mainIsLast, parked, f);
        fragments := fragments + [f];
        assert Elements(fragments) == parked + {f};
      } else {
        // nothing new
        ArrivesWithin(before, mainEnd, mainIsLast, parked, f);
      }
    }

    /** mergeFragments: passes over the parked regions until one changes nothing. */
    method MergeFragments()
      requires mainBeg == 0 && Merging(received, mainEnd, mainIsLast, Elements(fragments))
      modifies this
      ensures Valid() && received == old(received)
    {
      hide Merging, CoveredUpTo, Consistent;
      var oncemore := true;
      while oncemore
        invariant mainBeg == 0 && received == old(received)
        invariant Merging(received, mainEnd, mainIsLast, Elements(fragments))
        invariant !oncemore ==> Settled(mainEnd, Elements(fragments))
        decreases |fragments|, oncemore
      {
        ghost var size := |fragments|;
        oncemore := false;
        var i: nat := 0;
        while i < |fragments|
          invariant i <= |fragments| <= size && mainBeg == 0 && received == old(received)
          invariant Merging(received, mainEnd, mainIsLast, Elements(fragments))
          invariant oncemore ==> |fragments| < size
          invariant !oncemore ==> forall j | 0 <= j < i :: fragments[j].beg > mainEnd
          decreases |fragments| - i
        {
          var deleteit := false;
          var frag := fragments[i];
          assert frag in Elements(fragments);
          WithoutElements(fragments, i);
          ParkedIsOrdered(received, mainEnd, mainIsLast, Elements(fragments), frag);
          if mainEnd == frag.beg {
            Extend(received, mainEnd, mainIsLast, Elements(fragments), frag, Elements(Without(fragments, i)));
            mainEnd := frag.end;
            if frag.islast {
              mainIsLast := true;
            }
            deleteit := true;
          } else if mainBeg == frag.end {
            // an empty region where the prefix begins
            Drop(received, mainEnd, mainIsLast, Elements(fragments), frag, Elements(Without(fragments, i)));
            mainBeg := frag.beg;
            deleteit := true;
          } else if mainBeg <= frag.beg && mainEnd >= frag.end {
            // nothing new
            Drop(received, mainEnd, mainIsLast, Elements(fragments), frag, Elements(Without(fragments, i)));
            deleteit := true;
          } else {
            Beyond(received, mainEnd, mainIsLast, Elements(fragments), frag);
          }
          if deleteit {
            fragments := Without(fragments, i);
            oncemore := true;
          } else {
            i := i + 1;
          }
        }
      }
    }
  }

  /** Two buffers that received the same fragments, in whatever order and with whatever duplicates,
      agree on the prefix and on completeness. */
  lemma OrderIndependence(a: ReassemblyBuffer, b: ReassemblyBuffer)
    requires a.Valid() && b.Valid() && a.received == b.received
    ensures a.mainEnd == b.mainEnd && a.mainIsLast == b.mainIsLast
  {
    StableIsPrefix(a.received, a.mainEnd, a.mainIsLast, Elements(a.fragments));
    StableIsPrefix(b.received, b.mainEnd, b.mainIsLast, Elements(b.fragments));
    PrefixIsUnique(a.received, a.mainEnd, b.mainEnd);
  }

  lemma MoreCovers(rs: set<Region>, f: Region, n: nat)
    requires CoveredUpTo(rs, n)
    ensures CoveredUpTo(rs + {f}, n)
  {
    forall b: nat | b < n ensures Covered(rs + {f}, b) {
      assert Covered(rs, b);
      var r :| r in rs && r.beg <= b < r.end;
      assert r in rs + {f};
    }
  }

  /** A fragment that starts where the prefix ends. */
  lemma ArrivesNext(rs: set<Region>, end: nat, islast: bool, parked: set<Region>, f: Region)
    requires Stable(rs, end, islast, parked) && Consistent(rs + {f}) && f.beg == end
    ensures Merging(rs + {f}, f.end, islast || f.islast, parked)
  {
    MoreCovers(rs, f, end);
    forall b: nat | b < f.end ensures Covered(rs + {f}, b) {
      if b >= end { assert f in rs + {f} && f.beg <= b < f.end; }
    }
    if islast || f.islast {
      var r :| r in rs + {f} && r.islast && (r.end <= end || r == f);
      assert r.end <= f.end;
    }
  }

  /** A fragment beyond a gap. */
  lemma ArrivesBeyond(rs: set<Region>, end: nat, islast: bool, parked: set<Region>, f: Region)
    requires Stable(rs, end, islast, parked) && Consistent(rs + {f}) && end < f.beg
    ensures Stable(rs + {f}, end, islast, parked + {f})
  {
    MoreCovers(rs, f, end);
  }

  /** A fragment that starts within the prefix is contained in it. */
  lemma ArrivesWithin(rs: set<Region>, end: nat, islast: bool, parked: set<Region>, f: Region)
    requires Stable(rs, end, islast, parked) && Consistent(rs + {f}) && f.beg < end
    ensures Stable(rs + {f}, end, islast, parked)
  {
    MoreCovers(rs, f, end);
    assert Covered(rs, f.beg);
    var c :| c in rs && c.beg <= f.beg < c.end;
    assert c in rs + {f} && f in rs + {f};
    assert f == c || f.end <= c.beg || c.end <= f.beg;
    if islast {
      var r :| r in rs && r.islast && r.end <= end;
      assert r in rs + {f};
    }
  }
}
