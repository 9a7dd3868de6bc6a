/** Lists without repetition, and adjacency lists that mirror the ends of links. */
module Adjacency {

  predicate Distinct<T(==)>(s: seq<T>) {
    forall i, j | 0 <= i < j < |s| :: s[i] != s[j]
  }

  /** The first position of x, or the length of q. */
  function IndexOf<T(==)>(q: seq<T>, x: T): (k: nat)
    ensures k <= |q| && x !in q[..k]
    ensures k < |q| <==> x in q
    ensures k < |q| ==> q[k] == x
  {
    if q == [] || q[0] == x then 0 else
      var k := IndexOf(q[1..], x);
      assert q[..k + 1] == [q[0]] + q[1..][..k];
      k + 1
  }

  /** list::remove and vector::erase for an element that occurs at most once. */
  function Removed<T(==)>(q: seq<T>, x: T): (r: seq<T>)
    ensures x !in q ==> r == q
  {
    var k := IndexOf(q, x);
    if k < |q| then q[..k] + q[k + 1..] else q
  }

  lemma RemovedFacts<T>(q: seq<T>, x: T)
    requires Distinct(q)
    ensures Distinct(Removed(q, x)) && x !in Removed(q, x)
    ensures forall y | y in Removed(q, x) :: y in q
    ensures forall y | y in q && y != x :: y in Removed(q, x)
    ensures x !in q ==> Removed(q, x) == q
  {
    var k := IndexOf(q, x);
    if x in q {
      var r := Removed(q, x);
      forall y | y in q && y != x ensures y in r {
        var j :| 0 <= j < |q| && q[j] == y;
        assert r[if j < k then j else j - 1] == y;
      }
    }
  }

  /** q lists exactly the links whose end is n, each once. */
  ghost predicate Listed<L, N>(q: seq<L>, n: N, ends: map<L, N>) {
    && Distinct(q)
    && (forall l | l in q :: l in ends && ends[l] == n)
    && (forall l | l in ends && ends[l] == n :: l in q)
  }

  ghost predicate HalfMirrored<L, N>(lists: map<N, seq<L>>, ends: map<L, N>) {
    && (forall l | l in ends :: ends[l] in lists)
    && (forall n | n in lists :: Listed(lists[n], n, ends))
  }

  /** The lists after l has been taken out of where it was and put last where it ends now. */
  function Linked<L(==), N(==)>(lists: map<N, seq<L>>, l: L, m: N): map<N, seq<L>> {
    map n | n in lists :: Removed(lists[n], l) + (if n == m then [l] else [])
  }

  function WithoutLink<L(==), N(==)>(lists: map<N, seq<L>>, l: L): map<N, seq<L>> {
    map n | n in lists :: Removed(lists[n], l)
  }

  lemma UnlinkedList<L, N>(q: seq<L>, n: N, ends: map<L, N>, l: L)
    requires Listed(q, n, ends)
    ensures Listed(Removed(q, l), n, ends - {l})
    ensures l !in ends || ends[l] != n ==> Removed(q, l) == q
  {
    hide Removed;
    RemovedFacts(q, l);
  }

  lemma UnlinkOne<L, N>(lists: map<N, seq<L>>, ends: map<L, N>, l: L)
    requires HalfMirrored(lists, ends)
    ensures HalfMirrored(WithoutLink(lists, l), ends - {l})
    ensures l in ends ==> ends[l] in lists && lists[ends[l] := Removed(lists[ends[l]], l)] == WithoutLink(lists, l)
    ensures l !in ends ==> WithoutLink(lists, l) == lists
  {
    hide Removed, Listed;
    forall n | n in lists
      ensures Listed(Removed(lists[n], l), n, ends - {l})
      ensures l !in ends || ends[l] != n ==> Removed(lists[n], l) == lists[n]
    {
      UnlinkedList(lists[n], n, ends, l);
    }
  }

  lemma LinkedList<L, N>(q: seq<L>, n: N, ends: map<L, N>, l: L, m: N)
    requires Listed(q, n, ends)
    ensures Listed(Removed(q, l) + (if n == m then [l] else []), n, ends[l := m])
  {
    hide Removed;
    RemovedFacts(q, l);
  }

  lemma LinkOne<L, N>(lists: map<N, seq<L>>, ends: map<L, N>, l: L, m: N)
    requires HalfMirrored(lists, ends) && m in lists
    ensures HalfMirrored(Linked(lists, l, m), ends[l := m])
    ensures m in WithoutLink(lists, l)
    ensures WithoutLink(lists, l)[m := WithoutLink(lists, l)[m] + [l]] == Linked(lists, l, m)
  {
    hide Removed, Listed;
    forall n | n in lists
      ensures Listed(Linked(lists, l, m)[n], n, ends[l := m])
      ensures n != m ==> Linked(lists, l, m)[n] == WithoutLink(lists, l)[n]
    {
      LinkedList(lists[n], n, ends, l, m);
      assert Removed(lists[n], l) + [] == Removed(lists[n], l);
    }
  }

  /** Dropping all links that end at n, from the other side one by one and here at once. */
  lemma ClearOne<L, N>(lists: map<N, seq<L>>, ends: map<L, N>, n: N, gone: set<L>)
    requires HalfMirrored(lists, ends) && n in lists
    requires forall l :: l in gone <==> l in lists[n]
    ensures HalfMirrored(lists[n := []], ends - gone)
    ensures forall l | l in ends && l !in gone :: ends[l] != n
  {
    var lists', ends' := lists[n := []], ends - gone;
    forall m | m in lists' ensures Listed(lists'[m], m, ends') {
      assert Listed(lists[m], m, ends) && Listed(lists[n], n, ends);
    }
  }

  /** A node at which no link ends can be left out. */
  lemma LeaveOut<L, N>(lists: map<N, seq<L>>, ends: map<L, N>, n: N)
    requires HalfMirrored(lists, ends) && forall l | l in ends :: ends[l] != n
    ensures HalfMirrored(lists - {n}, ends)
  {
  }

  lemma NewListed<L, N>(lists: map<N, seq<L>>, ends: map<L, N>, n: N)
    requires HalfMirrored(lists, ends) && n !in lists
    ensures HalfMirrored(lists[n := []], ends)
  {
  }

  /** A graph: its nodes in order with their sort keys, the two adjacency lists of each node, and the two
      ends of each link. */
  datatype Graph<N, L> = Graph(nodes: seq<N>, keys: map<N, int>, outs: map<N, seq<L>>, ins: map<N, seq<L>>,
                               sources: map<L, N>, dests: map<L, N>)

  /** Nodes are listed once and in order; each link is in exactly one list of outgoing links, its source's,
      and in exactly one list of incoming links, its destination's, once in each. */
  ghost predicate WellLinked<N, L>(g: Graph<N, L>) {
    && Distinct(g.nodes)
    && (forall n | n in g.nodes :: n in g.keys && n in g.outs && n in g.ins)
    && (forall n | n in g.outs :: n in g.nodes) && (forall n | n in g.ins :: n in g.nodes)
    && (forall i, j | 0 <= i < j < |g.nodes| :: g.keys[g.nodes[i]] <= g.keys[g.nodes[j]])
    && g.sources.Keys == g.dests.Keys
    && HalfMirrored(g.outs, g.sources) && HalfMirrored(g.ins, g.dests)
  }

  /** A new node without links, at a place that keeps the order. */
  function WithNode<N, L>(g: Graph<N, L>, i: nat, n: N, key: int): Graph<N, L>
    requires i <= |g.nodes|
  {
    g.(nodes := g.nodes[..i] + [n] + g.nodes[i..], keys := g.keys[n := key],
       outs := g.outs[n := []], ins := g.ins[n := []])
  }

  /** The keys of the nodes before i are less than key, and those from i on are not. */
  predicate FirstNotLess<N, L>(g: Graph<N, L>, key: int, i: nat) {
    && i <= |g.nodes| && (forall j | 0 <= j < |g.nodes| :: g.nodes[j] in g.keys)
    && (forall j | 0 <= j < i :: g.keys[g.nodes[j]] < key) && forall j | i <= j < |g.nodes| :: key <= g.keys[g.nodes[j]]
  }

  /** A node with this key may stand at i. */
  predicate InPlace<N, L>(g: Graph<N, L>, key: int, i: nat) {
    && i <= |g.nodes| && (forall j | 0 <= j < |g.nodes| :: g.nodes[j] in g.keys)
    && forall j | 0 <= j < |g.nodes| :: if j < i then g.keys[g.nodes[j]] <= key else key <= g.keys[g.nodes[j]]
  }

  lemma Placed<N, L>(g: Graph<N, L>, i: nat, key: int)
    requires i <= |g.nodes| && forall j | 0 <= j < |g.nodes| :: g.nodes[j] in g.keys
    requires forall j | 0 <= j < i :: g.keys[g.nodes[j]] < key
    requires forall j | i <= j < |g.nodes| :: key <= g.keys[g.nodes[j]]
    ensures FirstNotLess(g, key, i)
  {
  }

  lemma PlacedAnyhow<N, L>(g: Graph<N, L>, i: nat, key: int)
    requires i <= |g.nodes| && forall j | 0 <= j < |g.nodes| :: g.nodes[j] in g.keys
    requires forall j | 0 <= j < i :: g.keys[g.nodes[j]] <= key
    requires forall j | i <= j < |g.nodes| :: key <= g.keys[g.nodes[j]]
    ensures InPlace(g, key, i)
  {
  }

  lemma InsertedInPlace<N, L>(g: Graph<N, L>, i: nat, n: N, key: int)
    requires WellLinked(g) && n !in g.nodes && InPlace(g, key, i)
    ensures i <= |g.nodes| && WellLinked(WithNode(g, i, n, key))
  {
    hide WellLinked, WithNode;
    WithNodeWellLinked(g, i, n, key);
  }

  lemma WithNodeWellLinked<N, L>(g: Graph<N, L>, i: nat, n: N, key: int)
    requires WellLinked(g) && n !in g.nodes && i <= |g.nodes|
    requires forall j | 0 <= j < |g.nodes| :: if j < i then g.keys[g.nodes[j]] <= key else key <= g.keys[g.nodes[j]]
    ensures WellLinked(WithNode(g, i, n, key))
  {
    hide HalfMirrored;
    InsertedNode(g.nodes, i, n);
    NewListed(g.outs, g.sources, n);
    NewListed(g.ins, g.dests, n);
    hide Distinct;
    InsertedOrder(g.nodes, g.keys, i, n, key);
  }

  lemma InsertedOrder<N>(q: seq<N>, keys: map<N, int>, i: nat, n: N, key: int)
    requires n !in q && i <= |q| && forall m | m in q :: m in keys
    requires forall j, k | 0 <= j < k < |q| :: keys[q[j]] <= keys[q[k]]
    requires forall j | 0 <= j < |q| :: if j < i then keys[q[j]] <= key else key <= keys[q[j]]
    ensures
      var s, keys' := q[..i] + [n] + q[i..], keys[n := key];
      && (forall m | m in s :: m in keys')
      && forall j, k | 0 <= j < k < |s| :: keys'[s[j]] <= keys'[s[k]]
  {
    var s := q[..i] + [n] + q[i..];
    forall j, k | 0 <= j < k < |s| ensures keys[n := key][s[j]] <= keys[n := key][s[k]] {
      assert s[j] == if j < i then q[j] else if j == i then n else q[j - 1];
      assert s[k] == if k < i then q[k] else if k == i then n else q[k - 1];
    }
  }

  lemma InsertedNode<N>(q: seq<N>, i: nat, n: N)
    requires Distinct(q) && n !in q && i <= |q|
    ensures
      var s := q[..i] + [n] + q[i..];
      && Distinct(s) && n in s
      && (forall m | m in s :: m in q || m == n) && (forall m | m in q :: m in s)
  {
    var s := q[..i] + [n] + q[i..];
    assert forall j | 0 <= j < |s| :: s[j] == if j < i then q[j] else if j == i then n else q[j - 1];
    forall m | m in q ensures m in s {
      var j :| 0 <= j < |q| && q[j] == m;
      assert s[if j < i then j else j + 1] == m;
    }
    assert s[i] == n;
  }

  /** The graph after addLink: l leads from m to n now, and is last in the lists of both. */
  function WithLink<N(==), L(==)>(g: Graph<N, L>, l: L, m: N, n: N): Graph<N, L> {
    g.(outs := Linked(g.outs, l, m), ins := Linked(g.ins, l, n), sources := g.sources[l := m], dests := g.dests[l := n])
  }

  lemma WithLinkWellLinked<N, L>(g: Graph<N, L>, l: L, m: N, n: N)
    requires WellLinked(g) && m in g.nodes && n in g.nodes
    ensures WellLinked(WithLink(g, l, m, n))
    ensures m in WithoutLink(g.outs, l) && n in WithoutLink(g.ins, l)
    ensures WithoutLink(g.outs, l)[m := WithoutLink(g.outs, l)[m] + [l]] == Linked(g.outs, l, m)
    ensures WithoutLink(g.ins, l)[n := WithoutLink(g.ins, l)[n] + [l]] == Linked(g.ins, l, n)
  {
    hide HalfMirrored, Removed;
    LinkOne(g.outs, g.sources, l, m);
    LinkOne(g.ins, g.dests, l, n);
  }

  /** The graph after deleteLink. */
  function LessLink<N(==), L(==)>(g: Graph<N, L>, l: L): Graph<N, L> {
    g.(outs := WithoutLink(g.outs, l), ins := WithoutLink(g.ins, l), sources := g.sources - {l}, dests := g.dests - {l})
  }

  /** Taking a link out of the list of its source, and out of the list of its destination. */
  lemma Unlinking<N, L>(g: Graph<N, L>, l: L)
    requires WellLinked(g)
    ensures WellLinked(LessLink(g, l))
    ensures l in g.sources ==> g.sources[l] in g.outs && g.dests[l] in g.ins
    ensures l in g.sources ==> g.outs[g.sources[l] := Removed(g.outs[g.sources[l]], l)] == WithoutLink(g.outs, l)
    ensures l in g.sources ==> g.ins[g.dests[l] := Removed(g.ins[g.dests[l]], l)] == WithoutLink(g.ins, l)
    ensures l !in g.sources ==> WithoutLink(g.outs, l) == g.outs && WithoutLink(g.ins, l) == g.ins
  {
    hide HalfMirrored, Removed;
    UnlinkOne(g.outs, g.sources, l);
    UnlinkOne(g.ins, g.dests, l);
    assert HalfMirrored(g.outs, g.sources);
    EndsListed(g.outs, g.sources);
    EndsListed(g.ins, g.dests);
  }

  lemma EndsListed<L, N>(lists: map<N, seq<L>>, ends: map<L, N>)
    requires HalfMirrored(lists, ends)
    ensures forall l | l in ends :: ends[l] in lists
    ensures forall l, n | l in ends && n in lists :: l in lists[n] <==> ends[l] == n
    ensures forall l, n | n in lists && l in lists[n] :: l in ends
  {
  }

  // ---------- what is left of a list ----------

  /** q without the elements of gone, in the same order. */
  function Left<L(==)>(q: seq<L>, gone: set<L>): seq<L> {
    if q == [] then [] else (if q[0] in gone then [] else [q[0]]) + Left(q[1..], gone)
  }

  function LeftOf<L(==), N(==)>(lists: map<N, seq<L>>, gone: set<L>): map<N, seq<L>> {
    map n | n in lists :: Left(lists[n], gone)
  }

  lemma {:induction false} LeftIs<L>(q: seq<L>, gone: set<L>)
    ensures forall x :: x in Left(q, gone) <==> x in q && x !in gone
  {
    if q != [] {
      LeftIs(q[1..], gone);
      assert q == [q[0]] + q[1..];
    }
  }

  lemma {:induction false} LeftWhole<L>(q: seq<L>, gone: set<L>)
    requires forall x | x in q :: x !in gone
    ensures Left(q, gone) == q
  {
    if q != [] {
      LeftWhole(q[1..], gone);
    }
  }

  lemma LeftFirst<L>(x: L, q: seq<L>, gone: set<L>)
    ensures Left([x] + q, gone) == if x in gone then Left(q, gone) else [x] + Left(q, gone)
  {
    assert ([x] + q)[1..] == q;
  }

  lemma {:induction false} LeftTwice<L>(q: seq<L>, gone: set<L>, more: set<L>)
    ensures Left(Left(q, gone), more) == Left(q, gone + more)
  {
    if q != [] {
      var x, t := q[0], q[1..];
      assert q == [x] + t;
      LeftTwice(t, gone, more);
      LeftFirst(x, t, gone);
      LeftFirst(x, t, gone + more);
      LeftFirst(x, Left(t, gone), more);
    }
  }

  lemma RemovedFirst<L>(x: L, q: seq<L>, l: L)
    ensures Removed([x] + q, l) == if x == l then q else [x] + Removed(q, l)
  {
    var all := [x] + q;
    assert all[1..] == q;
    if x != l {
      var k := IndexOf(q, l);
      assert IndexOf(all, l) == k + 1;
      if k < |q| {
        assert all[..k + 1] == [x] + q[..k] && all[k + 2..] == q[k + 1..];
      }
    }
  }

  /** Taking one more element out. */
  lemma {:induction false} LeftOneLess<L>(q: seq<L>, gone: set<L>, l: L)
    requires Distinct(q)
    ensures Removed(Left(q, gone), l) == Left(q, gone + {l})
  {
    hide Removed;
    if q == [] {
      assert Removed(q, l) == q;
    } else {
      var x, t := q[0], q[1..];
      assert q == [x] + t && x !in t;
      LeftOneLess(t, gone, l);
      LeftFirst(x, t, gone);
      LeftFirst(x, t, gone + {l});
      RemovedFirst(x, Left(t, gone), l);
      LeftIs(t, gone);
    }
  }

  lemma LeftOfOneLess<L, N>(lists: map<N, seq<L>>, ends: map<L, N>, gone: set<L>, l: L)
    requires HalfMirrored(lists, ends)
    ensures WithoutLink(LeftOf(lists, gone), l) == LeftOf(lists, gone + {l})
  {
    hide Removed, Left;
    forall n | n in lists
      ensures Removed(Left(lists[n], gone), l) == Left(lists[n], gone + {l})
    {
      LeftOneLess(lists[n], gone, l);
    }
  }

  lemma LeftOfWhole<L, N>(lists: map<N, seq<L>>)
    ensures LeftOf(lists, {}) == lists
  {
    forall n | n in lists
      ensures Left(lists[n], {}) == lists[n]
    {
      LeftWhole(lists[n], {});
    }
  }

  lemma LeftOfTwice<L, N>(lists: map<N, seq<L>>, gone: set<L>, more: set<L>)
    ensures LeftOf(LeftOf(lists, gone), more) == LeftOf(lists, gone + more)
  {
    hide Left;
    forall n | n in lists
      ensures Left(Left(lists[n], gone), more) == Left(lists[n], gone + more)
    {
      LeftTwice(lists[n], gone, more);
    }
  }

  /** Clearing a node's list takes out its links and nothing else. */
  lemma ClearedIsLeft<L, N>(lists: map<N, seq<L>>, ends: map<L, N>, n: N, gone: set<L>)
    requires HalfMirrored(lists, ends) && n in lists && forall l :: l in gone <==> l in lists[n]
    ensures lists[n := []] == LeftOf(lists, gone)
  {
    hide Left;
    forall m | m in lists
      ensures Left(lists[m], gone) == if m == n then [] else lists[m]
    {
      if m == n {
        AllGone(lists[n], gone);
      } else {
        forall x | x in lists[m]
          ensures x !in gone
        {
          assert Listed(lists[m], m, ends) && Listed(lists[n], n, ends);
        }
        LeftWhole(lists[m], gone);
      }
    }
  }

  lemma {:induction false} AllGone<L>(q: seq<L>, gone: set<L>)
    requires forall x | x in q :: x in gone
    ensures Left(q, gone) == []
  {
    if q != [] {
      AllGone(q[1..], gone);
    }
  }

  // ---------- deleting a node with its links ----------

  /** Half of deleteNode: the links at one side of n in gone have been taken out of the lists of the other
      side, but not yet out of the list of n. */
  ghost predicate Detaching<L, N>(here: map<N, seq<L>>, hereEnds: map<L, N>, there: map<N, seq<L>>,
                                  thereEnds: map<L, N>, n: N, gone: set<L>)
  {
    && n in here && here.Keys == there.Keys && hereEnds.Keys == thereEnds.Keys
    && HalfMirrored(here, hereEnds) && HalfMirrored(there, thereEnds - gone)
    && (forall l | l in thereEnds :: thereEnds[l] in there)
    && (forall l | l in gone :: l in here[n])
  }

  /** One link of n taken out of the list of its other end. */
  lemma DetachOne<L, N>(here: map<N, seq<L>>, hereEnds: map<L, N>, there: map<N, seq<L>>, thereEnds: map<L, N>, n: N,
                        gone: set<L>, l: L)
    requires Detaching(here, hereEnds, there, thereEnds, n, gone) && l in here[n] && l !in gone
    ensures l in thereEnds && thereEnds[l] in there
    ensures there[thereEnds[l] := Removed(there[thereEnds[l]], l)] == WithoutLink(there, l)
    ensures Detaching(here, hereEnds, there[thereEnds[l] := Removed(there[thereEnds[l]], l)], thereEnds, n, gone + {l})
  {
    hide Removed, Listed;
    EndsListed(here, hereEnds);
    UnlinkOne(there, thereEnds - gone, l);
    assert thereEnds - (gone + {l}) == thereEnds - gone - {l};
  }

  /** All of them, and then the list of n is cleared. */
  lemma DetachAll<L, N>(here: map<N, seq<L>>, hereEnds: map<L, N>, there: map<N, seq<L>>, thereEnds: map<L, N>, n: N,
                        gone: set<L>)
    requires Detaching(here, hereEnds, there, thereEnds, n, gone) && forall l | l in here[n] :: l in gone
    ensures HalfMirrored(here[n := []], hereEnds - gone) && HalfMirrored(there, thereEnds - gone)
    ensures forall l | l in hereEnds - gone :: hereEnds[l] != n
    ensures forall l | l in hereEnds && hereEnds[l] == n :: l in gone
    ensures forall l | l in gone :: l in hereEnds && hereEnds[l] == n
  {
    EndsListed(here, hereEnds);
    ClearOne(here, hereEnds, n, gone);
  }

  lemma DetachStart<L, N>(here: map<N, seq<L>>, hereEnds: map<L, N>, there: map<N, seq<L>>, thereEnds: map<L, N>, n: N)
    requires n in here && here.Keys == there.Keys && hereEnds.Keys == thereEnds.Keys
    requires HalfMirrored(here, hereEnds) && HalfMirrored(there, thereEnds)
    ensures Detaching(here, hereEnds, there, thereEnds, n, {})
  {
    assert thereEnds - {} == thereEnds;
  }

  /** The graph without the node n, at which no link ends. */
  lemma NodeLeftOut<N, L>(g: Graph<N, L>, n: N)
    requires WellLinked(g) && n in g.nodes
    requires forall l | l in g.sources :: g.sources[l] != n && g.dests[l] != n
    ensures WellLinked(LessNode(g, n))
  {
    hide HalfMirrored, Removed, Listed;
    LeaveOut(g.outs, g.sources, n);
    LeaveOut(g.ins, g.dests, n);
    RemovedFacts(g.nodes, n);
    RemovedOrder(g.nodes, g.keys, n);
  }

  function LessNode<N(==), L>(g: Graph<N, L>, n: N): Graph<N, L> {
    g.(nodes := Removed(g.nodes, n), keys := g.keys - {n}, outs := g.outs - {n}, ins := g.ins - {n})
  }

  lemma RemovedOrder<N>(q: seq<N>, keys: map<N, int>, n: N)
    requires Distinct(q) && forall m | m in q :: m in keys
    requires forall i, j | 0 <= i < j < |q| :: keys[q[i]] <= keys[q[j]]
    ensures
      var r := Removed(q, n);
      && (forall m | m in r :: m in keys - {n})
      && forall i, j | 0 <= i < j < |r| :: (keys - {n})[r[i]] <= (keys - {n})[r[j]]
  {
    RemovedFacts(q, n);
    var r, k := Removed(q, n), IndexOf(q, n);
    forall i, j | 0 <= i < j < |r| ensures keys[r[i]] <= keys[r[j]] {
      assert r[i] == q[if i < k then i else i + 1] && r[j] == q[if j < k then j else j + 1];
    }
  }

  lemma Halves<N, L>(g: Graph<N, L>, n: N)
    requires WellLinked(g) && n in g.nodes
    ensures n in g.outs && n in g.ins && g.outs.Keys == g.ins.Keys && g.sources.Keys == g.dests.Keys
    ensures HalfMirrored(g.outs, g.sources) && HalfMirrored(g.ins, g.dests)
    ensures Distinct(g.outs[n]) && Distinct(g.ins[n])
  {
  }

  lemma Reassembled<N, L>(g: Graph<N, L>, h: Graph<N, L>)
    requires WellLinked(g) && h.nodes == g.nodes && h.keys == g.keys
    requires h.outs.Keys == g.outs.Keys && h.ins.Keys == g.ins.Keys && h.sources.Keys == h.dests.Keys
    requires HalfMirrored(h.outs, h.sources) && HalfMirrored(h.ins, h.dests)
    ensures WellLinked(h)
  {
    hide HalfMirrored;
  }

  /** The elements of q before position i. */
  ghost function Before<T>(q: seq<T>, i: nat): set<T>
    requires i <= |q|
  {
    set x | x in q[..i]
  }

  lemma BeforeNext<T>(q: seq<T>, i: nat)
    requires Distinct(q) && i < |q|
    ensures q[i] !in Before(q, i) && Before(q, i + 1) == Before(q, i) + {q[i]}
  {
    assert q[..i + 1] == q[..i] + [q[i]];
  }

  lemma BeforeEnds<T>(q: seq<T>)
    ensures Before(q, 0) == {} && forall x :: x in Before(q, |q|) <==> x in q
  {
    assert q[..|q|] == q;
  }
}
