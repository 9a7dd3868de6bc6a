/** Weighted networks with link and node weights, the cost of a path to the target, and the invariant
    of a label-setting search that finds the cheapest ones. */
module ShortestPaths {
  import opened Adjacency

  /** A distance; Inf stands for INFINITY. */
  datatype Dist = Fin(r: real) | Inf

  function Add(a: Dist, b: Dist): Dist {
    if a.Fin? && b.Fin? then Fin(a.r + b.r) else Inf
  }

  predicate Less(a: Dist, b: Dist) {
    a.Fin? && (b.Inf? || a.r < b.r)
  }

  predicate AtMost(a: Dist, b: Dist) {
    !Less(b, a)
  }

  datatype Arc<N> = Arc(src: N, dst: N, weight: Dist)

  /** The nodes with their weights, and the usable links: enabled, and leaving an enabled node. */
  datatype Net<N, L> = Net(target: N, weight: map<N, Dist>, arcs: map<L, Arc<N>>)

  ghost predicate WellFormed<N, L>(net: Net<N, L>) {
    && net.target in net.weight
    && (forall n | n in net.weight :: AtMost(Fin(0.0), net.weight[n]))
    && (forall l | l in net.arcs ::
          && net.arcs[l].src in net.weight && net.arcs[l].dst in net.weight
          && Less(Fin(0.0), net.arcs[l].weight))
  }

  /** p leads from n to the target. */
  ghost predicate IsPath<N, L>(net: Net<N, L>, n: N, older p: seq<L>) {
    if p == [] then n == net.target
    else p[0] in net.arcs && net.arcs[p[0]].src == n && IsPath(net, net.arcs[p[0]].dst, p[1..])
  }

  /** The sum of the link weights and of the weights of the nodes between the links. */
  ghost function Cost<N, L>(net: Net<N, L>, p: seq<L>): Dist
    requires WellFormed(net) && forall l | l in p :: l in net.arcs
  {
    if p == [] then Fin(0.0)
    else
      var a := net.arcs[p[0]];
      if |p| == 1 then a.weight else Add(Add(a.weight, net.weight[a.dst]), Cost(net, p[1..]))
  }

  lemma {:induction false} PathUsesArcs<N, L>(net: Net<N, L>, n: N, p: seq<L>)
    requires IsPath(net, n, p)
    ensures forall l | l in p :: l in net.arcs
  {
    if p != [] {
      PathUsesArcs(net, net.arcs[p[0]].dst, p[1..]);
      assert p == [p[0]] + p[1..];
    }
  }

  /** Following the recorded first links from n gives p and ends in the target. */
  ghost predicate Follows<N, L>(net: Net<N, L>, out: map<N, L>, n: N, p: seq<L>) {
    if p == [] then n == net.target
    else n != net.target && n in out && p[0] == out[n] && p[0] in net.arcs
         && Follows(net, out, net.arcs[p[0]].dst, p[1..])
  }

  ghost predicate CheapestPath<N, L>(net: Net<N, L>, n: N, d: Dist, out: map<N, L>, older p: seq<L>)
    requires WellFormed(net)
  {
    && IsPath(net, n, p) && (forall l | l in p :: l in net.arcs)
    && Cost(net, p) == d && Follows(net, out, n, p)
  }

  /** The result of a search: no path is cheaper than the recorded distance, and where it is finite
      the recorded links lead to the target at exactly that cost. */
  ghost predicate Solved<N, L>(net: Net<N, L>, dist: map<N, Dist>, out: map<N, L>)
    requires WellFormed(net)
  {
    && dist.Keys == net.weight.Keys
    && (forall n, p | n in dist && IsPath(net, n, p) ::
          (forall l | l in p :: l in net.arcs) ==> AtMost(dist[n], Cost(net, p)))
    && (forall n | n in dist && dist[n].Fin? :: exists p :: CheapestPath(net, n, dist[n], out, p))
  }

  /** What passing the link l costs on the way to the target. */
  ghost function StepCost<N, L>(net: Net<N, L>, l: L): (c: Dist)
    requires WellFormed(net) && l in net.arcs
    ensures Less(Fin(0.0), c)
  {
    var a := net.arcs[l];
    if a.dst == net.target then a.weight else Add(a.weight, net.weight[a.dst])
  }

  // ---------- the search invariant ----------

  ghost predicate Ordered<N>(dist: map<N, Dist>, q: seq<N>)
    requires forall n | n in q :: n in dist
  {
    forall i, j | 0 <= i < j < |q| :: AtMost(dist[q[i]], dist[q[j]])
  }

  /** The recorded link of n is usable, leaves n, and explains the distance of n by that of a node popped
      before. */
  ghost predicate Explained<N, L>(net: Net<N, L>, dist: map<N, Dist>, out: map<N, L>, popped: seq<N>, n: N)
    requires WellFormed(net) && dist.Keys == net.weight.Keys && n in dist
  {
    n in out && out[n] in net.arcs && net.arcs[out[n]].src == n
    && net.arcs[out[n]].dst in popped
    && dist[n] == Add(dist[net.arcs[out[n]].dst], StepCost(net, out[n]))
  }

  /** The link l gives its source no shorter way. */
  ghost predicate Relaxed<N, L>(net: Net<N, L>, dist: map<N, Dist>, l: L)
    requires WellFormed(net) && dist.Keys == net.weight.Keys && l in net.arcs
  {
    AtMost(dist[net.arcs[l].src], Add(dist[net.arcs[l].dst], StepCost(net, l)))
  }

  /** Exactly the listed nodes have a finite distance, each is listed once, in order of distance. */
  ghost predicate Reached<N>(dist: map<N, Dist>, listed: seq<N>) {
    && Distinct(listed)
    && (forall n | n in listed :: n in dist)
    && (forall n | n in dist :: dist[n].Fin? <==> n in listed)
    && Ordered(dist, listed)
  }

  ghost predicate Rooted<N, L>(net: Net<N, L>, dist: map<N, Dist>, out: map<N, L>, popped: seq<N>, q: seq<N>) {
    && net.target in dist && dist[net.target] == Fin(0.0) && net.target !in out
    && (if popped == [] then q == [net.target] else popped[0] == net.target)
  }

  ghost predicate Tree<N, L>(net: Net<N, L>, dist: map<N, Dist>, out: map<N, L>, popped: seq<N>, q: seq<N>)
    requires WellFormed(net) && dist.Keys == net.weight.Keys
  {
    && (forall n | n in q && n != net.target :: n in dist && Explained(net, dist, out, popped, n))
    && (forall i | 0 < i < |popped| :: popped[i] in dist && Explained(net, dist, out, popped[..i], popped[i]))
  }

  ghost predicate DoneLinks<N, L>(net: Net<N, L>, dist: map<N, Dist>, popped: seq<N>, done: set<L>)
    requires WellFormed(net) && dist.Keys == net.weight.Keys
  {
    forall l | l in done :: l in net.arcs && net.arcs[l].dst in popped && Relaxed(net, dist, l)
  }

  /** The nodes in popped have their final distance, q holds the other nodes reached so far in order of
      distance, and the links in done have been relaxed. */
  ghost predicate Search<N, L>(net: Net<N, L>, dist: map<N, Dist>, out: map<N, L>, popped: seq<N>, q: seq<N>,
                               done: set<L>)
  {
    && WellFormed(net) && dist.Keys == net.weight.Keys
    && Reached(dist, popped + q)
    && Rooted(net, dist, out, popped, q)
    && Tree(net, dist, out, popped, q)
    && DoneLinks(net, dist, popped, done)
  }

  ghost predicate AllRelaxed<N, L>(net: Net<N, L>, popped: seq<N>, done: set<L>) {
    forall l | l in net.arcs && net.arcs[l].dst in popped :: l in done
  }

  lemma SearchStart<N, L>(net: Net<N, L>, dist: map<N, Dist>)
    requires WellFormed(net) && dist.Keys == net.weight.Keys
    requires forall n | n in dist :: dist[n] == if n == net.target then Fin(0.0) else Inf
    ensures Search(net, dist, map[], [], [net.target], {})
  {
  }

  /** Popping the front of the queue. */
  lemma Pop<N, L>(net: Net<N, L>, dist: map<N, Dist>, out: map<N, L>, popped: seq<N>, q: seq<N>, done: set<L>)
    requires Search(net, dist, out, popped, q, done) && q != []
    ensures q[0] in net.weight && q[0] !in popped
    ensures Search(net, dist, out, popped + [q[0]], q[1..], done)
  {
    hide Tree, Relaxed, Ordered;
    var n, popped' := q[0], popped + [q[0]];
    assert popped' + q[1..] == popped + q;
    assert forall j | 0 <= j < |popped| :: popped[j] == (popped + q)[j] != (popped + q)[|popped|] == n;
    assert n in popped + q;
    assert popped != [] ==> net.target in popped;
    PopTree(net, dist, out, popped, q);
  }

  lemma PopTree<N, L>(net: Net<N, L>, dist: map<N, Dist>, out: map<N, L>, popped: seq<N>, q: seq<N>)
    requires WellFormed(net) && dist.Keys == net.weight.Keys && q != []
    requires Tree(net, dist, out, popped, q) && (popped != [] ==> q[0] != net.target)
    ensures Tree(net, dist, out, popped + [q[0]], q[1..])
  {
    hide Explained;
    var n, popped' := q[0], popped + [q[0]];
    forall m | m in q[1..] && m != net.target ensures m in dist && Explained(net, dist, out, popped', m) {
      assert m in q;
      MoreExplained(net, dist, out, popped, n, m);
    }
    forall i | 0 < i < |popped'| ensures popped'[i] in dist && Explained(net, dist, out, popped'[..i], popped'[i]) {
      if i == |popped| {
        assert popped'[..i] == popped && n in q;
      } else {
        assert popped'[..i] == popped[..i];
      }
    }
  }

  lemma MoreExplained<N, L>(net: Net<N, L>, dist: map<N, Dist>, out: map<N, L>, popped: seq<N>, m: N, n: N)
    requires WellFormed(net) && dist.Keys == net.weight.Keys && n in dist && Explained(net, dist, out, popped, n)
    ensures Explained(net, dist, out, popped + [m], n)
  {
  }

  lemma WithoutOne<N>(a: seq<N>, b: seq<N>, k: nat)
    requires k < |b|
    ensures a + (b[..k] + b[k + 1..]) == (a + b)[..|a| + k] + (a + b)[|a| + k + 1..]
  {
    assert (a + b)[..|a| + k] == a + b[..k];
    assert (a + b)[|a| + k + 1..] == b[k + 1..];
  }

  lemma RemovedAt<N>(popped: seq<N>, q: seq<N>, n: N, k: nat)
    requires n in q && k == IndexOf(q, n) && k < |q|
    ensures (popped + q)[|popped| + k] == n
    ensures popped + Removed(q, n) == (popped + q)[..|popped| + k] + (popped + q)[|popped| + k + 1..]
  {
    assert Removed(q, n) == q[..k] + q[k + 1..];
    hide IndexOf, Removed;
    WithoutOne(popped, q, k);
  }

  /** Whatever the queue held except n, still in order and without n. */
  lemma RemovedKeepsOrder<N>(dist: map<N, Dist>, popped: seq<N>, q: seq<N>, n: N)
    requires Distinct(popped + q) && (forall m | m in popped + q :: m in dist) && Ordered(dist, popped + q)
    requires n !in popped
    ensures
      var q' := Removed(q, n);
      && n !in popped + q' && Distinct(popped + q')
      && (forall m :: m in popped + q' <==> m in popped + q && m != n)
      && Ordered(dist, popped + q')
  {
    hide IndexOf;
    var k := IndexOf(q, n);
    if n in q {
      RemovedAt(popped, q, n, k);
      hide Removed, Distinct, Ordered;
      WithoutKeepsOrder(dist, popped + q, |popped| + k);
    }
  }

  lemma WithoutKeepsOrder<N>(dist: map<N, Dist>, s: seq<N>, k: nat)
    requires k < |s| && Distinct(s) && (forall m | m in s :: m in dist) && Ordered(dist, s)
    ensures
      var s' := s[..k] + s[k + 1..];
      Distinct(s') && (forall m :: m in s' <==> m in s && m != s[k]) && Ordered(dist, s')
  {
    var s' := s[..k] + s[k + 1..];
    forall m | m in s && m != s[k] ensures m in s' {
      var j :| 0 <= j < |s| && s[j] == m;
      assert s'[if j < k then j else j - 1] == m;
    }
    forall i, j | 0 <= i < j < |s'| ensures s'[i] != s'[j] && AtMost(dist[s'[i]], dist[s'[j]]) {
      var i', j' := if i < k then i else i + 1, if j < k then j else j + 1;
      assert s'[i] == s[i'] && s'[j] == s[j'];
    }
  }

  /** Where list iteration stops: the first element farther away than d, if any. */
  ghost predicate InsertionPoint<N>(dist: map<N, Dist>, q: seq<N>, d: Dist, i: nat)
    requires forall m | m in q :: m in dist
  {
    i <= |q| && (forall j | 0 <= j < i :: AtMost(dist[q[j]], d)) && (i < |q| ==> Less(d, dist[q[i]]))
  }

  function Inserted<N>(q: seq<N>, i: nat, n: N): seq<N>
    requires i <= |q|
  {
    q[..i] + [n] + q[i..]
  }

  lemma InsertedKeepsOrder<N>(dist: map<N, Dist>, popped: seq<N>, q: seq<N>, n: N, d: Dist, i: nat)
    requires (forall m | m in popped + q :: m in dist) && (forall m | m in q :: m in dist)
    requires Distinct(popped + q) && Ordered(dist, popped + q) && n !in popped + q
    requires (forall m | m in popped :: AtMost(dist[m], d)) && InsertionPoint(dist, q, d, i)
    ensures
      var all := popped + Inserted(q, i, n);
      && Distinct(all) && (forall m :: m in all <==> m in popped + q || m == n)
      && (forall m | m in all :: m in dist[n := d]) && Ordered(dist[n := d], all)
  {
    var before, at := popped + q, |popped| + i;
    assert popped + Inserted(q, i, n) == before[..at] + [n] + before[at..];
    forall j | 0 <= j < |before| ensures if j < at then AtMost(dist[before[j]], d) else AtMost(d, dist[before[j]]) {
      if j < |popped| {
        assert before[j] == popped[j] && popped[j] in popped;
      } else {
        assert before[j] == q[j - |popped|];
        if j >= at { assert before[at] == q[i] && AtMost(dist[before[at]], dist[before[j]]); }
      }
    }
    WithKeepsOrder(dist, before, at, n, d);
  }

  lemma WithKeepsOrder<N>(dist: map<N, Dist>, s: seq<N>, k: nat, n: N, d: Dist)
    requires k <= |s| && Distinct(s) && (forall m | m in s :: m in dist) && Ordered(dist, s) && n !in s
    requires forall j | 0 <= j < |s| :: if j < k then AtMost(dist[s[j]], d) else AtMost(d, dist[s[j]])
    ensures
      var s' := s[..k] + [n] + s[k..];
      Distinct(s') && (forall m :: m in s' <==> m in s || m == n) && Ordered(dist[n := d], s')
  {
    var s' := s[..k] + [n] + s[k..];
    forall m | m in s ensures m in s' {
      var j :| 0 <= j < |s| && s[j] == m;
      assert s'[if j < k then j else j + 1] == m;
    }
    assert s'[k] == n;
    forall i, j | 0 <= i < j < |s'|
      ensures s'[i] != s'[j] && AtMost(dist[n := d][s'[i]], dist[n := d][s'[j]])
    {
      var i', j' := if i < k then i else i - 1, if j < k then j else j - 1;
      assert i != k ==> s'[i] == s[i'] && s[i'] in s;
      assert j != k ==> s'[j] == s[j'] && s[j'] in s;
    }
  }

  /** The nodes popped before are no farther away than the one popped last. */
  lemma LastIsFarthest<N, L>(net: Net<N, L>, dist: map<N, Dist>, out: map<N, L>, popped: seq<N>, q: seq<N>,
                             done: set<L>)
    requires Search(net, dist, out, popped, q, done) && popped != []
    ensures popped[|popped| - 1] in dist
    ensures forall m | m in popped :: m in dist && AtMost(dist[m], dist[popped[|popped| - 1]])
  {
    var last, all := popped[|popped| - 1], popped + q;
    assert all[|popped| - 1] == last && last in all;
    forall m | m in popped ensures m in dist && AtMost(dist[m], dist[last]) {
      var j :| 0 <= j < |popped| && popped[j] == m;
      assert all[j] == m && m in all;
    }
  }

  /** A link into the node popped last gives its source a shorter way: the source is not popped yet, and
      is in the queue exactly when it had a finite distance. */
  lemma ShorterSource<N, L>(net: Net<N, L>, dist: map<N, Dist>, out: map<N, L>, popped: seq<N>, q: seq<N>,
                            done: set<L>, l: L)
    requires Search(net, dist, out, popped, q, done) && popped != []
    requires l in net.arcs && net.arcs[l].dst == popped[|popped| - 1]
    requires Less(Add(dist[net.arcs[l].dst], StepCost(net, l)), dist[net.arcs[l].src])
    ensures
      var src := net.arcs[l].src;
      && src !in popped && src != net.target && (dist[src].Fin? <==> src in q)
    ensures forall m | m in popped :: m in dist && AtMost(dist[m], Add(dist[net.arcs[l].dst], StepCost(net, l)))
  {
    hide Explained, Relaxed, Ordered, Distinct;
    LastIsFarthest(net, dist, out, popped, q, done);
    assert net.target in popped;
  }

  lemma RelaxTree<N, L>(net: Net<N, L>, dist: map<N, Dist>, out: map<N, L>, popped: seq<N>, q: seq<N>, q': seq<N>,
                        l: L, d: Dist)
    requires WellFormed(net) && dist.Keys == net.weight.Keys && l in net.arcs
    requires Tree(net, dist, out, popped, q) && net.arcs[l].src !in popped && net.arcs[l].dst in popped
    requires forall m | m in q' :: m in q || m == net.arcs[l].src
    requires d == Add(dist[net.arcs[l].dst], StepCost(net, l))
    ensures Tree(net, dist[net.arcs[l].src := d], out[net.arcs[l].src := l], popped, q')
  {
    var src := net.arcs[l].src;
    var dist', out' := dist[src := d], out[src := l];
    forall i | 0 < i < |popped| ensures popped[i] in dist' && Explained(net, dist', out', popped[..i], popped[i]) {
      assert Explained(net, dist, out, popped[..i], popped[i]);
      assert popped[i] in popped;
    }
    forall n | n in q' && n != net.target ensures n in dist' && Explained(net, dist', out', popped, n) {
      if n != src { assert Explained(net, dist, out, popped, n); }
    }
  }

  lemma RelaxDone<N, L>(net: Net<N, L>, dist: map<N, Dist>, popped: seq<N>, done: set<L>, l: L, d: Dist)
    requires WellFormed(net) && dist.Keys == net.weight.Keys && l in net.arcs
    requires DoneLinks(net, dist, popped, done) && net.arcs[l].src !in popped && net.arcs[l].dst in popped
    requires d == Add(dist[net.arcs[l].dst], StepCost(net, l)) && Less(d, dist[net.arcs[l].src])
    ensures DoneLinks(net, dist[net.arcs[l].src := d], popped, done + {l})
  {
    var dist' := dist[net.arcs[l].src := d];
    forall k | k in done + {l} ensures k in net.arcs && net.arcs[k].dst in popped && Relaxed(net, dist', k) {
      if k in done { assert Relaxed(net, dist, k); }
    }
  }

  lemma RelaxReached<N>(dist: map<N, Dist>, popped: seq<N>, q: seq<N>, src: N, d: Dist, i: nat)
    requires Reached(dist, popped + q) && src !in popped && src in dist && d.Fin?
    requires forall m | m in popped :: m in dist && AtMost(dist[m], d)
    requires (forall m | m in Removed(q, src) :: m in dist) && InsertionPoint(dist, Removed(q, src), d, i)
    ensures Reached(dist[src := d], popped + Inserted(Removed(q, src), i, src))
  {
    hide Removed, Inserted, Distinct, Ordered;
    var rest, all := Removed(q, src), popped + Inserted(Removed(q, src), i, src);
    RemovedKeepsOrder(dist, popped, q, src);
    assert forall m | m in popped + rest :: m in popped + q && m in dist;
    InsertedKeepsOrder(dist, popped, rest, src, d, i);
    forall n | n in dist[src := d] ensures dist[src := d][n].Fin? <==> n in all {
      assert n in all <==> n in popped + rest || n == src;
      assert n in popped + rest <==> n in popped + q && n != src;
    }
  }

  /** The relaxation step with its queue update. */
  lemma Relax<N, L>(net: Net<N, L>, dist: map<N, Dist>, out: map<N, L>, popped: seq<N>, q: seq<N>, done: set<L>, l: L,
                    i: nat)
    requires Search(net, dist, out, popped, q, done) && popped != []
    requires l in net.arcs && net.arcs[l].dst == popped[|popped| - 1]
    requires Less(Add(dist[net.arcs[l].dst], StepCost(net, l)), dist[net.arcs[l].src])
    requires (forall m | m in Removed(q, net.arcs[l].src) :: m in dist)
    requires InsertionPoint(dist, Removed(q, net.arcs[l].src), Add(dist[net.arcs[l].dst], StepCost(net, l)), i)
    ensures
      var src, d := net.arcs[l].src, Add(dist[net.arcs[l].dst], StepCost(net, l));
      Search(net, dist[src := d], out[src := l], popped, Inserted(Removed(q, src), i, src), done + {l})
  {
    hide *;
    SearchParts(net, dist, out, popped, q, done);
    ArcEnds(net, l);
    ShorterSource(net, dist, out, popped, q, done, l);
    var src, d := net.arcs[l].src, Add(dist[net.arcs[l].dst], StepCost(net, l));
    ShorterIsFinite(d, dist[src]);
    PointInRange(dist, Removed(q, src), d, i);
    var q' := Inserted(Removed(q, src), i, src);
    QueueElements(q, src, i);
    RelaxReached(dist, popped, q, src, d, i);
    RelaxRooted(net, dist, out, popped, q, q', l, d);
    RelaxTree(net, dist, out, popped, q, q', l, d);
    RelaxDone(net, dist, popped, done, l, d);
    SearchFrom(net, dist[src := d], out[src := l], popped, q', done + {l});
  }

  lemma SearchParts<N, L>(net: Net<N, L>, dist: map<N, Dist>, out: map<N, L>, popped: seq<N>, q: seq<N>, done: set<L>)
    requires Search(net, dist, out, popped, q, done)
    ensures WellFormed(net) && dist.Keys == net.weight.Keys
    ensures Reached(dist, popped + q) && Rooted(net, dist, out, popped, q)
    ensures Tree(net, dist, out, popped, q) && DoneLinks(net, dist, popped, done)
  {
  }

  lemma SearchFrom<N, L>(net: Net<N, L>, dist: map<N, Dist>, out: map<N, L>, popped: seq<N>, q: seq<N>, done: set<L>)
    requires WellFormed(net) && dist.Keys == net.weight.Keys
    requires Reached(dist, popped + q) && Rooted(net, dist, out, popped, q)
    requires Tree(net, dist, out, popped, q) && DoneLinks(net, dist, popped, done)
    ensures Search(net, dist, out, popped, q, done)
  {
  }

  lemma ArcEnds<N, L>(net: Net<N, L>, l: L)
    requires WellFormed(net) && l in net.arcs
    ensures net.arcs[l].src in net.weight && net.arcs[l].dst in net.weight
  {
  }

  lemma ShorterIsFinite(a: Dist, b: Dist)
    requires Less(a, b)
    ensures a.Fin?
  {
  }

  lemma PointInRange<N>(dist: map<N, Dist>, q: seq<N>, d: Dist, i: nat)
    requires (forall n | n in q :: n in dist) && InsertionPoint(dist, q, d, i)
    ensures i <= |q|
  {
  }

  lemma RelaxRooted<N, L>(net: Net<N, L>, dist: map<N, Dist>, out: map<N, L>, popped: seq<N>, q: seq<N>, q': seq<N>,
                          l: L, d: Dist)
    requires l in net.arcs && net.arcs[l].src != net.target && popped != [] && Rooted(net, dist, out, popped, q)
    ensures Rooted(net, dist[net.arcs[l].src := d], out[net.arcs[l].src := l], popped, q')
  {
  }

  lemma QueueElements<N>(q: seq<N>, n: N, i: nat)
    requires i <= |Removed(q, n)|
    ensures forall m :: m in Inserted(Removed(q, n), i, n) ==> m in q || m == n
  {
  }

  /** A link that gives no shorter way, or an infinite one. */
  lemma NoRelax<N, L>(net: Net<N, L>, dist: map<N, Dist>, out: map<N, L>, popped: seq<N>, q: seq<N>, done: set<L>, l: L)
    requires Search(net, dist, out, popped, q, done)
    requires l in net.arcs && net.arcs[l].dst in popped
    requires !Less(Add(dist[net.arcs[l].dst], StepCost(net, l)), dist[net.arcs[l].src])
    ensures Search(net, dist, out, popped, q, done + {l})
  {
  }

  // ---------- the result ----------

  /** When the queue is empty and every link into a popped node is relaxed, no path is cheaper. */
  lemma {:induction false} NoCheaperPath<N, L>(net: Net<N, L>, dist: map<N, Dist>, out: map<N, L>, popped: seq<N>,
                                               done: set<L>, n: N, p: seq<L>)
    requires Search(net, dist, out, popped, [], done) && AllRelaxed(net, popped, done)
    requires n in dist && IsPath(net, n, p) && forall l | l in p :: l in net.arcs
    ensures AtMost(dist[n], Cost(net, p))
    ensures AtMost(Fin(0.0), Cost(net, p))
  {
    if p != [] {
      var a := net.arcs[p[0]];
      NoCheaperPath(net, dist, out, popped, done, a.dst, p[1..]);
      assert popped + [] == popped;
      if dist[a.dst].Fin? { assert Relaxed(net, dist, p[0]); }
    }
  }

  /** The recorded links lead from a popped node to the target at exactly its distance. */
  lemma {:induction false} RecordedPath<N, L>(net: Net<N, L>, dist: map<N, Dist>, out: map<N, L>, popped: seq<N>,
                                              q: seq<N>, done: set<L>, i: nat)
    returns (p: seq<L>)
    requires Search(net, dist, out, popped, q, done) && i < |popped|
    ensures popped[i] in dist && CheapestPath(net, popped[i], dist[popped[i]], out, p)
  {
    var n := popped[i];
    assert (popped + q)[i] == n && n in popped + q;
    if n == net.target {
      p := [];
    } else {
      assert i > 0;
      assert Explained(net, dist, out, popped[..i], n);
      var l := out[n];
      var j :| 0 <= j < i && popped[..i][j] == net.arcs[l].dst;
      var rest := RecordedPath(net, dist, out, popped, q, done, j);
      p := [l] + rest;
      assert p[1..] == rest;
    }
  }

  lemma SearchEnd<N, L>(net: Net<N, L>, dist: map<N, Dist>, out: map<N, L>, popped: seq<N>, done: set<L>)
    requires Search(net, dist, out, popped, [], done) && AllRelaxed(net, popped, done)
    ensures Solved(net, dist, out)
  {
    forall n, p | n in dist && IsPath(net, n, p) && forall l | l in p :: l in net.arcs
      ensures AtMost(dist[n], Cost(net, p))
    {
      NoCheaperPath(net, dist, out, popped, done, n, p);
    }
    forall n | n in dist && dist[n].Fin? ensures exists p :: CheapestPath(net, n, dist[n], out, p) {
      assert popped + [] == popped;
      var i :| 0 <= i < |popped| && popped[i] == n;
      var p := RecordedPath(net, dist, out, popped, [], done, i);
    }
  }

  /** When the queue is empty, exactly the nodes with finite distance have been in it, each once. */
  lemma AllPopped<N, L>(net: Net<N, L>, dist: map<N, Dist>, out: map<N, L>, popped: seq<N>, done: set<L>)
    requires Search(net, dist, out, popped, [], done)
    ensures Reached(dist, popped)
  {
    assert popped + [] == popped;
  }

  /** The distances of a solution are determined by the network. */
  lemma SolutionIsUnique<N, L>(net: Net<N, L>, d1: map<N, Dist>, o1: map<N, L>, d2: map<N, Dist>, o2: map<N, L>)
    requires WellFormed(net) && Solved(net, d1, o1) && Solved(net, d2, o2)
    ensures d1 == d2
  {
    forall n | n in d1 ensures d1[n] == d2[n] {
      SolutionAtMost(net, d1, o1, d2, o2, n);
      SolutionAtMost(net, d2, o2, d1, o1, n);
    }
  }

  lemma SolutionAtMost<N, L>(net: Net<N, L>, d1: map<N, Dist>, o1: map<N, L>, d2: map<N, Dist>, o2: map<N, L>, n: N)
    requires WellFormed(net) && Solved(net, d1, o1) && Solved(net, d2, o2) && n in d1
    ensures AtMost(d1[n], d2[n])
  {
    if d2[n].Fin? {
      var p :| CheapestPath(net, n, d2[n], o2, p);
      assert IsPath(net, n, p);
    }
  }

  // ---------- counting hops ----------

  /** The same network with every link of weight one and every node of weight zero. */
  ghost function HopNet<N, L>(net: Net<N, L>): Net<N, L> {
    Net(net.target, map n | n in net.weight :: Fin(0.0),
        map l | l in net.arcs :: Arc(net.arcs[l].src, net.arcs[l].dst, Fin(1.0)))
  }

  lemma {:induction false} HopCost<N, L>(net: Net<N, L>, p: seq<L>)
    requires WellFormed(HopNet(net)) && forall l | l in p :: l in net.arcs
    ensures Cost(HopNet(net), p) == Fin(|p| as real)
  {
    if p != [] {
      HopCost(net, p[1..]);
      assert p[0] in net.arcs;
    }
  }

  /** Nothing in the queue is more than one hop beyond the node popped last. */
  ghost predicate WithinOneHop<N>(dist: map<N, Dist>, popped: seq<N>, q: seq<N>) {
    && (forall n | n in popped + q :: n in dist)
    && (forall n | n in q :: n in dist)
    && (popped == [] || popped[|popped| - 1] in dist)
    && (popped == [] || forall i | 0 <= i < |q| :: AtMost(dist[q[i]], Add(dist[popped[|popped| - 1]], Fin(1.0))))
  }

  lemma PopHop<N, L>(net: Net<N, L>, dist: map<N, Dist>, out: map<N, L>, popped: seq<N>, q: seq<N>, done: set<L>)
    requires Search(HopNet(net), dist, out, popped, q, done) && q != [] && WithinOneHop(dist, popped, q)
    ensures WithinOneHop(dist, popped + [q[0]], q[1..])
  {
    hide Tree, DoneLinks, Distinct;
    var all := popped + q;
    assert popped + [q[0]] + q[1..] == all;
    if popped != [] {
      assert all[|popped| - 1] == popped[|popped| - 1] && all[|popped|] == q[0];
      forall i | 0 <= i < |q[1..]| ensures AtMost(dist[q[1..][i]], Add(dist[q[0]], Fin(1.0))) {
        assert q[1..][i] == q[i + 1];
      }
    }
  }

  /** A node seen for the first time goes to the end of the queue: a relaxation step. */
  lemma VisitNew<N, L>(net: Net<N, L>, dist: map<N, Dist>, out: map<N, L>, popped: seq<N>, q: seq<N>, done: set<L>,
                       l: L)
    requires Search(HopNet(net), dist, out, popped, q, done) && popped != [] && WithinOneHop(dist, popped, q)
    requires l in net.arcs && net.arcs[l].dst == popped[|popped| - 1]
    requires net.arcs[l].src in dist && dist[net.arcs[l].src] == Inf
    ensures
      var src, d := net.arcs[l].src, Add(dist[net.arcs[l].dst], Fin(1.0));
      && Search(HopNet(net), dist[src := d], out[src := l], popped, q + [src], done + {l})
      && WithinOneHop(dist[src := d], popped, q + [src])
  {
    var src, d := net.arcs[l].src, Add(dist[net.arcs[l].dst], Fin(1.0));
    assert src !in popped + q;
    assert (popped + q)[|popped| - 1] == popped[|popped| - 1];
    assert StepCost(HopNet(net), l) == Fin(1.0);
    assert Inserted(q, |q|, src) == q + [src];
    Relax(HopNet(net), dist, out, popped, q, done, l, |q|);
    assert popped[|popped| - 1] in popped;
    forall i | 0 <= i < |q + [src]| ensures AtMost(dist[src := d][(q + [src])[i]], d) {
      if i < |q| { assert q[i] in q; }
    }
  }

  /** A node seen before is not farther away than the link would make it. */
  lemma VisitOld<N, L>(net: Net<N, L>, dist: map<N, Dist>, out: map<N, L>, popped: seq<N>, q: seq<N>, done: set<L>,
                       l: L)
    requires Search(HopNet(net), dist, out, popped, q, done) && popped != [] && WithinOneHop(dist, popped, q)
    requires l in net.arcs && net.arcs[l].dst == popped[|popped| - 1]
    requires net.arcs[l].src in dist && dist[net.arcs[l].src] != Inf
    ensures Search(HopNet(net), dist, out, popped, q, done + {l})
  {
    var src, last, all := net.arcs[l].src, popped[|popped| - 1], popped + q;
    assert StepCost(HopNet(net), l) == Fin(1.0);
    assert src in all;
    var i :| 0 <= i < |all| && all[i] == src;
    assert all[|popped| - 1] == last;
    if i >= |popped| {
      assert q[i - |popped|] == src;
    } else {
      assert AtMost(dist[src], dist[last]);
    }
    NoRelax(HopNet(net), dist, out, popped, q, done, l);
  }

  /** The unweighted search finds the fewest hops. */
  lemma FewestHops<N, L>(net: Net<N, L>, dist: map<N, Dist>, out: map<N, L>, n: N) returns (p: seq<L>)
    requires WellFormed(HopNet(net)) && Solved(HopNet(net), dist, out) && n in dist && dist[n].Fin?
    ensures CheapestPath(HopNet(net), n, dist[n], out, p) && dist[n] == Fin(|p| as real)
    ensures forall q | IsPath(HopNet(net), n, q) :: |p| <= |q|
  {
    p :| CheapestPath(HopNet(net), n, dist[n], out, p);
    HopCost(net, p);
    forall q | IsPath(HopNet(net), n, q) ensures |p| <= |q| {
      PathUsesArcs(HopNet(net), n, q);
      HopCost(net, q);
    }
  }

  /** With unit link weights and free nodes, weighted search and hop counting agree. */
  lemma HopsAgreeWithWeights<N, L>(net: Net<N, L>, d1: map<N, Dist>, o1: map<N, L>, d2: map<N, Dist>, o2: map<N, L>)
    requires WellFormed(net) && WellFormed(HopNet(net))
    requires forall l | l in net.arcs :: net.arcs[l].weight == Fin(1.0)
    requires forall n | n in net.weight :: net.weight[n] == Fin(0.0)
    requires Solved(net, d1, o1) && Solved(HopNet(net), d2, o2)
    ensures d1 == d2
  {
    assert HopNet(net).weight == net.weight;
    assert HopNet(net).arcs == net.arcs;
    SolutionIsUnique(net, d1, o1, d2, o2);
  }
}
