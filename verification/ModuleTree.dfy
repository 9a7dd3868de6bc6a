/** A tree of modules and the order in which inet/src/base/LifecycleController.cc traverses it. */
module ModuleTree {
  /** A module; only those that implement ILifecycle take part. */
  datatype Module = Module(id: nat, participates: bool, children: seq<Module>)

  /** The modules that take part, in the order of the traversal. */
  function Preorder(m: Module): seq<nat>
    decreases m, 0
  {
    (if m.participates then [m.id] else []) + PreorderOf(m, |m.children|)
  }

  /** Those under the first n children. */
  function PreorderOf(m: Module, n: nat): seq<nat>
    requires n <= |m.children|
    decreases m, 0, n
  {
    if n == 0 then [] else PreorderOf(m, n - 1) + Preorder(m.children[n - 1])
  }

  // ---------- Places in the tree ----------

  /** The way from a module down to one inside it, child by child. */
  type Path = seq<nat>

  predicate IsPath(m: Module, path: Path) {
    path == [] || (path[0] < |m.children| && IsPath(m.children[path[0]], path[1..]))
  }

  function At(m: Module, path: Path): Module
    requires IsPath(m, path)
  {
    if path == [] then m else At(m.children[path[0]], path[1..])
  }

  /** A module comes before what is inside it, and what is inside a child before what is inside later ones. */
  predicate Precedes(p: Path, q: Path) {
    q != [] && (p == [] || p[0] < q[0] || (p[0] == q[0] && Precedes(p[1..], q[1..])))
  }

  /** The module at the end of the path takes part. */
  predicate TakesPart(m: Module, path: Path) {
    IsPath(m, path) && At(m, path).participates
  }

  /** Some module inside m takes part under this id. */
  ghost predicate Participant(m: Module, id: nat) {
    exists path :: TakesPart(m, path) && At(m, path).id == id
  }

  /** No two modules inside m take part under one id. */
  ghost predicate DistinctIds(m: Module) {
    forall p, q | TakesPart(m, p) && TakesPart(m, q) && p != q :: At(m, p).id != At(m, q).id
  }

  ghost predicate NoDuplicates(s: seq<nat>) {
    forall i, j | 0 <= i < j < |s| :: s[i] != s[j]
  }

  // ---------- What the traversal lists ----------

  /** ids are those of the modules at these places, and the places are in order. */
  ghost predicate Listing(m: Module, places: seq<Path>, ids: seq<nat>) {
    && |places| == |ids|
    && (forall k | 0 <= k < |ids| :: TakesPart(m, places[k]) && At(m, places[k]).id == ids[k])
    && (forall i, j | 0 <= i < j < |places| :: Precedes(places[i], places[j]))
  }

  function Inside(child: nat, places: seq<Path>): seq<Path> {
    seq(|places|, k requires 0 <= k < |places| => [child] + places[k])
  }

  lemma InsideChild(m: Module, child: nat, path: Path)
    requires child < |m.children|
    ensures IsPath(m, [child] + path) <==> IsPath(m.children[child], path)
    ensures IsPath(m.children[child], path) ==> At(m, [child] + path) == At(m.children[child], path)
  {
    assert ([child] + path)[1..] == path;
  }

  lemma PrecedesInside(child: nat, p: Path, q: Path)
    ensures Precedes([child] + p, [child] + q) <==> Precedes(p, q)
  {
    assert ([child] + p)[1..] == p && ([child] + q)[1..] == q;
  }

  lemma ListingInside(m: Module, child: nat, places: seq<Path>, ids: seq<nat>)
    requires child < |m.children| && Listing(m.children[child], places, ids)
    ensures Listing(m, Inside(child, places), ids)
  {
    forall k | 0 <= k < |ids|
      ensures TakesPart(m, Inside(child, places)[k]) && At(m, Inside(child, places)[k]).id == ids[k]
    {
      InsideChild(m, child, places[k]);
    }
    forall i, j | 0 <= i < j < |places|
      ensures Precedes(Inside(child, places)[i], Inside(child, places)[j])
    {
      PrecedesInside(child, places[i], places[j]);
    }
  }

  lemma ListingsAppend(m: Module, a: seq<Path>, x: seq<nat>, b: seq<Path>, y: seq<nat>)
    requires Listing(m, a, x) && Listing(m, b, y)
    requires forall i, j | 0 <= i < |a| && 0 <= j < |b| :: Precedes(a[i], b[j])
    ensures Listing(m, a + b, x + y)
  {
  }

  /** What is listed for a child, seen from its parent. */
  lemma ListedUnderChild(m: Module, child: nat, places: seq<Path>, ids: seq<nat>) returns (more: seq<Path>)
    requires child < |m.children| && Listing(m.children[child], places, ids)
    requires forall path | TakesPart(m.children[child], path) :: path in places
    ensures Listing(m, more, ids)
    ensures forall path | path in more :: path != [] && path[0] == child
    ensures forall path | TakesPart(m, path) && path != [] && path[0] == child :: path in more
  {
    more := Inside(child, places);
    ListingInside(m, child, places, ids);
    hide Listing;
    forall path | TakesPart(m, path) && path != [] && path[0] == child
      ensures path in more
    {
      var rest := path[1..];
      assert path == [child] + rest;
      InsideChild(m, child, rest);
      assert TakesPart(m.children[child], rest);
      var k :| 0 <= k < |places| && places[k] == rest;
      assert more[k] == path;
    }
  }

  lemma ListedBefore(a: seq<Path>, b: seq<Path>, child: nat)
    requires forall path | path in a :: path != [] && path[0] < child
    requires forall path | path in b :: path != [] && path[0] == child
    ensures forall i, j | 0 <= i < |a| && 0 <= j < |b| :: Precedes(a[i], b[j])
  {
    forall i, j | 0 <= i < |a| && 0 <= j < |b|
      ensures Precedes(a[i], b[j])
    {
      assert a[i] in a && b[j] in b;
    }
  }

  lemma OneMoreChild(m: Module, n: nat)
    requires 0 < n <= |m.children|
    ensures PreorderOf(m, n) == PreorderOf(m, n - 1) + Preorder(m.children[n - 1])
  {
  }

  /** The traversal lists every module that takes part, each at its place, in the order of the places. */
  lemma {:induction false} PreorderLists(m: Module) returns (places: seq<Path>)
    ensures Listing(m, places, Preorder(m))
    ensures forall path | TakesPart(m, path) :: path in places
    decreases m, 1
  {
    var here: seq<Path> := if m.participates then [[]] else [];
    var under := PreorderOfLists(m, |m.children|);
    ListingsAppend(m, here, if m.participates then [m.id] else [], under, PreorderOf(m, |m.children|));
    places := here + under;
    forall path | TakesPart(m, path)
      ensures path in places
    {
      assert path != [] ==> path in under;
    }
  }

  lemma {:induction false} PreorderOfLists(m: Module, n: nat) returns (places: seq<Path>)
    requires n <= |m.children|
    ensures Listing(m, places, PreorderOf(m, n))
    ensures forall path | path in places :: path != [] && path[0] < n
    ensures forall path | TakesPart(m, path) && path != [] && path[0] < n :: path in places
    decreases m, 0, n
  {
    places := [];
    if n > 0 {
      var before := PreorderOfLists(m, n - 1);
      var child := PreorderLists(m.children[n - 1]);
      OneMoreChild(m, n);
      hide *;
      var more := ListedUnderChild(m, n - 1, child, Preorder(m.children[n - 1]));
      ListedBefore(before, more, n - 1);
      ListingsAppend(m, before, PreorderOf(m, n - 1), more, Preorder(m.children[n - 1]));
      places := before + more;
    }
  }

  lemma {:induction false} NotBeforeItself(p: Path)
    ensures !Precedes(p, p)
  {
    if p != [] {
      NotBeforeItself(p[1..]);
    }
  }

  lemma PreorderHas(m: Module, id: nat)
    ensures id in Preorder(m) <==> Participant(m, id)
  {
    var places := PreorderLists(m);
    if id in Preorder(m) {
      var k :| 0 <= k < |Preorder(m)| && Preorder(m)[k] == id;
      assert TakesPart(m, places[k]);
    }
    if Participant(m, id) {
      var path :| TakesPart(m, path) && At(m, path).id == id;
      var k :| 0 <= k < |places| && places[k] == path;
      assert Preorder(m)[k] == id;
    }
  }

  /** It lists every id of a participant, and each of them once if and only if ids are distinct. */
  lemma PreorderListsOnce(m: Module)
    ensures forall id :: id in Preorder(m) <==> Participant(m, id)
    ensures NoDuplicates(Preorder(m)) <==> DistinctIds(m)
  {
    forall id
      ensures id in Preorder(m) <==> Participant(m, id)
    {
      PreorderHas(m, id);
    }
    var ids := Preorder(m);
    var places := PreorderLists(m);
    hide Preorder, At, IsPath;
    if DistinctIds(m) {
      forall i, j | 0 <= i < j < |ids|
        ensures ids[i] != ids[j]
      {
        NotBeforeItself(places[i]);
      }
    }
    if NoDuplicates(ids) {
      forall p, q | TakesPart(m, p) && TakesPart(m, q) && p != q
        ensures At(m, p).id != At(m, q).id
      {
        var i :| 0 <= i < |places| && places[i] == p;
        var j :| 0 <= j < |places| && places[j] == q;
      }
    }
  }
}
