/** The class Topology of inet/src/base/Topology.cc: a mutable graph in which every link sits in two
    adjacency lists, and the two searches for shortest paths to a target. */
module TopologyModel {
  import opened Adjacency
  import opened ShortestPaths

  class Node {
    var moduleId: int32
    var weight: Dist
    var enabled: bool
    var inLinks: seq<Link>
    var outLinks: seq<Link>

    // results of the searches
    var dist: Dist
    var outPath: Link?

    constructor (moduleId: int32 := -1)
      ensures this.moduleId == moduleId && inLinks == [] && outLinks == []
      ensures weight == Fin(0.0) && enabled && dist == Inf && outPath == null
    {
      this.moduleId := moduleId;
      weight, enabled, inLinks, outLinks := Fin(0.0), true, [], [];
      dist, outPath := Inf, null;
    }
  }

  class Link {
    var srcNode: Node?
    var srcGateId: int
    var destNode: Node?
    var destGateId: int
    var weight: Dist
    var enabled: bool

    constructor (weight: Dist := Fin(1.0))
      ensures srcNode == null && destNode == null && this.weight == weight && enabled
    {
      srcNode, destNode, srcGateId, destGateId := null, null, -1, -1;
      this.weight, enabled := weight, true;
    }
  }

  type int32 = x: int | -0x8000_0000 <= x < 0x8000_0000

  /** The order of nodes: module ids compared as unsigned ints, so that -1 comes last. */
  function Key(moduleId: int32): int {
    moduleId % 0x1_0000_0000
  }

  class Topology {
    var nodes: seq<Node>
    var target: Node?
    ghost var links: set<Link>

    /** Every link of the graph is exactly once among its source's outgoing links and exactly once among
        its destination's incoming links, and nothing else is listed there. */
    ghost predicate Valid()
      reads this`nodes, this`links, nodes`moduleId, nodes`inLinks, nodes`outLinks, links`srcNode, links`destNode
    {
      WellLinked(AsGraph())
    }

    /** The graph as a value. */
    ghost function AsGraph(): (g: Graph<Node?, Link>)
      reads this`nodes, this`links, nodes`moduleId, nodes`inLinks, nodes`outLinks, links`srcNode, links`destNode
      ensures g.nodes == nodes && g.sources.Keys == links && g.dests.Keys == links
      ensures forall n | n in nodes :: n in g.keys && g.keys[n] == Key(n.moduleId)
      ensures forall n | n in nodes :: n in g.outs && g.outs[n] == n.outLinks && n in g.ins && g.ins[n] == n.inLinks
      ensures forall n | n in g.keys :: n in nodes
      ensures forall n | n in g.outs :: n in nodes
      ensures forall n | n in g.ins :: n in nodes
      ensures forall l | l in links :: g.sources[l] == l.srcNode && g.dests[l] == l.destNode
    {
      Graph(nodes, map n: Node? | n in nodes :: Key(n.moduleId),
            map n: Node? | n in nodes :: n.outLinks, map n: Node? | n in nodes :: n.inLinks,
            map l | l in links :: l.srcNode, map l | l in links :: l.destNode)
    }

    constructor ()
      ensures Valid() && nodes == [] && links == {}
    {
      nodes, target, links := [], null, {};
    }

    lemma SortedNodes()
      requires Valid()
      ensures forall i, j | 0 <= i < j < |nodes| :: Key(nodes[i].moduleId) <= Key(nodes[j].moduleId)
    {
      hide Key, AsGraph, HalfMirrored;
      forall i, j | 0 <= i < j < |nodes| ensures Key(nodes[i].moduleId) <= Key(nodes[j].moduleId) {
        assert nodes[i] in nodes && nodes[j] in nodes;
        assert AsGraph().keys[nodes[i]] <= AsGraph().keys[nodes[j]];
      }
    }

    /** std::lower_bound on the module id order. */
    method LowerBound(id: int32) returns (lo: nat)
      requires Valid()
      ensures lo <= |nodes|
      ensures forall j | 0 <= j < lo :: Key(nodes[j].moduleId) < Key(id)
      ensures forall j | lo <= j < |nodes| :: Key(id) <= Key(nodes[j].moduleId)
    {
      hide *;
      SortedNodes();
      lo := 0;
      var hi := |nodes|;
      while lo < hi
        invariant lo <= hi <= |nodes|
        invariant forall j | 0 <= j < lo :: Key(nodes[j].moduleId) < Key(id)
        invariant forall j | hi <= j < |nodes| :: Key(id) <= Key(nodes[j].moduleId)
      {
        var mid := (lo + hi) / 2;
        if Key(nodes[mid].moduleId) < Key(id) {
          lo := mid + 1;
        } else {
          hi := mid;
        }
      }
    }

    /** getNodeFor: the binary search finds a node exactly when one with that id is in the graph. */
    method GetNodeFor(id: int32) returns (n: Node?)
      requires Valid()
      ensures n != null ==> n in nodes && n.moduleId == id
      ensures n == null ==> forall m | m in nodes :: m.moduleId != id
    {
      var it := LowerBound(id);
      if it == |nodes| || nodes[it].moduleId != id {
        n := null;
        forall m | m in nodes ensures m.moduleId != id {
          var j :| 0 <= j < |nodes| && nodes[j] == m;
          KeyIsInjective(m.moduleId, id);
          if it < |nodes| { KeyIsInjective(nodes[it].moduleId, id); }
        }
      } else {
        n := nodes[it];
      }
    }

    /** Where addNode puts a node: at the end without a module id, else where the order wants it. */
    method PlaceFor(id: int32) returns (index: nat)
      requires Valid()
      ensures InPlace(AsGraph(), Key(id), index)
      ensures if id == -1 then index == |nodes| else FirstNotLess(AsGraph(), Key(id), index)
    {
      hide *;
      KeysAt();
      if id == -1 {
        index := |nodes|;
        LastPlace();
      } else {
        index := LowerBound(id);
        Placed(AsGraph(), index, Key(id));
      }
      PlacedAnyhow(AsGraph(), index, Key(id));
    }

    /** addNode */
    method AddNode(node: Node) returns (index: nat)
      requires Valid() && node !in nodes && node.inLinks == [] && node.outLinks == []
      modifies this`nodes
      ensures Valid() && index <= |old(nodes)|
      ensures AsGraph() == WithNode(old(AsGraph()), index, node, Key(node.moduleId))
      ensures if node.moduleId == -1 then index == |old(nodes)|
              else FirstNotLess(old(AsGraph()), Key(node.moduleId), index)
    {
      hide *;
      index := PlaceFor(node.moduleId);
      ValidGraph();
      InsertedInPlace(AsGraph(), index, node, Key(node.moduleId));
      Insert(node, index);
      ValidGraph();
    }

    lemma ValidGraph()
      ensures Valid() <==> WellLinked(AsGraph())
    {
    }

    lemma LastPlace()
      ensures forall j | 0 <= j < |nodes| :: Key(nodes[j].moduleId) <= Key(-1)
    {
    }

    lemma KeysAt()
      ensures forall j | 0 <= j < |nodes| :: AsGraph().keys[nodes[j]] == Key(nodes[j].moduleId)
    {
    }

    /** nodes.insert */
    method Insert(node: Node, index: nat)
      requires index <= |nodes| && node.outLinks == [] && node.inLinks == []
      modifies this`nodes
      ensures nodes == old(nodes)[..index] + [node] + old(nodes)[index..]
      ensures AsGraph() == WithNode(old(AsGraph()), index, node, Key(node.moduleId))
    {
      hide *;
      ghost var g, before := AsGraph(), nodes;
      nodes := nodes[..index] + [node] + nodes[index..];
      assert before == before[..index] + before[index..];
      WithNodeIs(g, index, node, Key(node.moduleId));
      GraphIs(WithNode(g, index, node, Key(node.moduleId)));
    }

    lemma WithNodeIs(g: Graph<Node?, Link>, i: nat, n: Node, key: int)
      requires i <= |g.nodes|
      ensures WithNode(g, i, n, key) ==
        g.(nodes := g.nodes[..i] + [n] + g.nodes[i..], keys := g.keys[n := key],
           outs := g.outs[n := []], ins := g.ins[n := []])
    {
    }

    lemma GraphIs(g: Graph<Node?, Link>)
      requires g.nodes == nodes && g.sources.Keys == links && g.dests.Keys == links
      requires forall n | n in nodes :: n in g.keys && g.keys[n] == Key(n.moduleId)
      requires forall n | n in nodes :: n in g.outs && g.outs[n] == n.outLinks && n in g.ins && g.ins[n] == n.inLinks
      requires forall n | n in g.keys :: n in nodes
      requires forall n | n in g.outs :: n in nodes
      requires forall n | n in g.ins :: n in nodes
      requires forall l | l in links :: g.sources[l] == l.srcNode && g.dests[l] == l.destNode
      ensures AsGraph() == g
    {
      hide AsGraph;
      assert AsGraph().keys == g.keys && AsGraph().outs == g.outs && AsGraph().ins == g.ins;
      assert AsGraph().sources == g.sources && AsGraph().dests == g.dests;
    }

    /** unlinkFromSourceNode */
    method UnlinkFromSourceNode(link: Link)
      requires link.srcNode in nodes
      modifies link.srcNode`outLinks
      ensures AsGraph() == old(AsGraph()).(
                outs := old(AsGraph()).outs[link.srcNode := Removed(old(AsGraph()).outs[link.srcNode], link)])
    {
      hide *;
      ghost var g := AsGraph();
      link.srcNode.outLinks := Removed(link.srcNode.outLinks, link);
      GraphIs(g.(outs := g.outs[link.srcNode := Removed(g.outs[link.srcNode], link)]));
    }

    /** unlinkFromDestNode */
    method UnlinkFromDestNode(link: Link)
      requires link.destNode in nodes
      modifies link.destNode`inLinks
      ensures AsGraph() == old(AsGraph()).(
                ins := old(AsGraph()).ins[link.destNode := Removed(old(AsGraph()).ins[link.destNode], link)])
    {
      hide *;
      ghost var g := AsGraph();
      link.destNode.inLinks := Removed(link.destNode.inLinks, link);
      GraphIs(g.(ins := g.ins[link.destNode := Removed(g.ins[link.destNode], link)]));
    }

    /** The end of addLink: a link that is in no list gets its ends and joins two lists. */
    method Attach(link: Link, src: Node, dest: Node)
      requires src in nodes && dest in nodes
      modifies this`links, src`outLinks, dest`inLinks
      modifies link`srcNode, link`destNode, link`srcGateId, link`destGateId
      ensures
        var g := old(AsGraph());
        AsGraph() == g.(outs := g.outs[src := g.outs[src] + [link]], ins := g.ins[dest := g.ins[dest] + [link]],
                        sources := g.sources[link := src], dests := g.dests[link := dest])
    {
      hide *;
      ghost var g := AsGraph();
      ResetGates(link, src, dest);
      assert AsGraph() == g;
      SetEnds(link, src, dest);
      ghost var g1 := AsGraph();
      AppendOut(link, src);
      ghost var g2 := AsGraph();
      assert g2 == g1.(outs := g1.outs[src := g1.outs[src] + [link]]);
      AppendIn(link, dest);
      assert AsGraph() == g2.(ins := g2.ins[dest := g2.ins[dest] + [link]]);
    }

    method ResetGates(link: Link, src: Node, dest: Node)
      modifies link`srcGateId, link`destGateId
      ensures link.srcGateId == if link.srcNode != src then -1 else old(link.srcGateId)
      ensures link.destGateId == if link.destNode != dest then -1 else old(link.destGateId)
    {
      if link.srcNode != src {
        link.srcGateId := -1;
      }
      if link.destNode != dest {
        link.destGateId := -1;
      }
    }

    method SetEnds(link: Link, src: Node, dest: Node)
      modifies this`links, link`srcNode, link`destNode
      ensures
        var g := old(AsGraph());
        AsGraph() == g.(sources := g.sources[link := src], dests := g.dests[link := dest])
    {
      hide *;
      ghost var g := AsGraph();
      link.srcNode := src;
      link.destNode := dest;
      links := links + {link};
      GraphIs(g.(sources := g.sources[link := src], dests := g.dests[link := dest]));
    }

    method AppendOut(link: Link, src: Node)
      requires src in nodes
      modifies src`outLinks
      ensures AsGraph() == old(AsGraph()).(outs := old(AsGraph()).outs[src := old(AsGraph()).outs[src] + [link]])
    {
      hide *;
      ghost var g := AsGraph();
      src.outLinks := src.outLinks + [link];
      GraphIs(g.(outs := g.outs[src := g.outs[src] + [link]]));
    }

    method AppendIn(link: Link, dest: Node)
      requires dest in nodes
      modifies dest`inLinks
      ensures AsGraph() == old(AsGraph()).(ins := old(AsGraph()).ins[dest := old(AsGraph()).ins[dest] + [link]])
    {
      hide *;
      ghost var g := AsGraph();
      dest.inLinks := dest.inLinks + [link];
      GraphIs(g.(ins := g.ins[dest := g.ins[dest] + [link]]));
    }

    /** addLink for a new link, or to reconnect one that is in the graph. */
    method AddLink(link: Link, src: Node, dest: Node)
      requires Valid() && src in nodes && dest in nodes
      requires link in links || (link.srcNode == null && link.destNode == null)
      modifies this`links, nodes`outLinks, nodes`inLinks
      modifies link`srcNode, link`destNode, link`srcGateId, link`destGateId
      ensures Valid() && AsGraph() == WithLink(old(AsGraph()), link, src, dest)
    {
      hide *;
      ghost var g := AsGraph();
      ValidGraph();
      Unlinking(g, link);
      WithLinkWellLinked(g, link, src, dest);
      if link in links { EndsInGraph(link); }
      if link.srcNode != null {
        UnlinkFromSourceNode(link);
      }
      if link.destNode != null {
        UnlinkFromDestNode(link);
      }
      Attach(link, src, dest);
      WithLinkIs(g, link, src, dest);
      ValidGraph();
    }

    lemma WithLinkIs(g: Graph<Node?, Link>, l: Link, m: Node, n: Node)
      ensures WithLink(g, l, m, n) ==
        g.(outs := Linked(g.outs, l, m), ins := Linked(g.ins, l, n),
           sources := g.sources[l := m], dests := g.dests[l := n])
    {
    }

    lemma LessLinkIs(g: Graph<Node?, Link>, l: Link)
      ensures LessLink(g, l) ==
        g.(outs := WithoutLink(g.outs, l), ins := WithoutLink(g.ins, l),
           sources := g.sources - {l}, dests := g.dests - {l})
    {
    }

    lemma EndsInGraph(link: Link)
      requires Valid() && link in links
      ensures link.srcNode in nodes && link.destNode in nodes
    {
      EndsListed(AsGraph().outs, AsGraph().sources);
      EndsListed(AsGraph().ins, AsGraph().dests);
      assert AsGraph().sources[link] in AsGraph().outs && AsGraph().dests[link] in AsGraph().ins;
    }

    /** deleteLink */
    method DeleteLink(link: Link)
      requires Valid() && link in links
      modifies this`links, nodes`outLinks, nodes`inLinks
      ensures Valid() && AsGraph() == LessLink(old(AsGraph()), link)
    {
      hide *;
      ghost var g := AsGraph();
      ValidGraph();
      Unlinking(g, link);
      EndsInGraph(link);
      UnlinkFromSourceNode(link);
      UnlinkFromDestNode(link);
      Forget({link});
      LessLinkIs(g, link);
      ValidGraph();
    }

    /** delete link: it no longer is one of the graph's links. */
    ghost method Forget(gone: set<Link>)
      modifies this`links
      ensures
        var g := old(AsGraph());
        AsGraph() == g.(sources := g.sources - gone, dests := g.dests - gone)
    {
      hide *;
      ghost var g := AsGraph();
      links := links - gone;
      GraphIs(g.(sources := g.sources - gone, dests := g.dests - gone));
    }

    /** deleteNode: the node goes, and with it exactly the links that start or end there; all others stay in their
        places. */
    method DeleteNode(node: Node)
      requires Valid() && node in nodes
      modifies this`nodes, this`links, nodes`outLinks, nodes`inLinks
      ensures Valid() && nodes == Removed(old(nodes), node)
      ensures links <= old(links)
      ensures forall l | l in old(links) :: l in links <==> l.srcNode != node && l.destNode != node
      ensures node.outLinks == [] && node.inLinks == []
      ensures AsGraph().outs == LeftOf(old(AsGraph()).outs, old(links) - links) - {node}
      ensures AsGraph().ins == LeftOf(old(AsGraph()).ins, old(links) - links) - {node}
    {
      hide *;
      DeleteLinksOf(node);
      ghost var h := AsGraph();
      ValidGraph();
      NodeIsFree(node);
      NodeLeftOut(h, node);
      TakeOut(node);
      ValidGraph();
      LessNodeIs(h, node);
    }

    /** Both loops of deleteNode. */
    method DeleteLinksOf(node: Node)
      requires Valid() && node in nodes
      modifies this`links, nodes`outLinks, nodes`inLinks
      ensures Valid() && node.outLinks == [] && node.inLinks == []
      ensures links <= old(links)
      ensures forall l | l in old(links) :: l in links <==> l.srcNode != node && l.destNode != node
      ensures AsGraph().outs == LeftOf(old(AsGraph()).outs, old(links) - links)
      ensures AsGraph().ins == LeftOf(old(AsGraph()).ins, old(links) - links)
    {
      hide *;
      ghost var g, before := AsGraph(), links;
      DeleteOutgoing(node);
      ghost var between, h := links, AsGraph();
      DeleteIncoming(node);
      LeftInTwoSteps(g.outs, h.outs, before, between, links);
      LeftInTwoSteps(g.ins, h.ins, before, between, links);
    }

    lemma LeftInTwoSteps(lists: map<Node?, seq<Link>>, left: map<Node?, seq<Link>>, before: set<Link>,
                         between: set<Link>, after: set<Link>)
      requires after <= between <= before && left == LeftOf(lists, before - between)
      ensures LeftOf(left, between - after) == LeftOf(lists, before - after)
    {
      hide LeftOf;
      LeftOfTwice(lists, before - between, between - after);
      assert (before - between) + (between - after) == before - after;
    }

    lemma NodeIsFree(node: Node)
      requires forall l | l in links :: l.srcNode != node && l.destNode != node
      ensures forall l | l in AsGraph().sources :: AsGraph().sources[l] != node && AsGraph().dests[l] != node
    {
      hide AsGraph;
    }

    /** nodes.erase */
    method TakeOut(node: Node)
      requires Valid()
      modifies this`nodes
      ensures nodes == Removed(old(nodes), node) && AsGraph() == LessNode(old(AsGraph()), node)
    {
      hide *;
      ghost var g := AsGraph();
      RemovedNodes(g, node);
      nodes := Removed(nodes, node);
      LessNodeIs(g, node);
      GraphIs(LessNode(g, node));
    }

    lemma RemovedNodes(g: Graph<Node?, Link>, node: Node)
      requires Valid() && g == AsGraph()
      ensures Removed(g.nodes, node) == Removed(nodes, node)
      ensures node !in Removed(nodes, node)
      ensures forall n | n in Removed(nodes, node) :: n in nodes
      ensures forall n | n in nodes && n != node :: n in Removed(nodes, node)
    {
      hide AsGraph, HalfMirrored, Removed;
      SameRemoval(nodes, node);
      assert Distinct(g.nodes);
      assert Distinct(nodes);
      RemovedFacts(nodes, node);
    }

    lemma LessNodeIs(g: Graph<Node?, Link>, n: Node?)
      ensures LessNode(g, n) ==
        g.(nodes := Removed(g.nodes, n), keys := g.keys - {n}, outs := g.outs - {n}, ins := g.ins - {n})
    {
    }

    /** The first loop of deleteNode: each outgoing link leaves its destination's list; then outLinks.clear(). */
    method DeleteOutgoing(node: Node)
      requires Valid() && node in nodes
      modifies this`links, nodes`outLinks, nodes`inLinks
      ensures Valid() && node.outLinks == []
      ensures links <= old(links) && forall l | l in old(links) :: l in links <==> l.srcNode != node
      ensures AsGraph().nodes == old(AsGraph()).nodes
      ensures AsGraph().outs == LeftOf(old(AsGraph()).outs, old(links) - links)
      ensures AsGraph().ins == LeftOf(old(AsGraph()).ins, old(links) - links)
    {
      hide *;
      ghost var g := AsGraph();
      ValidGraph();
      UnlinkOutgoing(node, g);
      ghost var h, gone := AsGraph(), Before(node.outLinks, |node.outLinks|);
      BeforeEnds(node.outLinks);
      DetachAll(g.outs, g.sources, h.ins, g.dests, node, gone);
      ClearedOutgoing(g, h, node, gone);
      Halves(g, node);
      ClearedIsLeft(g.outs, g.sources, node, gone);
      assert links - (links - gone) == gone;
      ClearOut(node);
      Forget(gone);
      ValidGraph();
    }

    lemma ClearedOutgoing(g: Graph<Node?, Link>, h: Graph<Node?, Link>, n: Node?, gone: set<Link>)
      requires WellLinked(g) && h == g.(ins := h.ins) && Detaching(g.outs, g.sources, h.ins, g.dests, n, gone)
      requires HalfMirrored(g.outs[n := []], g.sources - gone) && HalfMirrored(h.ins, g.dests - gone)
      ensures WellLinked(h.(outs := h.outs[n := []]).(sources := h.sources - gone, dests := h.dests - gone))
    {
      hide HalfMirrored;
      Reassembled(g, h.(outs := h.outs[n := []]).(sources := h.sources - gone, dests := h.dests - gone));
    }

    method UnlinkOutgoing(node: Node, ghost g: Graph<Node?, Link>)
      requires node in nodes && g == AsGraph() && WellLinked(g)
      modifies nodes`inLinks
      ensures AsGraph() == g.(ins := AsGraph().ins)
      ensures Detaching(g.outs, g.sources, AsGraph().ins, g.dests, node, Before(node.outLinks, |node.outLinks|))
      ensures AsGraph().ins == LeftOf(g.ins, Before(node.outLinks, |node.outLinks|))
    {
      hide *;
      Halves(g, node);
      DetachStart(g.outs, g.sources, g.ins, g.dests, node);
      LeftOfWhole(g.ins);
      ghost var q := node.outLinks;
      BeforeEnds(q);
      for i := 0 to |node.outLinks|
        invariant node.outLinks == q && AsGraph() == g.(ins := AsGraph().ins)
        invariant Detaching(g.outs, g.sources, AsGraph().ins, g.dests, node, Before(q, i))
        invariant AsGraph().ins == LeftOf(g.ins, Before(q, i))
      {
        var link := node.outLinks[i];
        BeforeNext(q, i);
        DetachOne(g.outs, g.sources, AsGraph().ins, g.dests, node, Before(q, i), link);
        LeftOfOneLess(g.ins, g.dests, Before(q, i), link);
        UnlinkFromDestNode(link);
      }
    }

    method ClearOut(node: Node)
      requires node in nodes
      modifies node`outLinks
      ensures node.outLinks == []
      ensures AsGraph() == old(AsGraph()).(outs := old(AsGraph()).outs[node := []])
    {
      hide *;
      ghost var g := AsGraph();
      node.outLinks := [];
      GraphIs(g.(outs := g.outs[node := []]));
    }

    /** The second loop: each incoming link leaves its source's list; then inLinks.clear(). */
    method DeleteIncoming(node: Node)
      requires Valid() && node in nodes
      modifies this`links, nodes`outLinks, nodes`inLinks
      ensures Valid() && node.inLinks == [] && (old(node.outLinks) == [] ==> node.outLinks == [])
      ensures links <= old(links) && forall l | l in old(links) :: l in links <==> l.destNode != node
      ensures AsGraph().nodes == old(AsGraph()).nodes
      ensures AsGraph().outs == LeftOf(old(AsGraph()).outs, old(links) - links)
      ensures AsGraph().ins == LeftOf(old(AsGraph()).ins, old(links) - links)
    {
      hide *;
      ghost var g := AsGraph();
      ValidGraph();
      UnlinkIncoming(node, g);
      ghost var h, gone := AsGraph(), Before(node.inLinks, |node.inLinks|);
      BeforeEnds(node.inLinks);
      DetachAll(g.ins, g.dests, h.outs, g.sources, node, gone);
      ClearedIncoming(g, h, node, gone);
      Halves(g, node);
      ClearedIsLeft(g.ins, g.dests, node, gone);
      assert links - (links - gone) == gone;
      ClearIn(node);
      Forget(gone);
      ValidGraph();
    }

    lemma ClearedIncoming(g: Graph<Node?, Link>, h: Graph<Node?, Link>, n: Node?, gone: set<Link>)
      requires WellLinked(g) && h == g.(outs := h.outs) && Detaching(g.ins, g.dests, h.outs, g.sources, n, gone)
      requires HalfMirrored(g.ins[n := []], g.dests - gone) && HalfMirrored(h.outs, g.sources - gone)
      ensures WellLinked(h.(ins := h.ins[n := []]).(sources := h.sources - gone, dests := h.dests - gone))
    {
      hide HalfMirrored;
      Reassembled(g, h.(ins := h.ins[n := []]).(sources := h.sources - gone, dests := h.dests - gone));
    }

    method UnlinkIncoming(node: Node, ghost g: Graph<Node?, Link>)
      requires node in nodes && g == AsGraph() && WellLinked(g)
      modifies nodes`outLinks
      ensures AsGraph() == g.(outs := AsGraph().outs) && (old(node.outLinks) == [] ==> node.outLinks == [])
      ensures Detaching(g.ins, g.dests, AsGraph().outs, g.sources, node, Before(node.inLinks, |node.inLinks|))
      ensures AsGraph().outs == LeftOf(g.outs, Before(node.inLinks, |node.inLinks|))
    {
      hide *;
      Halves(g, node);
      DetachStart(g.ins, g.dests, g.outs, g.sources, node);
      LeftOfWhole(g.outs);
      ghost var q := node.inLinks;
      BeforeEnds(q);
      for i := 0 to |node.inLinks|
        invariant node.inLinks == q && AsGraph() == g.(outs := AsGraph().outs)
        invariant old(node.outLinks) == [] ==> node.outLinks == []
        invariant Detaching(g.ins, g.dests, AsGraph().outs, g.sources, node, Before(q, i))
        invariant AsGraph().outs == LeftOf(g.outs, Before(q, i))
      {
        var link := node.inLinks[i];
        BeforeNext(q, i);
        DetachOne(g.ins, g.dests, AsGraph().outs, g.sources, node, Before(q, i), link);
        LeftOfOneLess(g.outs, g.sources, Before(q, i), link);
        UnlinkFromSourceNode(link);
      }
    }

    method ClearIn(node: Node)
      requires node in nodes
      modifies node`inLinks
      ensures node.inLinks == []
      ensures AsGraph() == old(AsGraph()).(ins := old(AsGraph()).ins[node := []])
    {
      hide *;
      ghost var g := AsGraph();
      node.inLinks := [];
      GraphIs(g.(ins := g.ins[node := []]));
    }

    /** A link of the graph is listed at both its ends, and what is listed is a link of the graph. */
    lemma LinkIsListed(l: Link, n: Node)
      requires Valid() && n in nodes
      ensures l in n.outLinks <==> l in links && l.srcNode == n
      ensures l in n.inLinks <==> l in links && l.destNode == n
      ensures l in links ==> l.srcNode in nodes && l.destNode in nodes
    {
      EndsListed(AsGraph().outs, AsGraph().sources);
      EndsListed(AsGraph().ins, AsGraph().dests);
      if l in links { EndsInGraph(l); }
    }

    /** The network that the searches see. */
    ghost function Network(t: Node): Net<Node, Link>
      reads this`nodes, this`links, nodes`weight, nodes`enabled,
            links`srcNode, links`destNode, links`weight, links`enabled
    {
      Net(t, map n | n in nodes :: n.weight,
          map l | l in links && l.srcNode in nodes && l.destNode in nodes && l.enabled && l.srcNode.enabled
            :: Arc(l.srcNode, l.destNode, l.weight))
    }

    /** p leads from n to t over enabled links, each from an enabled node. */
    ghost predicate Walk(n: Node, p: seq<Link>, t: Node)
      reads this`nodes, this`links, nodes`enabled, links`srcNode, links`destNode, links`enabled
    {
      if p == [] then n == t
      else
        && p[0] in links && p[0].enabled && p[0].srcNode == n && n in nodes && n.enabled
        && p[0].destNode != null && Walk(p[0].destNode, p[1..], t)
    }

    /** The weights of the links of p, and of the nodes between them. */
    ghost function Price(p: seq<Link>): Dist
      requires forall l | l in p :: l in links && l.destNode in nodes
      reads this`nodes, this`links, nodes`weight, links`destNode, links`weight
    {
      if p == [] then Fin(0.0)
      else if |p| == 1 then p[0].weight
      else Add(Add(p[0].weight, p[0].destNode.weight), Price(p[1..]))
    }

    /** The paths of the network that the searches see are the walks over enabled links and nodes, at their price. */
    lemma {:induction false} WalksArePaths(n: Node, p: seq<Link>, t: Node)
      requires Valid()
      ensures IsPath(Network(t), n, p) <==> Walk(n, p, t)
      ensures Walk(n, p, t) && WellFormed(Network(t)) ==>
                && (forall l | l in p :: l in Network(t).arcs && l in links && l.destNode in nodes)
                && Cost(Network(t), p) == Price(p)
    {
      NetworkTarget(t);
      hide Valid, Network;
      if p == [] {
      } else {
        ArcIs(t, p[0]);
        if p[0] in links {
          WalksArePaths(p[0].destNode, p[1..], t);
        }
        assert p == [p[0]] + p[1..];
      }
    }

    lemma NetworkTarget(t: Node)
      ensures Network(t).target == t
    {
    }

    /** A link as the network sees it. */
    lemma ArcIs(t: Node, l: Link)
      requires Valid()
      ensures l in links ==> l.srcNode in nodes && l.destNode in nodes
      ensures l in Network(t).arcs <==> l in links && l.enabled && l.srcNode.enabled
      ensures l in Network(t).arcs ==>
                var a := Network(t).arcs[l];
                && a.src == l.srcNode && a.dst == l.destNode && a.weight == l.weight
                && l.destNode in Network(t).weight && Network(t).weight[l.destNode] == l.destNode.weight
    {
    }

    ghost function Distances(): map<Node, Dist>
      reads this`nodes, nodes`dist
    {
      map n | n in nodes :: n.dist
    }

    ghost function OutPaths(): map<Node, Link>
      reads this`nodes, nodes`outPath
    {
      map n | n in nodes && n.outPath != null :: n.outPath
    }

    /** Clears the results and puts the target at distance zero. */
    method ClearPaths(t: Node)
      requires Valid() && t in nodes
      modifies nodes`dist, nodes`outPath
      ensures OutPaths() == map[]
      ensures Distances().Keys == Network(t).weight.Keys && Network(t).target == t
      ensures forall n | n in Distances() :: Distances()[n] == if n == t then Fin(0.0) else Inf
    {
      hide *;
      for i := 0 to |nodes|
        invariant Valid()
        invariant forall j | 0 <= j < i :: nodes[j].dist == Inf && nodes[j].outPath == null
      {
        nodes[i].dist := Inf;
        nodes[i].outPath := null;
      }
      t.dist := Fin(0.0);
      StartMaps(t);
    }

    lemma StartMaps(t: Node)
      requires Valid() && t in nodes && t.dist == Fin(0.0) && t.outPath == null
      requires forall j | 0 <= j < |nodes| && nodes[j] != t :: nodes[j].dist == Inf && nodes[j].outPath == null
      ensures OutPaths() == map[]
      ensures Distances().Keys == Network(t).weight.Keys && Network(t).target == t
      ensures forall n | n in Distances() :: Distances()[n] == if n == t then Fin(0.0) else Inf
    {
      hide Valid;
      assert OutPaths() == map[] by { NoOutPaths(t); }
      NetworkTarget(t);
    }

    lemma NoOutPaths(t: Node)
      requires t.outPath == null && forall j | 0 <= j < |nodes| && nodes[j] != t :: nodes[j].outPath == null
      ensures OutPaths() == map[]
    {
      hide Valid;
      forall n | n in nodes
        ensures n.outPath == null
      {
        var j :| 0 <= j < |nodes| && nodes[j] == n;
      }
    }

    /** src->dist = d; src->outPath = link; */
    method SetPath(src: Node, d: Dist, link: Link)
      requires src in nodes
      modifies src`dist, src`outPath
      ensures src.dist == d && src.outPath == link
      ensures Distances() == old(Distances())[src := d]
      ensures OutPaths() == old(OutPaths())[src := link]
    {
      src.dist := d;
      src.outPath := link;
    }

    /** A usable link into dest, as the network sees it. */
    lemma IncomingArc(t: Node, dest: Node, link: Link)
      requires Valid() && dest in nodes && link in dest.inLinks
      ensures link.srcNode in nodes && link.srcNode in Distances() && dest in Distances()
      ensures Distances()[dest] == dest.dist && Distances()[link.srcNode] == link.srcNode.dist
      ensures Network(t).target == t && dest in Network(t).weight && Network(t).weight[dest] == dest.weight
      ensures link in Network(t).arcs <==> link.enabled && link.srcNode.enabled
      ensures link in Network(t).arcs ==>
        && Network(t).arcs[link].src == link.srcNode && Network(t).arcs[link].dst == dest
        && Network(t).arcs[link].weight == link.weight
    {
      LinkIsListed(link, dest);
      hide Valid, AsGraph, WellLinked;
    }

    /** The position where the ordered list takes a node at distance d. */
    method FindPlace(q: seq<Node>, d: Dist) returns (it: nat)
      ensures it <= |q| && (forall j | 0 <= j < it :: AtMost(q[j].dist, d)) && (it < |q| ==> Less(d, q[it].dist))
    {
      it := 0;
      while it < |q|
        invariant it <= |q| && forall j | 0 <= j < it :: AtMost(q[j].dist, d)
      {
        if Less(d, q[it].dist) {
          break;
        }
        it := it + 1;
      }
    }

    lemma PlaceInMap(q: seq<Node>, before: map<Node, Dist>, src: Node, d: Dist, it: nat)
      requires Distances() == before[src := d] && src !in q && (forall m | m in q :: m in before)
      requires it <= |q| && (forall j | 0 <= j < it :: AtMost(q[j].dist, d)) && (it < |q| ==> Less(d, q[it].dist))
      ensures InsertionPoint(before, q, d, it)
    {
      forall j | 0 <= j < |q| ensures q[j] in before && q[j].dist == before[q[j]] {
        assert q[j] in Distances();
      }
    }

    lemma QueueInMap(net: Net<Node, Link>, dist: map<Node, Dist>, out: map<Node, Link>, popped: seq<Node>,
                     q: seq<Node>, done: set<Link>, n: Node)
      requires Search(net, dist, out, popped, q, done)
      ensures forall m | m in q :: m in dist
      ensures n !in Removed(q, n) && forall m | m in Removed(q, n) :: m in dist
      ensures n in dist && dist[n] == Inf ==> Removed(q, n) == q
    {
      assert forall m | m in q :: m in popped + q;
      QueueWithout(popped, q, n);
    }

    lemma QueueWithout(popped: seq<Node>, q: seq<Node>, n: Node)
      requires Distinct(popped + q)
      ensures n !in Removed(q, n) && forall m | m in Removed(q, n) :: m in q
    {
      var k := IndexOf(q, n);
      if n in q {
        forall j | 0 <= j < |q| && j != k ensures q[j] != n {
          assert (popped + q)[|popped| + j] == q[j] && (popped + q)[|popped| + k] == n;
        }
      }
    }

    /** The body of the inner loop of the weighted search, for one incoming link of dest. */
    method Consider(t: Node, dest: Node, link: Link, q: seq<Node>, ghost popped: seq<Node>, ghost done: set<Link>)
      returns (q': seq<Node>)
      requires Valid() && dest in nodes && link in dest.inLinks && WellFormed(Network(t))
      requires popped != [] && popped[|popped| - 1] == dest
      requires Search(Network(t), Distances(), OutPaths(), popped, q, done)
      modifies nodes`dist, nodes`outPath
      ensures Search(Network(t), Distances(), OutPaths(), popped, q',
                     if link in Network(t).arcs then done + {link} else done)
    {
      hide *;
      ghost var net, dist, out := Network(t), Distances(), OutPaths();
      IncomingArc(t, dest, link);
      q' := q;
      if !link.enabled {
        return;
      }
      var src: Node := link.srcNode;
      if !src.enabled {
        return;
      }
      var newdist := Add(dest.dist, link.weight);
      if dest != t {
        newdist := Add(newdist, dest.weight);
      }
      NewDistance(net, dest.dist, link);
      QueueInMap(net, dist, out, popped, q, done, src);
      if newdist != Inf && Less(newdist, src.dist) {
        if src.dist != Inf {
          q' := Removed(q, src);
        }
        SetPath(src, newdist, link);
        var it := FindPlace(q', newdist);
        PlaceInMap(q', dist, src, newdist, it);
        Relax(net, dist, out, popped, q, done, link, it);
        q' := Inserted(q', it, src);
      } else {
        NotShorter(newdist, src.dist);
        LastIn(popped);
        NoRelax(net, dist, out, popped, q, done, link);
      }
    }

    /** The inner loop of the weighted search. */
    method ConsiderAll(t: Node, dest: Node, q: seq<Node>, ghost popped: seq<Node>, ghost done: set<Link>)
      returns (q': seq<Node>, ghost done': set<Link>)
      requires Valid() && dest in nodes && WellFormed(Network(t))
      requires popped != [] && popped[|popped| - 1] == dest
      requires Search(Network(t), Distances(), OutPaths(), popped, q, done)
      modifies nodes`dist, nodes`outPath
      ensures Search(Network(t), Distances(), OutPaths(), popped, q', done')
      ensures done <= done'
      ensures forall j | 0 <= j < |dest.inLinks| :: dest.inLinks[j] in Network(t).arcs ==> dest.inLinks[j] in done'
    {
      hide *;
      q', done' := q, done;
      ghost var arcs := Network(t).arcs.Keys;
      for i := 0 to |dest.inLinks|
        invariant Search(Network(t), Distances(), OutPaths(), popped, q', done')
        invariant done <= done' && arcs == Network(t).arcs.Keys
        invariant forall j | 0 <= j < i :: dest.inLinks[j] in arcs ==> dest.inLinks[j] in done'
      {
        q' := Consider(t, dest, dest.inLinks[i], q', popped, done');
        done' := if dest.inLinks[i] in Network(t).arcs then done' + {dest.inLinks[i]} else done';
      }
    }

    /** calculateWeightedSingleShortestPathsTo; a null target is refused. popped are the nodes taken from the queue. */
    method CalculateWeightedSingleShortestPathsTo(t: Node?) returns (ok: bool, ghost popped: seq<Node>)
      requires Valid()
      requires t != null ==> t in nodes && WellFormed(Network(t))
      modifies this`target, nodes`dist, nodes`outPath
      ensures Valid() && (ok <==> t != null)
      ensures ok ==> target == t && Network(t) == old(Network(t)) && WellFormed(Network(t))
      ensures ok ==> Solved(Network(t), Distances(), OutPaths())
      ensures ok ==> Reached(Distances(), popped)
      ensures !ok ==> unchanged(this) && unchanged(nodes)
    {
      hide *;
      popped := [];
      if t == null {
        return false, popped;
      }
      ok := true;
      target := t;
      ClearPaths(t);
      ghost var net := Network(t);
      SearchStart(net, Distances());
      var q: seq<Node> := [t];
      ghost var done: set<Link> := {};
      NothingPopped(net);
      while q != []
        invariant Valid() && Network(t) == net && target == t
        invariant Search(net, Distances(), OutPaths(), popped, q, done) && AllRelaxed(net, popped, done)
        decreases |nodes| - |popped|
      {
        PopBound(t, popped, q, done);
        Pop(net, Distances(), OutPaths(), popped, q, done);
        var dest := q[0];
        q := q[1..];
        ghost var before, doneBefore := popped, done;
        popped := popped + [dest];
        LastIn(popped);
        q, done := ConsiderAll(t, dest, q, popped, done);
        InLinksDone(t, before, dest, doneBefore, done);
      }
      SearchEnd(net, Distances(), OutPaths(), popped, done);
      AllPopped(net, Distances(), OutPaths(), popped, done);
    }

    /** Hop counting needs no weights. */
    lemma HopNetIsWellFormed(t: Node)
      requires Valid() && t in nodes
      ensures WellFormed(HopNet(Network(t))) && HopNet(Network(t)).target == t
      ensures HopNet(Network(t)).weight.Keys == Network(t).weight.Keys
    {
      hide Valid;
    }

    /** The body of the inner loop of the unweighted search. */
    method Visit(t: Node, dest: Node, link: Link, q: seq<Node>, ghost popped: seq<Node>, ghost done: set<Link>)
      returns (q': seq<Node>)
      requires Valid() && dest in nodes && link in dest.inLinks && t in nodes
      requires popped != [] && popped[|popped| - 1] == dest
      requires Search(HopNet(Network(t)), Distances(), OutPaths(), popped, q, done)
      requires WithinOneHop(Distances(), popped, q)
      modifies nodes`dist, nodes`outPath
      ensures Search(HopNet(Network(t)), Distances(), OutPaths(), popped, q',
                     if link in Network(t).arcs then done + {link} else done)
      ensures WithinOneHop(Distances(), popped, q')
    {
      hide *;
      ghost var net, dist, out := Network(t), Distances(), OutPaths();
      IncomingArc(t, dest, link);
      q' := q;
      if !link.enabled {
        return;
      }
      var src: Node := link.srcNode;
      if !src.enabled {
        return;
      }
      if src.dist == Inf {
        VisitNew(net, dist, out, popped, q, done, link);
        SetPath(src, Add(dest.dist, Fin(1.0)), link);
        q' := q + [src];
      } else {
        VisitOld(net, dist, out, popped, q, done, link);
      }
    }

    /** The inner loop of the unweighted search. */
    method VisitAll(t: Node, v: Node, q: seq<Node>, ghost popped: seq<Node>, ghost done: set<Link>)
      returns (q': seq<Node>, ghost done': set<Link>)
      requires Valid() && v in nodes && t in nodes
      requires popped != [] && popped[|popped| - 1] == v
      requires Search(HopNet(Network(t)), Distances(), OutPaths(), popped, q, done)
      requires WithinOneHop(Distances(), popped, q)
      modifies nodes`dist, nodes`outPath
      ensures Search(HopNet(Network(t)), Distances(), OutPaths(), popped, q', done')
      ensures WithinOneHop(Distances(), popped, q')
      ensures done <= done'
      ensures forall j | 0 <= j < |v.inLinks| :: v.inLinks[j] in Network(t).arcs ==> v.inLinks[j] in done'
    {
      hide *;
      q', done' := q, done;
      ghost var arcs := Network(t).arcs.Keys;
      for i := 0 to |v.inLinks|
        invariant Search(HopNet(Network(t)), Distances(), OutPaths(), popped, q', done')
        invariant WithinOneHop(Distances(), popped, q')
        invariant done <= done' && arcs == Network(t).arcs.Keys
        invariant forall j | 0 <= j < i :: v.inLinks[j] in arcs ==> v.inLinks[j] in done'
      {
        q' := Visit(t, v, v.inLinks[i], q', popped, done');
        done' := if v.inLinks[i] in Network(t).arcs then done' + {v.inLinks[i]} else done';
      }
    }

    /** calculateUnweightedSingleShortestPathsTo; a null target is refused. popped are the nodes taken from the
        queue. */
    method CalculateUnweightedSingleShortestPathsTo(t: Node?) returns (ok: bool, ghost popped: seq<Node>)
      requires Valid()
      requires t != null ==> t in nodes
      modifies this`target, nodes`dist, nodes`outPath
      ensures Valid() && (ok <==> t != null)
      ensures ok ==> target == t && Network(t) == old(Network(t)) && WellFormed(HopNet(Network(t)))
      ensures ok ==> Solved(HopNet(Network(t)), Distances(), OutPaths())
      ensures ok ==> Reached(Distances(), popped)
      ensures !ok ==> unchanged(this) && unchanged(nodes)
    {
      hide *;
      popped := [];
      if t == null {
        return false, popped;
      }
      ok := true;
      target := t;
      HopNetIsWellFormed(t);
      ClearPaths(t);
      ghost var net := Network(t);
      SearchStart(HopNet(net), Distances());
      var q: seq<Node> := [t];
      ghost var done: set<Link> := {};
      NothingPopped(HopNet(net));
      DistancesKeys();
      NothingFar(Distances(), t);
      while q != []
        invariant Valid() && Network(t) == net && target == t
        invariant Search(HopNet(net), Distances(), OutPaths(), popped, q, done) && AllRelaxed(HopNet(net), popped, done)
        invariant WithinOneHop(Distances(), popped, q)
        decreases |nodes| - |popped|
      {
        HopPopBound(t, popped, q, done);
        Pop(HopNet(net), Distances(), OutPaths(), popped, q, done);
        PopHop(net, Distances(), OutPaths(), popped, q, done);
        var v := q[0];
        q := q[1..];
        ghost var before, doneBefore := popped, done;
        popped := popped + [v];
        LastIn(popped);
        q, done := VisitAll(t, v, q, popped, done);
        HopLinksDone(t, before, v, doneBefore, done);
      }
      SearchEnd(HopNet(net), Distances(), OutPaths(), popped, done);
      AllPopped(HopNet(net), Distances(), OutPaths(), popped, done);
    }

    lemma DistancesKeys()
      ensures forall n | n in nodes :: n in Distances()
    {
    }

    lemma HopPopBound(t: Node, popped: seq<Node>, q: seq<Node>, done: set<Link>)
      requires Valid() && Search(HopNet(Network(t)), Distances(), OutPaths(), popped, q, done) && q != []
      ensures |popped| < |nodes| && q[0] in nodes
    {
      hide Valid, Tree, DoneLinks, Rooted, Ordered, Network;
      var all := popped + q;
      forall i | 0 <= i < |all| ensures all[i] in nodes { assert all[i] in all && all[i] in Distances(); }
      assert (popped + q)[|popped|] == q[0];
      DistinctBound(all, nodes);
    }

    lemma HopLinksDone(t: Node, popped: seq<Node>, v: Node, done: set<Link>, done': set<Link>)
      requires Valid() && v in nodes && AllRelaxed(HopNet(Network(t)), popped, done) && done <= done'
      requires forall j | 0 <= j < |v.inLinks| :: v.inLinks[j] in Network(t).arcs ==> v.inLinks[j] in done'
      ensures AllRelaxed(HopNet(Network(t)), popped + [v], done')
    {
      hide Valid, AsGraph, WellLinked;
      forall l | l in Network(t).arcs && Network(t).arcs[l].dst == v ensures l in done' {
        LinkIsListed(l, v);
      }
    }

    /** The popped nodes are distinct nodes of the graph. */
    lemma PopBound(t: Node, popped: seq<Node>, q: seq<Node>, done: set<Link>)
      requires Valid() && Search(Network(t), Distances(), OutPaths(), popped, q, done) && q != []
      ensures |popped| < |nodes| && q[0] in nodes
    {
      hide Valid, Tree, DoneLinks, Rooted, Ordered, Network;
      var all := popped + q;
      forall i | 0 <= i < |all| ensures all[i] in nodes { assert all[i] in all && all[i] in Distances(); }
      assert (popped + q)[|popped|] == q[0];
      DistinctBound(all, nodes);
    }

    /** Every usable link into a popped node is among the incoming links that were considered. */
    lemma InLinksDone(t: Node, popped: seq<Node>, dest: Node, done: set<Link>, done': set<Link>)
      requires Valid() && dest in nodes && AllRelaxed(Network(t), popped, done) && done <= done'
      requires forall j | 0 <= j < |dest.inLinks| :: dest.inLinks[j] in Network(t).arcs ==> dest.inLinks[j] in done'
      ensures AllRelaxed(Network(t), popped + [dest], done')
    {
      hide Valid, AsGraph, WellLinked;
      forall l | l in Network(t).arcs && Network(t).arcs[l].dst == dest ensures l in done' {
        LinkIsListed(l, dest);
      }
    }
  }

  lemma KeyIsInjective(a: int32, b: int32)
    ensures Key(a) == Key(b) <==> a == b
    ensures Key(a) <= Key(-1)
  {
  }

  /** Removal does not depend on whether the elements are typed as possibly null. */
  lemma {:induction false} SameIndex(q: seq<Node>, n: Node)
    ensures IndexOf<Node>(q, n) == IndexOf<Node?>(q, n)
  {
    if q != [] { SameIndex(q[1..], n); }
  }

  lemma SameRemoval(q: seq<Node>, n: Node)
    ensures Removed<Node>(q, n) == Removed<Node?>(q, n)
  {
    hide IndexOf;
    SameIndex(q, n);
  }

  /** Adding the weight of the link and then that of the node. */
  lemma NewDistance(net: Net<Node, Link>, d: Dist, l: Link)
    requires WellFormed(net) && l in net.arcs
    ensures
      var a := net.arcs[l];
      Add(d, StepCost(net, l)) ==
        if a.dst != net.target then Add(Add(d, a.weight), net.weight[a.dst]) else Add(d, a.weight)
  {
  }

  lemma NotShorter(d: Dist, e: Dist)
    ensures !(d != Inf && Less(d, e)) ==> !Less(d, e)
  {
  }

  lemma LastIn<T>(s: seq<T>)
    ensures s != [] ==> s[|s| - 1] in s
  {
  }

  lemma NothingFar(dist: map<Node, Dist>, t: Node)
    requires t in dist
    ensures WithinOneHop(dist, [], [t])
  {
    assert [] + [t] == [t];
  }

  lemma NothingPopped(net: Net<Node, Link>)
    ensures AllRelaxed(net, [], {})
  {
  }

  /** Distinct elements of t are at most as many as t has. */
  lemma {:induction false} DistinctBound<T>(s: seq<T>, t: seq<T>)
    requires Distinct(s) && forall i | 0 <= i < |s| :: s[i] in t
    ensures |s| <= |t|
  {
    if s != [] {
      var k :| 0 <= k < |t| && t[k] == s[0];
      var t' := t[..k] + t[k + 1..];
      forall i | 0 <= i < |s[1..]| ensures s[1..][i] in t' {
        assert s[1..][i] == s[i + 1];
        var j :| 0 <= j < |t| && t[j] == s[i + 1];
        assert t'[if j < k then j else j - 1] == t[j];
      }
      DistinctBound(s[1..], t');
    }
  }
}
