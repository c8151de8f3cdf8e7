/** Traversal: `hasLinkedNode(type)` and `getLinkedNode(type)`. Both walk the
    node's output pins in order and, for each, look up every pin its
    `toLinks` name through the node's graph and then that pin's owner by node
    id. A node of the requested type is a match. `return@forEachTo` only
    leaves the callback, so the walk over one pin's links never stops early:
    `getLinkedNode` answers the last match among the links of the first output
    pin that has any. */
module Traversal {
  import opened Base
  import opened Pins
  import opened Nodes
  import opened Graphs
  import opened Links
  import opened Wellformed

  /** `type.isInstance(node)`, with `types` the classes that are `T` or extend it. */
  predicate IsInstance(m: Node, types: set<NodeClass>)
  {
    m.NodeAdapter? && m.cls in types
  }

  /** The graph after a search, and the node it found. */
  datatype Search = Search(graph: Graph, found: Nullable<Node>)

  /** The graph a node's `graph` field names: the graph it was added to when
      attached, `IGraph.Empty` otherwise. */
  function Home(g: Graph, n: Node): (h: Graph)
    ensures h.EmptyGraph? || h == g
  {
    if n.NodeAdapter? && n.attached then g else EmptyGraph
  }

  /** One link of the walk: `graph.findPin(id)`, then
      `graph.findNode(link.nodeId)`. */
  function LookupOwner(g: Graph, id: int): (r: NodeFound)
  {
    var f := FindPin(g, id);
    FindNode(f.graph, f.pin.NodeId())
  }

  // ----------------------------------------------------------- getLinkedNode

  /** `output.forEachTo(graph) { ... }` in `getLinkedNode`: every link is
      looked up, and each node of the type replaces what was found before. */
  function SearchLinks(g: Graph, ids: seq<int>, types: set<NodeClass>, found: Nullable<Node>): (r: Search)
    decreases |ids|
  {
    if |ids| == 0 then Search(g, found)
    else
      var m := LookupOwner(g, ids[0]);
      SearchLinks(m.graph, ids[1..], types, if IsInstance(m.node, types) then NonNull(m.node) else found)
  }

  /** The loop of `getLinkedNode` over the output pins: the first pin whose
      links found a node ends the search with it. */
  function SearchOutputs(g: Graph, pins: seq<LivePin>, types: set<NodeClass>): (r: Search)
    decreases |pins|
  {
    if |pins| == 0 then Search(g, Null)
    else if pins[0].io != Output then SearchOutputs(g, pins[1..], types)
    else
      var s := SearchLinks(g, pins[0].toLinks, types, Null);
      if s.found.NonNull? then s else SearchOutputs(s.graph, pins[1..], types)
  }

  /** `getLinkedNode(type)` on node `n`, whose `graph` field names `g` when
      attached; `INode.Empty` answers null. Lookups on `IGraph.Empty` change
      nothing, so a detached node leaves `g` as it was. */
  function GetLinkedNode(g: Graph, n: Node, types: set<NodeClass>): (r: Search)
    ensures n.EmptyNode? ==> r == Search(g, Null)
    ensures !(n.NodeAdapter? && n.attached) ==> r.graph == g
  {
    if n.EmptyNode? then Search(g, Null)
    else if !n.attached then Search(g, SearchOutputs(EmptyGraph, n.pins, types).found)
    else SearchOutputs(g, n.pins, types)
  }

  // ----------------------------------------------------------- hasLinkedNode

  /** `output.forEachTo(graph) { ... }` in `hasLinkedNode`: every link is
      looked up, and a node of the type sets the flag. */
  function AnyLinks(g: Graph, ids: seq<int>, types: set<NodeClass>, has: bool): (r: Answer)
    decreases |ids|
  {
    if |ids| == 0 then Answer(g, has)
    else
      var m := LookupOwner(g, ids[0]);
      AnyLinks(m.graph, ids[1..], types, has || IsInstance(m.node, types))
  }

  /** The loop of `hasLinkedNode` over the output pins: the first pin whose
      links set the flag answers true. */
  function AnyOutputs(g: Graph, pins: seq<LivePin>, types: set<NodeClass>): (r: Answer)
    decreases |pins|
  {
    if |pins| == 0 then Answer(g, false)
    else if pins[0].io != Output then AnyOutputs(g, pins[1..], types)
    else
      var a := AnyLinks(g, pins[0].toLinks, types, false);
      if a.yes then a else AnyOutputs(a.graph, pins[1..], types)
  }

  /** `hasLinkedNode(type)` on node `n`; `INode.Empty` answers false. */
  function HasLinkedNode(g: Graph, n: Node, types: set<NodeClass>): (r: Answer)
    ensures n.EmptyNode? ==> r == Answer(g, false)
    ensures !(n.NodeAdapter? && n.attached) ==> r.graph == g
  {
    if n.EmptyNode? then Answer(g, false)
    else if !n.attached then Answer(g, AnyOutputs(EmptyGraph, n.pins, types).yes)
    else AnyOutputs(g, n.pins, types)
  }

  // ------------------------------------------------------------ agreement

  /** The two link walks do the same lookups, and the flag is set exactly
      when a node was found. */
  lemma {:induction false} LinksAgree(g: Graph, ids: seq<int>, types: set<NodeClass>, found: Nullable<Node>)
    ensures AnyLinks(g, ids, types, found.NonNull?) ==
            Answer(SearchLinks(g, ids, types, found).graph, SearchLinks(g, ids, types, found).found.NonNull?)
    decreases |ids|
  {
    if |ids| > 0 {
      var m := LookupOwner(g, ids[0]);
      var found' := if IsInstance(m.node, types) then NonNull(m.node) else found;
      LinksAgree(m.graph, ids[1..], types, found');
    }
  }

  /** The two pin walks do the same lookups and agree on the answer. */
  lemma {:induction false} OutputsAgree(g: Graph, pins: seq<LivePin>, types: set<NodeClass>)
    ensures AnyOutputs(g, pins, types) ==
            Answer(SearchOutputs(g, pins, types).graph, SearchOutputs(g, pins, types).found.NonNull?)
    decreases |pins|
  {
    if |pins| > 0 {
      if pins[0].io != Output {
        OutputsAgree(g, pins[1..], types);
      } else {
        LinksAgree(g, pins[0].toLinks, types, Null);
        var s := SearchLinks(g, pins[0].toLinks, types, Null);
        OutputsAgree(s.graph, pins[1..], types);
      }
    }
  }

  /** `hasLinkedNode(type)` is true exactly when `getLinkedNode(type)` is not
      null, and both leave the graph in the same state. */
  lemma HasLinkedNodeIffGetLinkedNode(g: Graph, n: Node, types: set<NodeClass>)
    ensures HasLinkedNode(g, n, types).yes <==> GetLinkedNode(g, n, types).found.NonNull?
    ensures HasLinkedNode(g, n, types).graph == GetLinkedNode(g, n, types).graph
  {
    if n.NodeAdapter? {
      OutputsAgree(Home(g, n), n.pins, types);
    }
  }

  // ------------------------------------------------------ detached nodes

  /** On `IGraph.Empty` every link resolves to `IPin.Empty`, whose owner is
      `INode.Empty`: no link walk finds anything. */
  lemma {:induction false} EmptyLinksFindNothing(ids: seq<int>, types: set<NodeClass>, found: Nullable<Node>)
    ensures SearchLinks(EmptyGraph, ids, types, found) == Search(EmptyGraph, found)
    decreases |ids|
  {
    if |ids| > 0 {
      EmptyLinksFindNothing(ids[1..], types, found);
    }
  }

  /** No pin walk on `IGraph.Empty` finds anything. */
  lemma {:induction false} EmptyOutputsFindNothing(pins: seq<LivePin>, types: set<NodeClass>)
    ensures SearchOutputs(EmptyGraph, pins, types) == Search(EmptyGraph, Null)
    decreases |pins|
  {
    if |pins| > 0 {
      EmptyLinksFindNothing(pins[0].toLinks, types, Null);
      EmptyOutputsFindNothing(pins[1..], types);
    }
  }

  /** A node that was never added to a graph finds no linked node, whatever
      its pins' links say. */
  lemma DetachedFindsNothing(g: Graph, n: Node, types: set<NodeClass>)
    requires !(n.NodeAdapter? && n.attached)
    ensures GetLinkedNode(g, n, types) == Search(g, Null)
    ensures HasLinkedNode(g, n, types) == Answer(g, false)
  {
    HasLinkedNodeIffGetLinkedNode(g, n, types);
    if n.NodeAdapter? {
      EmptyOutputsFindNothing(n.pins, types);
    }
  }

  /** A pin walk over pins with no outgoing links finds nothing and looks
      nothing up. */
  lemma {:induction false} UnlinkedOutputsFindNothing(g: Graph, pins: seq<LivePin>, types: set<NodeClass>)
    requires forall i :: 0 <= i < |pins| ==> pins[i].toLinks == []
    ensures SearchOutputs(g, pins, types) == Search(g, Null)
    decreases |pins|
  {
    if |pins| > 0 {
      UnlinkedOutputsFindNothing(g, pins[1..], types);
    }
  }

  /** A node none of whose pins links anywhere finds no linked node, and
      asking leaves the graph as it was. */
  lemma UnlinkedFindsNothing(g: Graph, n: Node, types: set<NodeClass>)
    requires n.NodeAdapter? ==> forall i :: 0 <= i < |n.pins| ==> n.pins[i].toLinks == []
    ensures GetLinkedNode(g, n, types) == Search(g, Null)
    ensures HasLinkedNode(g, n, types) == Answer(g, false)
  {
    HasLinkedNodeIffGetLinkedNode(g, n, types);
    if n.NodeAdapter? {
      UnlinkedOutputsFindNothing(EmptyGraph, n.pins, types);
      UnlinkedOutputsFindNothing(g, n.pins, types);
    }
  }

  // ------------------------------------------ what a walk finds, declaratively

  /** The node holding the pin that carries `x`; `INode.Empty` when none does. */
  ghost function Owner(g: Graph, x: int): (m: Node)
    ensures m.NodeAdapter? <==> x in PinIds(g.Nodes())
  {
    if x in PinIds(g.Nodes()) then g.nodes[Where(g, x).k] else EmptyNode
  }

  /** The last position of `ids` whose pin's owner is of the type; -1 when
      there is none. */
  ghost function LastMatch(g: Graph, ids: seq<int>, types: set<NodeClass>): (i: int)
    ensures -1 <= i < |ids|
    decreases |ids|
  {
    if |ids| == 0 then -1
    else
      var i := LastMatch(g, ids[1..], types);
      if i != -1 then i + 1
      else if IsInstance(Owner(g, ids[0]), types) then 0
      else -1
  }

  /** `LastMatch` is the last position whose owner is of the type, and -1
      exactly when no position's is. */
  lemma {:induction false} LastMatchMeans(g: Graph, ids: seq<int>, types: set<NodeClass>)
    ensures var i := LastMatch(g, ids, types);
      && (i == -1 <==> forall t :: 0 <= t < |ids| ==> !IsInstance(Owner(g, ids[t]), types))
      && (i != -1 ==> IsInstance(Owner(g, ids[i]), types) &&
                      forall t :: i < t < |ids| ==> !IsInstance(Owner(g, ids[t]), types))
    decreases |ids|
  {
    if |ids| > 0 {
      LastMatchMeans(g, ids[1..], types);
      assert forall t :: 1 <= t < |ids| ==> ids[t] == ids[1..][t - 1];
    }
  }

  /** An output pin with a link to a node of the type. */
  ghost predicate Hit(g: Graph, p: LivePin, types: set<NodeClass>)
  {
    p.io == Output && LastMatch(g, p.toLinks, types) != -1
  }

  /** The first position holding true; -1 when there is none. */
  function FirstTrue(bs: seq<bool>): (j: int)
    ensures -1 <= j < |bs|
    ensures j == -1 <==> forall t :: 0 <= t < |bs| ==> !bs[t]
    ensures j != -1 ==> bs[j] && forall t :: 0 <= t < j ==> !bs[t]
    decreases |bs|
  {
    if |bs| == 0 then -1
    else if bs[0] then 0
    else
      var j := FirstTrue(bs[1..]);
      assert forall t :: 1 <= t < |bs| ==> bs[t] == bs[1..][t - 1];
      if j == -1 then -1 else j + 1
  }

  /** Which pins of `pins` hold a hit. */
  ghost function Hits(g: Graph, pins: seq<LivePin>, types: set<NodeClass>): (bs: seq<bool>)
    ensures |bs| == |pins| && forall t :: 0 <= t < |pins| ==> bs[t] == Hit(g, pins[t], types)
  {
    seq(|pins|, t requires 0 <= t < |pins| => Hit(g, pins[t], types))
  }

  /** The first position of `pins` holding a hit; -1 when there is none. */
  ghost function FirstHit(g: Graph, pins: seq<LivePin>, types: set<NodeClass>): (j: int)
    ensures -1 <= j < |pins|
    ensures j == -1 <==> forall t :: 0 <= t < |pins| ==> !Hit(g, pins[t], types)
    ensures j != -1 ==> Hit(g, pins[j], types) && forall t :: 0 <= t < j ==> !Hit(g, pins[t], types)
  {
    FirstTrue(Hits(g, pins, types))
  }

  /** Every link of every pin in `pins` names a pin of the graph. */
  ghost predicate Resolvable(g: Graph, pins: seq<LivePin>)
  {
    forall p, x | p in pins && x in p.toLinks :: x in PinIds(g.Nodes())
  }

  /** `h` is `g` after lookups: well formed, with the same pins and the same
      node objects, of the same classes. */
  ghost predicate Looked(g: Graph, h: Graph)
  {
    && WF(h) && Relinked(g, h)
    && (forall l :: PinAtLoc(h, l) == PinAtLoc(g, l))
    && (g.GraphImpl? ==> forall k :: 0 <= k < |g.nodes| ==> h.nodes[k].cls == g.nodes[k].cls)
  }

  /** Lookups compose. */
  lemma LookedTrans(a: Graph, b: Graph, c: Graph)
    requires Looked(a, b) && Looked(b, c)
    ensures Looked(a, c)
  {
    RelinkedTrans(a, b, c);
  }

  /** After lookups every pin id has the same owner object. */
  lemma OwnerLooked(g: Graph, h: Graph, x: int)
    requires WF(g) && Looked(g, h)
    ensures Owner(h, x).NodeAdapter? == Owner(g, x).NodeAdapter?
    ensures Owner(g, x).NodeAdapter? ==> Owner(h, x).oid == Owner(g, x).oid && Owner(h, x).cls == Owner(g, x).cls
  {
    WhereRelinked(g, h, x);
    RelinkedIds(g, h);
    assert h.Nodes() == h.nodes && g.Nodes() == g.nodes;
  }

  /** Lookups do not change which position of a list of ids matches last. */
  lemma {:induction false} LastMatchLooked(g: Graph, h: Graph, ids: seq<int>, types: set<NodeClass>)
    requires WF(g) && Looked(g, h)
    ensures LastMatch(h, ids, types) == LastMatch(g, ids, types)
    decreases |ids|
  {
    if |ids| > 0 {
      LastMatchLooked(g, h, ids[1..], types);
      OwnerLooked(g, h, ids[0]);
    }
  }

  /** Lookups do not change which output pin hits first. */
  lemma FirstHitLooked(g: Graph, h: Graph, pins: seq<LivePin>, types: set<NodeClass>)
    requires WF(g) && Looked(g, h)
    ensures FirstHit(h, pins, types) == FirstHit(g, pins, types)
  {
    forall t | 0 <= t < |pins| ensures Hit(h, pins[t], types) == Hit(g, pins[t], types) {
      LastMatchLooked(g, h, pins[t].toLinks, types);
    }
  }

  /** Finding a node keeps a well-formed graph well formed, changing only
      the node-id cache. */
  lemma FindNodeWF(g: Graph, id: int)
    requires WF(g)
    ensures var m := FindNode(g, id);
      WF(m.graph) && m.graph == g.(nodeIdCache := m.graph.nodeIdCache)
  {
    var h := FindNode(g, id).graph;
    if id >= 0 {
      assert NodeCacheCoherent(h, {});
      assert forall k :: 0 <= k < |h.nodes| ==> NodeCoherent(h.nodes[k]);
      assert PinCacheCoherent(h, {}) && OwnerCacheCoherent(h, {});
      SamePinsWF(g, h);
    }
  }

  /** Looking up a pin id a well-formed graph carries answers that pin,
      which names its owner's node id, and the lookup is a `Looked` step. */
  lemma FindPinOwner(g: Graph, x: int)
    requires WF(g) && x in PinIds(g.nodes)
    ensures var f := FindPin(g, x); var w := Where(g, x);
      && Looked(g, f.graph)
      && w.At? && w.k < |g.nodes| && f.pin.NodeId() == g.nodes[w.k].nodeId
  {
    var f := FindPin(g, x);
    FindPinWF(g, x);
    var w := Where(g, x);
    assert g.Nodes() == g.nodes;
    assert f.graph.nodes == f.graph.Nodes();
    forall k | 0 <= k < |g.nodes| ensures f.graph.nodes[k].cls == g.nodes[k].cls {
      assert Restamped(g.nodes[k], f.graph.nodes[k]);
    }
  }

  /** Finding a node by the id of the node at position `k` of a well-formed
      graph answers that node, and the lookup is a `Looked` step. */
  lemma FindNodeAt(g: Graph, k: nat)
    requires WF(g) && k < |g.nodes|
    ensures var m := FindNode(g, g.nodes[k].nodeId);
      Looked(g, m.graph) && m.node == g.nodes[k]
  {
    var nid := g.nodes[k].nodeId;
    var m := FindNode(g, nid);
    FindNodeWF(g, nid);
    assert nid in NodeIds(g.nodes);
    var i :| 0 <= i < |g.nodes| && m.node == g.nodes[i];
    assert i == k;
    assert g.Nodes() == g.nodes;
    assert forall l :: PinAtLoc(m.graph, l) == PinAtLoc(g, l);
  }

  /** One link of the walk in a well-formed graph: looking up a pin id the
      graph carries answers the owner of that pin, and the lookups change
      nothing the walk depends on. */
  lemma LookupOwnerFinds(g: Graph, x: int)
    requires WF(g) && x in PinIds(g.nodes)
    ensures var m := LookupOwner(g, x);
      && Looked(g, m.graph)
      && m.node.NodeAdapter? && m.node.oid == Owner(g, x).oid && m.node.cls == Owner(g, x).cls
  {
    var f := FindPin(g, x);
    FindPinOwner(g, x);
    var w := Where(g, x);
    RelinkedIds(g, f.graph);
    FindNodeAt(f.graph, w.k);
    LookedTrans(g, f.graph, LookupOwner(g, x).graph);
    assert g.Nodes() == g.nodes;
  }

  /** A graph is reached from itself by no lookups. */
  lemma LookedRefl(g: Graph)
    requires WF(g)
    ensures Looked(g, g)
  {
  }

  /** Every link of a listed node's pins names a pin of the graph. */
  lemma ListedLinksResolve(g: Graph, k: nat)
    requires WF(g) && k < |g.nodes|
    ensures Resolvable(g, g.nodes[k].pins)
  {
    forall p, x | p in g.nodes[k].pins && x in p.toLinks ensures x in PinIds(g.Nodes()) {
      var t :| 0 <= t < |g.nodes[k].pins| && g.nodes[k].pins[t] == p;
      assert p == PinAtLoc(g, At(k, t)) && ToIds(p) == p.toLinks;
      assert x in ToIds(PinAtLoc(g, At(k, t)));
      assert LinksClosed(g);
    }
  }

  /** What one lookup leaves for the rest of a link walk: a well-formed
      graph with the same pin ids, the same owners and so the same last
      match in `rest`. */
  lemma LookupOwnerStep(g: Graph, x: int, rest: seq<int>, types: set<NodeClass>)
    requires WF(g) && x in PinIds(g.nodes)
    ensures var m := LookupOwner(g, x);
      && WF(m.graph) && PinIds(m.graph.nodes) == PinIds(g.nodes)
      && m.node.NodeAdapter? && m.node.oid == Owner(g, x).oid && m.node.cls == Owner(g, x).cls
      && LastMatch(m.graph, rest, types) == LastMatch(g, rest, types)
      && forall y | y in PinIds(g.nodes) :: Owner(m.graph, y).NodeAdapter? && Owner(m.graph, y).oid == Owner(g, y).oid
  {
    var m := LookupOwner(g, x);
    LookupOwnerFinds(g, x);
    RelinkedIds(g, m.graph);
    LastMatchLooked(g, m.graph, rest, types);
    assert g.Nodes() == g.nodes;
    forall y | y in PinIds(g.nodes) ensures Owner(m.graph, y).NodeAdapter? && Owner(m.graph, y).oid == Owner(g, y).oid {
      OwnerLooked(g, m.graph, y);
    }
  }

  /** `f` holds a node of the type that is the object `o`. */
  predicate FoundAs(f: Nullable<Node>, o: Node, types: set<NodeClass>)
  {
    f.NonNull? && IsInstance(f.value, types) && o.NodeAdapter? && f.value.oid == o.oid
  }

  /** The walk over one pin's links is a `Looked` step when every id it
      looks up names a pin of the graph. */
  lemma {:induction false} SearchLinksLooked(g: Graph, ids: seq<int>, types: set<NodeClass>, found: Nullable<Node>)
    requires WF(g) && forall x | x in ids :: x in PinIds(g.nodes)
    ensures Looked(g, SearchLinks(g, ids, types, found).graph)
    decreases |ids|
  {
    if |ids| == 0 {
      LookedRefl(g);
    } else {
      var m := LookupOwner(g, ids[0]);
      LookupOwnerFinds(g, ids[0]);
      RelinkedIds(g, m.graph);
      var found' := if IsInstance(m.node, types) then NonNull(m.node) else found;
      SearchLinksLooked(m.graph, ids[1..], types, found');
      LookedTrans(g, m.graph, SearchLinks(m.graph, ids[1..], types, found').graph);
    }
  }

  /** `getLinkedNode`'s walk over one pin's links: in a well-formed graph
      whose pins carry every id of `ids`, it answers the owner of the last
      id whose owner is of the type, or what it started with when none is. */
  lemma {:induction false} SearchLinksFinds(g: Graph, ids: seq<int>, types: set<NodeClass>, found: Nullable<Node>)
    requires WF(g) && forall x | x in ids :: x in PinIds(g.nodes)
    ensures var r := SearchLinks(g, ids, types, found); var i := LastMatch(g, ids, types);
      && (i == -1 ==> r.found == found)
      && (i != -1 ==> FoundAs(r.found, Owner(g, ids[i]), types))
    decreases |ids|
  {
    hide LookupOwner, WF;
    WFDistinct(g);
    assert g.Nodes() == g.nodes;
    if |ids| > 0 {
      var m := LookupOwner(g, ids[0]);
      LookupOwnerStep(g, ids[0], ids[1..], types);
      var found' := if IsInstance(m.node, types) then NonNull(m.node) else found;
      SearchLinksFinds(m.graph, ids[1..], types, found');
      var r := SearchLinks(m.graph, ids[1..], types, found');
      assert SearchLinks(g, ids, types, found) == r;
      var i' := LastMatch(g, ids[1..], types);
      if i' != -1 {
        assert ids[1..][i'] == ids[i' + 1];
        assert FoundAs(r.found, Owner(g, ids[i' + 1]), types);
        assert LastMatch(g, ids, types) == i' + 1;
        assert FoundAs(SearchLinks(g, ids, types, found).found, Owner(g, ids[LastMatch(g, ids, types)]), types);
      } else if IsInstance(m.node, types) {
        assert r.found == NonNull(m.node);
        assert FoundAs(r.found, Owner(g, ids[0]), types);
        assert LastMatch(g, ids, types) == 0;
        assert FoundAs(SearchLinks(g, ids, types, found).found, Owner(g, ids[LastMatch(g, ids, types)]), types);
      } else {
        assert r.found == found;
        assert LastMatch(g, ids, types) == -1;
      }
    }
  }

  // ------------------------------------------------------ the pin walk

  /** The first hit of a list of pins, read from its first pin and the rest. */
  lemma FirstHitStep(g: Graph, pins: seq<LivePin>, types: set<NodeClass>)
    requires |pins| > 0
    ensures var j := FirstHit(g, pins[1..], types);
      FirstHit(g, pins, types) ==
        if Hit(g, pins[0], types) then 0 else if j == -1 then -1 else j + 1
  {
    var j := FirstHit(g, pins[1..], types);
    assert forall t :: 1 <= t < |pins| ==> pins[t] == pins[1..][t - 1];
    if !Hit(g, pins[0], types) && j != -1 {
      assert Hit(g, pins[j + 1], types);
    }
  }

  /** What one pin's link walk leaves for the rest of the pin walk: a
      well-formed graph with the same pin ids, owners, last matches and
      first hit. */
  lemma SearchLinksStep(g: Graph, ids: seq<int>, rest: seq<LivePin>, types: set<NodeClass>, found: Nullable<Node>)
    requires WF(g) && forall x | x in ids :: x in PinIds(g.nodes)
    ensures var s := SearchLinks(g, ids, types, found);
      && WF(s.graph) && PinIds(s.graph.nodes) == PinIds(g.nodes)
      && FirstHit(s.graph, rest, types) == FirstHit(g, rest, types)
      && (forall p | p in rest :: LastMatch(s.graph, p.toLinks, types) == LastMatch(g, p.toLinks, types))
      && forall y | y in PinIds(g.nodes) :: Owner(s.graph, y).NodeAdapter? && Owner(s.graph, y).oid == Owner(g, y).oid
  {
    var s := SearchLinks(g, ids, types, found);
    SearchLinksLooked(g, ids, types, found);
    RelinkedIds(g, s.graph);
    FirstHitLooked(g, s.graph, rest, types);
    forall p | p in rest ensures LastMatch(s.graph, p.toLinks, types) == LastMatch(g, p.toLinks, types) {
      LastMatchLooked(g, s.graph, p.toLinks, types);
    }
    assert g.Nodes() == g.nodes;
    forall y | y in PinIds(g.nodes) ensures Owner(s.graph, y).NodeAdapter? && Owner(s.graph, y).oid == Owner(g, y).oid {
      OwnerLooked(g, s.graph, y);
    }
  }

  /** The link `getLinkedNode` answers for pin `p`: its last link whose
      owner is of the type. */
  ghost function LastLinked(g: Graph, p: LivePin, types: set<NodeClass>): (m: Node)
  {
    var i := LastMatch(g, p.toLinks, types);
    if i == -1 then EmptyNode else Owner(g, p.toLinks[i])
  }

  /** `getLinkedNode`'s walk over the output pins: it finds a node exactly
      when some output pin has a link to a node of the type, and then it is
      the last such link of the first such pin. */
  lemma {:induction false} SearchOutputsFinds(g: Graph, pins: seq<LivePin>, types: set<NodeClass>)
    requires WF(g) && Resolvable(g, pins)
    ensures var r := SearchOutputs(g, pins, types); var j := FirstHit(g, pins, types);
      && (r.found.NonNull? <==> j != -1)
      && (j != -1 ==> FoundAs(r.found, LastLinked(g, pins[j], types), types))
    decreases |pins|
  {
    hide SearchLinks, LookupOwner;
    assert g.Nodes() == g.nodes;
    if |pins| > 0 {
      FirstHitStep(g, pins, types);
      var j' := FirstHit(g, pins[1..], types);
      if pins[0].io != Output {
        SearchOutputsFinds(g, pins[1..], types);
        if j' != -1 {
          assert pins[1..][j'] == pins[j' + 1];
        }
      } else {
        var s := SearchLinks(g, pins[0].toLinks, types, Null);
        SearchLinksFinds(g, pins[0].toLinks, types, Null);
        if s.found.Null? {
          SearchLinksStep(g, pins[0].toLinks, pins[1..], types, Null);
          SearchOutputsFinds(s.graph, pins[1..], types);
          if j' != -1 {
            var p := pins[1..][j'];
            assert p == pins[j' + 1];
            var i := LastMatch(g, p.toLinks, types);
            assert p.toLinks[i] in PinIds(g.nodes);
            assert LastLinked(s.graph, p, types).oid == LastLinked(g, p, types).oid;
          }
        }
      }
    }
  }

  /** The pin walk is a `Looked` step. */
  lemma {:induction false} SearchOutputsLooked(g: Graph, pins: seq<LivePin>, types: set<NodeClass>)
    requires WF(g) && Resolvable(g, pins)
    ensures Looked(g, SearchOutputs(g, pins, types).graph)
    decreases |pins|
  {
    if |pins| == 0 {
      LookedRefl(g);
    } else if pins[0].io != Output {
      SearchOutputsLooked(g, pins[1..], types);
    } else {
      var s := SearchLinks(g, pins[0].toLinks, types, Null);
      assert g.Nodes() == g.nodes;
      SearchLinksLooked(g, pins[0].toLinks, types, Null);
      if s.found.Null? {
        RelinkedIds(g, s.graph);
        SearchOutputsLooked(s.graph, pins[1..], types);
        LookedTrans(g, s.graph, SearchOutputs(s.graph, pins[1..], types).graph);
      }
    }
  }

  // ------------------------------------------------- the node's operations

  /** `getLinkedNode(type)` on an attached node whose links all resolve:
      non-null exactly when one of its output pins links to a node of the
      type; then it is the last such link of the first such pin. The lookups
      leave the graph well formed, with the same pins and node objects. */
  lemma GetLinkedNodeFinds(g: Graph, n: Node, types: set<NodeClass>)
    requires WF(g) && n.NodeAdapter? && n.attached && Resolvable(g, n.pins)
    ensures var r := GetLinkedNode(g, n, types); var j := FirstHit(g, n.pins, types);
      && Looked(g, r.graph)
      && (r.found.NonNull? <==> j != -1)
      && (j != -1 ==> FoundAs(r.found, LastLinked(g, n.pins[j], types), types))
  {
    SearchOutputsFinds(g, n.pins, types);
    SearchOutputsLooked(g, n.pins, types);
  }

  /** `hasLinkedNode(type)` on an attached node whose links all resolve:
      true exactly when some output pin of the node links to a pin whose
      owner is of the type. */
  lemma HasLinkedNodeFinds(g: Graph, n: Node, types: set<NodeClass>)
    requires WF(g) && n.NodeAdapter? && n.attached && Resolvable(g, n.pins)
    ensures var r := HasLinkedNode(g, n, types);
      && WF(r.graph)
      && (r.yes <==> exists t, i :: 0 <= t < |n.pins| && n.pins[t].io == Output && 0 <= i < |n.pins[t].toLinks| &&
                                   IsInstance(Owner(g, n.pins[t].toLinks[i]), types))
  {
    HasLinkedNodeIffGetLinkedNode(g, n, types);
    GetLinkedNodeFinds(g, n, types);
    var j := FirstHit(g, n.pins, types);
    if j != -1 {
      LastMatchMeans(g, n.pins[j].toLinks, types);
      var i := LastMatch(g, n.pins[j].toLinks, types);
      assert IsInstance(Owner(g, n.pins[j].toLinks[i]), types);
    } else {
      forall t, i | 0 <= t < |n.pins| && n.pins[t].io == Output && 0 <= i < |n.pins[t].toLinks|
        ensures !IsInstance(Owner(g, n.pins[t].toLinks[i]), types)
      {
        assert !Hit(g, n.pins[t], types);
        LastMatchMeans(g, n.pins[t].toLinks, types);
      }
    }
  }
}
