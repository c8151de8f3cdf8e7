/** Graphs: the `IGraph` interface with its `Empty` sentinel and `GraphImpl`,
    which owns the ordered node list, hands out ids from one namespace shared
    by nodes and pins, and answers lookups from four caches before falling
    back on a scan of the list. A cached node is kept as its object identity
    (`oid`); a cached pin as the identity of its owner and its index there. */
module Graphs {
  import opened Base
  import opened Pins
  import opened Nodes

  /** A cached pin object: `IPin.Empty`, or pin `index` of node object `owner`. */
  datatype PinRef = EmptyRef | PinAt(owner: nat, index: nat)

  /** Where a pin was found in the node list. */
  datatype Loc = Nowhere | At(k: nat, j: nat)

  /** A graph: the sentinel `IGraph.Empty`, or a `GraphImpl` with its centre,
      node list, id hint (the private `nextId` field) and caches. */
  datatype Graph =
    | EmptyGraph
    | GraphImpl(centerX: Float, centerY: Float, nodes: seq<LiveNode>, hint: int,
                nodeIdCache: map<int, nat>, pinIdCache: map<int, PinRef>,
                pinNodeCache: map<int, nat>, activeIds: set<int>)
  {
    /** `isEmpty()`: true only for the sentinel. */
    predicate IsEmpty() { EmptyGraph? }

    /** The nodes `iterator()` visits, in order; the sentinel has none. */
    function Nodes(): seq<LiveNode> { if GraphImpl? then nodes else [] }
  }

  /** A freshly constructed `GraphImpl`: unset centre, no nodes, hint 0, empty caches. */
  function NewGraph(): (g: Graph)
    ensures !g.IsEmpty() && g.Nodes() == [] && g.hint == 0
    ensures g.GraphImpl? && g.centerX == MinValue && g.centerY == MinValue
    ensures g.nodeIdCache == map[] && g.pinIdCache == map[] && g.pinNodeCache == map[] && g.activeIds == {}
  {
    GraphImpl(MinValue, MinValue, [], 0, map[], map[], map[], {})
  }

  /** The position of the node object `oid` in the list, or -1. */
  function IndexOfOid(nodes: seq<LiveNode>, oid: nat): (k: int)
    ensures -1 <= k < |nodes|
    ensures k == -1 <==> forall i :: 0 <= i < |nodes| ==> nodes[i].oid != oid
    ensures k != -1 ==> nodes[k].oid == oid && forall i :: 0 <= i < k ==> nodes[i].oid != oid
  {
    if |nodes| == 0 then -1
    else if nodes[0].oid == oid then 0
    else
      var k := IndexOfOid(nodes[1..], oid);
      if k == -1 then -1 else k + 1
  }

  /** The node object `oid` as the list holds it; `INode.Empty` once it has
      left the list. */
  function NodeOf(nodes: seq<LiveNode>, oid: nat): (n: Node)
    ensures n.NodeAdapter? ==> n in nodes && n.oid == oid
    ensures n.EmptyNode? <==> forall i :: 0 <= i < |nodes| ==> nodes[i].oid != oid
  {
    var k := IndexOfOid(nodes, oid);
    if k == -1 then EmptyNode else nodes[k]
  }

  /** A pin located in the node list, with its location. */
  datatype Located = Located(pin: Pin, loc: Loc)

  /** The pin object a cache entry names, as the list holds it. */
  function PinOf(nodes: seq<LiveNode>, ref: PinRef): (r: Located)
    ensures r.loc.Nowhere? <==> r.pin.EmptyPin?
    ensures r.loc.At? ==> r.loc.k < |nodes| && r.loc.j < |nodes[r.loc.k].pins| &&
                          r.pin == nodes[r.loc.k].pins[r.loc.j]
  {
    match ref
    case EmptyRef => Located(EmptyPin, Nowhere)
    case PinAt(o, j) =>
      var k := IndexOfOid(nodes, o);
      if k == -1 || j >= |nodes[k].pins| then Located(EmptyPin, Nowhere)
      else Located(nodes[k].pins[j], At(k, j))
  }

  /** The ids the nodes carry. */
  ghost function NodeIds(nodes: seq<LiveNode>): set<int>
  {
    set k | 0 <= k < |nodes| :: nodes[k].nodeId
  }

  /** The ids the pins of the nodes carry. */
  ghost function PinIds(nodes: seq<LiveNode>): set<int>
  {
    set k, j | 0 <= k < |nodes| && 0 <= j < |nodes[k].pins| :: nodes[k].pins[j].pinId
  }

  /** `b` is the list `a` after lookups: the same node objects in the same
      order, each restamped. */
  predicate NodesRestamped(a: seq<LiveNode>, b: seq<LiveNode>)
  {
    |a| == |b| && forall k :: 0 <= k < |a| ==> Restamped(a[k], b[k])
  }

  /** Restamping keeps every id, identity and position. */
  lemma RestampedKeepsIds(a: seq<LiveNode>, b: seq<LiveNode>)
    requires NodesRestamped(a, b)
    ensures NodeIds(a) == NodeIds(b) && PinIds(a) == PinIds(b)
    ensures forall o :: IndexOfOid(a, o) == IndexOfOid(b, o)
  {
    forall o ensures IndexOfOid(a, o) == IndexOfOid(b, o) {
      IndexOfOidRestamped(a, b, o);
    }
    forall x | x in PinIds(b) ensures x in PinIds(a) {
      var k, j :| 0 <= k < |b| && 0 <= j < |b[k].pins| && b[k].pins[j].pinId == x;
      assert a[k].pins[j].pinId == x;
    }
    forall x | x in PinIds(a) ensures x in PinIds(b) {
      var k, j :| 0 <= k < |a| && 0 <= j < |a[k].pins| && a[k].pins[j].pinId == x;
      assert b[k].pins[j].pinId == x;
    }
    forall x | x in NodeIds(b) ensures x in NodeIds(a) {
      var k :| 0 <= k < |b| && b[k].nodeId == x;
      assert a[k].nodeId == x;
    }
  }

  /** Restamping keeps positions of node objects. */
  lemma {:induction false} IndexOfOidRestamped(a: seq<LiveNode>, b: seq<LiveNode>, o: nat)
    requires NodesRestamped(a, b)
    ensures IndexOfOid(a, o) == IndexOfOid(b, o)
  {
    if |a| > 0 {
      assert a[0].oid == b[0].oid;
      assert NodesRestamped(a[1..], b[1..]) by {
        forall k | 0 <= k < |a| - 1 ensures Restamped(a[1..][k], b[1..][k]) {
          assert a[1..][k] == a[k + 1];
        }
      }
      IndexOfOidRestamped(a[1..], b[1..], o);
    }
  }

  /** Node objects are distinct: no identity appears twice in the list. */
  ghost predicate OidsUnique(nodes: seq<LiveNode>)
  {
    forall a, b :: 0 <= a < b < |nodes| ==> nodes[a].oid != nodes[b].oid
  }

  /** With distinct identities, the object at position `k` is found at `k`. */
  lemma IndexOfOidAt(nodes: seq<LiveNode>, k: nat)
    requires OidsUnique(nodes) && k < |nodes|
    ensures IndexOfOid(nodes, nodes[k].oid) == k
  {
  }

  /** The node-id cache is right about every (non-negative) id a node carries:
      the entry for such an id names a node object in the list that carries
      it. Entries for other keys are stale and unconstrained. */
  ghost predicate NodeCacheCoherent(g: Graph, off: set<int>)
    requires g.GraphImpl?
  {
    forall key :: key in g.nodeIdCache && key >= 0 && key !in off && key in NodeIds(g.nodes) ==>
      NodeOf(g.nodes, g.nodeIdCache[key]).NodeId() == key
  }

  /** The pin-id cache is right about every id a pin carries. */
  ghost predicate PinCacheCoherent(g: Graph, off: set<int>)
    requires g.GraphImpl?
  {
    forall key :: key in g.pinIdCache && key >= 0 && key !in off && key in PinIds(g.nodes) ==>
      PinOf(g.nodes, g.pinIdCache[key]).pin.PinId() == key
  }

  /** The pin-id-to-node cache is right about every id a pin carries: the entry
      names the node object that holds that pin. */
  ghost predicate OwnerCacheCoherent(g: Graph, off: set<int>)
    requires g.GraphImpl?
  {
    forall key :: key in g.pinNodeCache && key >= 0 && key !in off && key in PinIds(g.nodes) ==>
      var n := NodeOf(g.nodes, g.pinNodeCache[key]);
      n.NodeAdapter? && exists j :: 0 <= j < |n.pins| && n.pins[j].pinId == key
  }

  /** The lookup structures agree with the list, except possibly for the ids
      in `off`: identities are distinct, each node's own caches are sound and
      the graph's caches are right about every other id in use. */
  ghost predicate CoherentOff(g: Graph, off: set<int>)
  {
    g.GraphImpl? ==>
      && OidsUnique(g.nodes)
      && (forall k :: 0 <= k < |g.nodes| ==> NodeCoherent(g.nodes[k]))
      && NodeCacheCoherent(g, off)
      && PinCacheCoherent(g, off)
      && OwnerCacheCoherent(g, off)
  }

  /** The lookup structures agree with the list about every id in use. */
  ghost predicate Coherent(g: Graph)
  {
    CoherentOff(g, {})
  }

  // ---------------------------------------------------------------- findNode

  /** A graph after a node lookup, and the node it answered. */
  datatype NodeFound = NodeFound(graph: Graph, node: Node)

  /** A graph after a membership test, and the answer. */
  datatype Answer = Answer(graph: Graph, yes: bool)

  /** A graph after a scan, and the position the scan stopped at (-1: none). */
  datatype NodeScan = NodeScan(graph: Graph, index: int)

  /** The loop of `findNode`/`hasNode` from position `k` on: cache each visited
      node under its id and stop at the first node carrying `id`. */
  function ScanNodesById(g: Graph, id: int, k: nat): (r: NodeScan)
    requires g.GraphImpl? && k <= |g.nodes|
    ensures r.graph.GraphImpl? && r.graph == g.(nodeIdCache := r.graph.nodeIdCache)
    ensures g.nodeIdCache.Keys <= r.graph.nodeIdCache.Keys
    ensures -1 <= r.index < |g.nodes|
    ensures r.index == -1 <==> forall i :: k <= i < |g.nodes| ==> g.nodes[i].nodeId != id
    ensures r.index != -1 ==>
      k <= r.index && g.nodes[r.index].nodeId == id &&
      forall i :: k <= i < r.index ==> g.nodes[i].nodeId != id
    ensures OidsUnique(g.nodes) && NodeCacheCoherent(g, {}) ==> NodeCacheCoherent(r.graph, {})
    decreases |g.nodes| - k
  {
    if k == |g.nodes| then NodeScan(g, -1)
    else
      var n := g.nodes[k];
      var g' := g.(nodeIdCache := g.nodeIdCache[n.nodeId := n.oid]);
      assert OidsUnique(g.nodes) && NodeCacheCoherent(g, {}) ==> NodeCacheCoherent(g', {}) by {
        if OidsUnique(g.nodes) {
          IndexOfOidAt(g.nodes, k);
        }
      }
      if n.nodeId == id then NodeScan(g', k) else ScanNodesById(g', id, k + 1)
  }

  /** `findNode(nodeId)`: `INode.Empty` for a negative id; the cached node on a
      cache hit; otherwise the first node in list order carrying the id, or
      `INode.Empty`. Only the node-id cache changes. */
  function FindNode(g: Graph, id: int): (r: NodeFound)
    ensures g.EmptyGraph? || id < 0 ==> r == NodeFound(g, EmptyNode)
    ensures g.GraphImpl? ==> r.graph.GraphImpl? && r.graph == g.(nodeIdCache := r.graph.nodeIdCache)
    ensures r.node.NodeAdapter? ==> r.node in g.Nodes()
    ensures g.GraphImpl? && id >= 0 && id in g.nodeIdCache ==>
      r == NodeFound(g, NodeOf(g.nodes, g.nodeIdCache[id]))
    ensures g.GraphImpl? && id >= 0 && id !in g.nodeIdCache ==>
      if r.node.EmptyNode? then forall i :: 0 <= i < |g.nodes| ==> g.nodes[i].nodeId != id
      else exists i :: 0 <= i < |g.nodes| && r.node == g.nodes[i] && g.nodes[i].nodeId == id &&
             forall i' :: 0 <= i' < i ==> g.nodes[i'].nodeId != id
    ensures g.GraphImpl? && id >= 0 && Coherent(g) ==>
      && NodeCacheCoherent(r.graph, {})
      && (id in NodeIds(g.nodes) ==> r.node.NodeId() == id)
      && (id !in NodeIds(g.nodes) && id !in g.nodeIdCache ==> r.node.EmptyNode?)
  {
    if g.EmptyGraph? || id < 0 then NodeFound(g, EmptyNode)
    else if id in g.nodeIdCache then NodeFound(g, NodeOf(g.nodes, g.nodeIdCache[id]))
    else
      var s := ScanNodesById(g, id, 0);
      NodeFound(s.graph, if s.index == -1 then EmptyNode else g.nodes[s.index])
  }

  /** `hasNode(nodeId)`: false for a negative id; true on a cache hit;
      otherwise whether the scan met a node carrying the id. */
  function HasNode(g: Graph, id: int): (r: Answer)
    ensures g.EmptyGraph? || id < 0 ==> r == Answer(g, false)
    ensures g.GraphImpl? ==> r.graph.GraphImpl? && r.graph == g.(nodeIdCache := r.graph.nodeIdCache)
    ensures g.GraphImpl? && id >= 0 && id !in g.nodeIdCache ==> (r.yes <==> id in NodeIds(g.nodes))
    ensures g.GraphImpl? && id >= 0 && id in g.nodeIdCache ==> r == Answer(g, true)
  {
    if g.EmptyGraph? || id < 0 then Answer(g, false)
    else if id in g.nodeIdCache then Answer(g, true)
    else
      var s := ScanNodesById(g, id, 0);
      Answer(s.graph, s.index != -1 && !g.nodes[s.index].IsEmpty())
  }

  /** Every node object the node-id cache names is still in the list. */
  ghost predicate NodeCacheLive(g: Graph)
    requires g.GraphImpl?
  {
    forall key :: key in g.nodeIdCache ==> !NodeOf(g.nodes, g.nodeIdCache[key]).IsEmpty()
  }

  /** `hasNode` answers whether `findNode` finds something, and both leave the
      graph alike, as long as no cached node has left the list. */
  lemma HasNodeAgreesWithFindNode(g: Graph, id: int)
    requires g.GraphImpl? ==> NodeCacheLive(g)
    ensures HasNode(g, id) == Answer(FindNode(g, id).graph, !FindNode(g, id).node.IsEmpty())
  {
  }

  /** Node and pin ids are non-negative and pairwise distinct across the whole
      graph, nodes and pins alike, and every pin carries its owner's id. */
  ghost predicate IdsDistinct(nodes: seq<LiveNode>)
  {
    && (forall a, b :: 0 <= a < b < |nodes| ==> nodes[a].nodeId != nodes[b].nodeId)
    && (forall k1, j1, k2, j2 ::
          0 <= k1 < |nodes| && 0 <= j1 < |nodes[k1].pins| && 0 <= k2 < |nodes| && 0 <= j2 < |nodes[k2].pins| &&
          nodes[k1].pins[j1].pinId == nodes[k2].pins[j2].pinId
          ==> k1 == k2 && j1 == j2)
    && (forall k1, k2, j2 :: 0 <= k1 < |nodes| && 0 <= k2 < |nodes| && 0 <= j2 < |nodes[k2].pins| ==>
          nodes[k1].nodeId != nodes[k2].pins[j2].pinId)
    && (forall k :: 0 <= k < |nodes| ==> nodes[k].nodeId >= 0)
    && (forall k, j :: 0 <= k < |nodes| && 0 <= j < |nodes[k].pins| ==>
          nodes[k].pins[j].pinId >= 0 && nodes[k].pins[j].nodeId == nodes[k].nodeId)
  }

  /** Lookups keep the caches right: restamping the nodes (with sound node
      caches) keeps a coherent graph coherent. */
  lemma RestampKeepsCoherent(g: Graph, nodes': seq<LiveNode>, off: set<int>)
    requires g.GraphImpl? && CoherentOff(g, off) && NodesRestamped(g.nodes, nodes')
    requires forall k :: 0 <= k < |nodes'| ==> NodeCoherent(nodes'[k])
    ensures CoherentOff(g.(nodes := nodes'), off)
  {
    RestampedKeepsIds(g.nodes, nodes');
    RestampKeepsNodeCache(g, nodes', off);
    RestampKeepsPinCache(g, nodes', off);
    RestampKeepsOwnerCache(g, nodes', off);
  }

  /** Restamping keeps the node-id cache right. */
  lemma RestampKeepsNodeCache(g: Graph, nodes': seq<LiveNode>, off: set<int>)
    requires g.GraphImpl? && NodeCacheCoherent(g, off) && NodesRestamped(g.nodes, nodes')
    ensures NodeCacheCoherent(g.(nodes := nodes'), off)
  {
    var g' := g.(nodes := nodes');
    RestampedKeepsIds(g.nodes, nodes');
    forall key | key in g'.nodeIdCache && key >= 0 && key !in off && key in NodeIds(nodes')
      ensures NodeOf(nodes', g'.nodeIdCache[key]).NodeId() == key
    {
      assert NodeOf(g.nodes, g.nodeIdCache[key]).NodeId() == key;
    }
  }

  /** Restamping keeps the pin-id cache right. */
  lemma RestampKeepsPinCache(g: Graph, nodes': seq<LiveNode>, off: set<int>)
    requires g.GraphImpl? && PinCacheCoherent(g, off) && NodesRestamped(g.nodes, nodes')
    ensures PinCacheCoherent(g.(nodes := nodes'), off)
  {
    var g' := g.(nodes := nodes');
    RestampedKeepsIds(g.nodes, nodes');
    forall key | key in g'.pinIdCache && key >= 0 && key !in off && key in PinIds(nodes')
      ensures PinOf(nodes', g'.pinIdCache[key]).pin.PinId() == key
    {
      assert PinOf(g.nodes, g.pinIdCache[key]).pin.PinId() == key;
    }
  }

  /** Restamping keeps the pin-id-to-node cache right. */
  lemma RestampKeepsOwnerCache(g: Graph, nodes': seq<LiveNode>, off: set<int>)
    requires g.GraphImpl? && OwnerCacheCoherent(g, off) && NodesRestamped(g.nodes, nodes')
    ensures OwnerCacheCoherent(g.(nodes := nodes'), off)
  {
    var g' := g.(nodes := nodes');
    RestampedKeepsIds(g.nodes, nodes');
    forall key | key in g'.pinNodeCache && key >= 0 && key !in off && key in PinIds(nodes')
      ensures var n := NodeOf(nodes', g'.pinNodeCache[key]);
              n.NodeAdapter? && exists j :: 0 <= j < |n.pins| && n.pins[j].pinId == key
    {
      var n := NodeOf(g.nodes, g.pinNodeCache[key]);
      var j :| 0 <= j < |n.pins| && n.pins[j].pinId == key;
      var k := IndexOfOid(g.nodes, g.pinNodeCache[key]);
      assert nodes'[k].pins[j].pinId == key;
    }
  }

  /** Caching pin `j` of the node at position `k` under its own id keeps the
      graph coherent. */
  lemma PinCacheWriteKeepsCoherent(g: Graph, k: nat, j: nat, off: set<int>)
    requires g.GraphImpl? && CoherentOff(g, off) && k < |g.nodes| && j < |g.nodes[k].pins|
    ensures CoherentOff(g.(pinIdCache := g.pinIdCache[g.nodes[k].pins[j].pinId := PinAt(g.nodes[k].oid, j)]), off)
  {
    IndexOfOidAt(g.nodes, k);
  }

  /** Caching the node at position `k` as the owner of its pin `j` keeps the
      graph coherent. */
  lemma OwnerCacheWriteKeepsCoherent(g: Graph, k: nat, j: nat)
    requires g.GraphImpl? && Coherent(g) && k < |g.nodes| && j < |g.nodes[k].pins|
    ensures Coherent(g.(pinNodeCache := g.pinNodeCache[g.nodes[k].pins[j].pinId := g.nodes[k].oid]))
  {
    IndexOfOidAt(g.nodes, k);
  }

  // ----------------------------------------------------------------- findPin

  /** A graph after a pin lookup, the pin it answered, and where that pin is. */
  datatype PinFound = PinFound(graph: Graph, pin: Pin, loc: Loc)

  /** Every node's own caches are sound. */
  ghost predicate NodesCoherent(nodes: seq<LiveNode>)
  {
    forall k :: 0 <= k < |nodes| ==> NodeCoherent(nodes[k])
  }

  /** The loop of `findPin` (`stamp`) and of `hasPin` (not `stamp`) from
      position `k` on: ask each node for the pin, stamp it with the node's id
      if `stamp`, cache it under its own id (`IPin.Empty` under -1) and stop at
      the first node that has it. */
  function ScanForPin(g: Graph, id: int, k: nat, stamp: bool): (r: PinFound)
    requires g.GraphImpl? && k <= |g.nodes|
    ensures r.graph.GraphImpl? && r.graph == g.(nodes := r.graph.nodes, pinIdCache := r.graph.pinIdCache)
    ensures NodesRestamped(g.nodes, r.graph.nodes)
    ensures r.loc.Nowhere? <==> r.pin.EmptyPin?
    ensures r.loc.At? ==>
      k <= r.loc.k < |r.graph.nodes| && r.loc.j < |r.graph.nodes[r.loc.k].pins| &&
      r.pin == r.graph.nodes[r.loc.k].pins[r.loc.j]
    decreases |g.nodes| - k
  {
    if k == |g.nodes| then PinFound(g, EmptyPin, Nowhere)
    else
      var n := g.nodes[k];
      var l := LocateById(n, id);
      if l.index == -1 then
        var g' := g.(nodes := g.nodes[k := l.node], pinIdCache := g.pinIdCache[-1 := EmptyRef]);
        var r := ScanForPin(g', id, k + 1, stamp);
        assert NodesRestamped(g.nodes, r.graph.nodes) by {
          forall i | 0 <= i < |g.nodes| ensures Restamped(g.nodes[i], r.graph.nodes[i]) {
            RestampedTrans(g.nodes[i], g'.nodes[i], r.graph.nodes[i]);
          }
        }
        r
      else
        var n': LiveNode := if stamp then StampAt(l.node, l.index) else l.node;
        PinFound(g.(nodes := g.nodes[k := n'], pinIdCache := g.pinIdCache[n'.pins[l.index].pinId := PinAt(n.oid, l.index)]),
                 n'.pins[l.index], At(k, l.index))
  }

  /** What the `findPin` loop answers when every node's caches are sound: a pin
      carrying the id from the first node from `k` on that holds one, or
      `IPin.Empty` when none does; and the nodes' caches stay sound. */
  lemma {:induction false} ScanForPinFinds(g: Graph, id: int, k: nat, stamp: bool)
    requires g.GraphImpl? && k <= |g.nodes|
    ensures var r := ScanForPin(g, id, k, stamp);
      NodesCoherent(g.nodes) ==>
      && NodesCoherent(r.graph.nodes)
      && (r.pin.PinAdapter? ==> r.pin.pinId == id)
      && (r.loc.At? ==> forall i, j :: k <= i < r.loc.k && 0 <= j < |g.nodes[i].pins| ==> g.nodes[i].pins[j].pinId != id)
      && (r.pin.EmptyPin? <==> forall i, j :: k <= i < |g.nodes| && 0 <= j < |g.nodes[i].pins| ==> g.nodes[i].pins[j].pinId != id)
    decreases |g.nodes| - k, 1
  {
    if k < |g.nodes| && NodesCoherent(g.nodes) {
      if LocateById(g.nodes[k], id).index == -1 {
        ScanForPinFindsPast(g, id, k, stamp);
      } else {
        ScanForPinHit(g, id, k, stamp);
      }
    }
  }

  /** `ScanForPinFinds` for a loop that moves past node `k`. */
  lemma {:induction false} ScanForPinFindsPast(g: Graph, id: int, k: nat, stamp: bool)
    requires g.GraphImpl? && k < |g.nodes| && NodesCoherent(g.nodes) && LocateById(g.nodes[k], id).index == -1
    ensures var r := ScanForPin(g, id, k, stamp);
      && NodesCoherent(r.graph.nodes)
      && (r.pin.PinAdapter? ==> r.pin.pinId == id)
      && (r.loc.At? ==> forall i, j :: k <= i < r.loc.k && 0 <= j < |g.nodes[i].pins| ==> g.nodes[i].pins[j].pinId != id)
      && (r.pin.EmptyPin? <==> forall i, j :: k <= i < |g.nodes| && 0 <= j < |g.nodes[i].pins| ==> g.nodes[i].pins[j].pinId != id)
    decreases |g.nodes| - k, 0
  {
    var l := LocateById(g.nodes[k], id);
    var g' := SkipNode(g, k, l.node);
    ScanForPinUnfold(g, id, k, stamp);
    var r := ScanForPin(g', id, k + 1, stamp);
    assert NodeCoherent(l.node);
    assert NodesCoherent(g'.nodes);
    ScanForPinFinds(g', id, k + 1, stamp);
    ScanForPinSkip(g, g', id, k, r);
  }

  /** One step of the `findPin` loop that moves past node `k`, which has no pin
      with the id: what the rest of the loop answers holds from `k` on. */
  lemma ScanForPinSkip(g: Graph, g': Graph, id: int, k: nat, r: PinFound)
    requires g.GraphImpl? && g'.GraphImpl? && k < |g.nodes| && |g'.nodes| == |g.nodes|
    requires forall j :: 0 <= j < |g.nodes[k].pins| ==> g.nodes[k].pins[j].pinId != id
    requires forall i :: k < i < |g.nodes| ==> g'.nodes[i] == g.nodes[i]
    requires r.loc.Nowhere? <==> r.pin.EmptyPin?
    requires r.loc.At? ==> k + 1 <= r.loc.k <= |g'.nodes|
    requires r.loc.At? ==> forall i, j :: k + 1 <= i < r.loc.k && 0 <= j < |g'.nodes[i].pins| ==> g'.nodes[i].pins[j].pinId != id
    requires r.pin.EmptyPin? <==> forall i, j :: k + 1 <= i < |g'.nodes| && 0 <= j < |g'.nodes[i].pins| ==> g'.nodes[i].pins[j].pinId != id
    ensures r.loc.At? ==> forall i, j :: k <= i < r.loc.k && 0 <= j < |g.nodes[i].pins| ==> g.nodes[i].pins[j].pinId != id
    ensures r.pin.EmptyPin? <==> forall i, j :: k <= i < |g.nodes| && 0 <= j < |g.nodes[i].pins| ==> g.nodes[i].pins[j].pinId != id
  {
    if r.loc.At? {
      forall i, j | k <= i < r.loc.k && 0 <= j < |g.nodes[i].pins|
        ensures g.nodes[i].pins[j].pinId != id
      {
        if i > k {
          assert g'.nodes[i].pins[j].pinId != id;
        }
      }
    }
    if r.pin.EmptyPin? {
      forall i, j | k <= i < |g.nodes| && 0 <= j < |g.nodes[i].pins|
        ensures g.nodes[i].pins[j].pinId != id
      {
        if i > k {
          assert g'.nodes[i].pins[j].pinId != id;
        }
      }
    } else {
      var i :| k + 1 <= i < |g'.nodes| && exists j :: 0 <= j < |g'.nodes[i].pins| && g'.nodes[i].pins[j].pinId == id;
      var j :| 0 <= j < |g'.nodes[i].pins| && g'.nodes[i].pins[j].pinId == id;
      assert g.nodes[i].pins[j].pinId == id;
    }
  }

  /** The step of the `findPin` loop that stops at node `k`. */
  lemma ScanForPinHit(g: Graph, id: int, k: nat, stamp: bool)
    requires g.GraphImpl? && k < |g.nodes| && NodesCoherent(g.nodes)
    requires LocateById(g.nodes[k], id).index != -1
    ensures var r := ScanForPin(g, id, k, stamp);
      && NodesCoherent(r.graph.nodes)
      && r.pin.PinAdapter? && r.pin.pinId == id && r.loc.k == k
  {
    var n := g.nodes[k];
    var l := LocateById(n, id);
    var r := ScanForPin(g, id, k, stamp);
    var n': LiveNode := if stamp then StampAt(l.node, l.index) else l.node;
    assert r.pin == n'.pins[l.index] && r.loc == At(k, l.index);
    assert r.graph.nodes == g.nodes[k := n'];
    assert NodeCoherent(n);
    assert NodeCoherent(l.node);
    assert NodeCoherent(n');
    forall i | 0 <= i < |r.graph.nodes| ensures NodeCoherent(r.graph.nodes[i]) {
      if i != k {
        assert r.graph.nodes[i] == g.nodes[i];
      }
    }
    assert l.node.pins[l.index].pinId == id;
  }

  /** The `findPin` loop keeps a coherent graph coherent. */
  lemma {:induction false} ScanForPinCoherent(g: Graph, id: int, k: nat, stamp: bool)
    requires g.GraphImpl? && k <= |g.nodes|
    ensures Coherent(g) ==> Coherent(ScanForPin(g, id, k, stamp).graph)
    decreases |g.nodes| - k
  {
    hide Coherent;
    if k < |g.nodes| && Coherent(g) {
      var l := LocateById(g.nodes[k], id);
      if l.index == -1 {
        var g' := SkipNode(g, k, l.node);
        SkipNodeCoherent(g, id, k);
        ScanForPinUnfold(g, id, k, stamp);
        ScanForPinCoherent(g', id, k + 1, stamp);
      } else {
        ScanForPinHitCoherent(g, id, k, stamp);
      }
    }
  }

  /** Passing a node without finding the pin keeps a coherent graph coherent. */
  lemma SkipNodeCoherent(g: Graph, id: int, k: nat)
    requires g.GraphImpl? && k < |g.nodes| && Coherent(g)
    ensures Coherent(SkipNode(g, k, LocateById(g.nodes[k], id).node))
  {
    var l := LocateById(g.nodes[k], id);
    assert NodesRestamped(g.nodes, g.nodes[k := l.node]);
    RestampKeepsCoherent(g, g.nodes[k := l.node], {});
  }

  /** The graph after the `findPin` loop passed node `k` without finding the pin. */
  function SkipNode(g: Graph, k: nat, n': LiveNode): (g': Graph)
    requires g.GraphImpl? && k < |g.nodes|
    ensures g'.GraphImpl? && |g'.nodes| == |g.nodes|
  {
    g.(nodes := g.nodes[k := n'], pinIdCache := g.pinIdCache[-1 := EmptyRef])
  }

  /** One turn of the `findPin` loop that does not stop. */
  lemma ScanForPinUnfold(g: Graph, id: int, k: nat, stamp: bool)
    requires g.GraphImpl? && k < |g.nodes| && LocateById(g.nodes[k], id).index == -1
    ensures ScanForPin(g, id, k, stamp) == ScanForPin(SkipNode(g, k, LocateById(g.nodes[k], id).node), id, k + 1, stamp)
  {
  }

  /** The turn of the `findPin` loop that stops keeps a coherent graph coherent. */
  lemma ScanForPinHitCoherent(g: Graph, id: int, k: nat, stamp: bool)
    requires g.GraphImpl? && k < |g.nodes| && Coherent(g) && LocateById(g.nodes[k], id).index != -1
    ensures Coherent(ScanForPin(g, id, k, stamp).graph)
  {
    var l := LocateById(g.nodes[k], id);
    var n': LiveNode := if stamp then StampAt(l.node, l.index) else l.node;
    var g1 := g.(nodes := g.nodes[k := n']);
    assert NodesRestamped(g.nodes, g1.nodes);
    RestampKeepsCoherent(g, g1.nodes, {});
    PinCacheWriteKeepsCoherent(g1, k, l.index, {});
    assert ScanForPin(g, id, k, stamp).graph == g1.(pinIdCache := g.pinIdCache[n'.pins[l.index].pinId := PinAt(g1.nodes[k].oid, l.index)]);
  }

  /** `findPin(pinId)`: `IPin.Empty` for a negative id; the cached pin on a
      cache hit; otherwise the pin of the first node in list order that has
      one with that id, stamped with that node's id, or `IPin.Empty`. */
  function FindPin(g: Graph, id: int): (r: PinFound)
    ensures g.EmptyGraph? || id < 0 ==> r == PinFound(g, EmptyPin, Nowhere)
    ensures g.GraphImpl? ==>
      && r.graph.GraphImpl? && r.graph == g.(nodes := r.graph.nodes, pinIdCache := r.graph.pinIdCache)
      && NodesRestamped(g.nodes, r.graph.nodes)
    ensures r.loc.Nowhere? <==> r.pin.EmptyPin?
    ensures r.loc.At? ==>
      r.graph.GraphImpl? && r.loc.k < |r.graph.nodes| && r.loc.j < |r.graph.nodes[r.loc.k].pins| &&
      r.pin == r.graph.nodes[r.loc.k].pins[r.loc.j]
    ensures g.GraphImpl? && id >= 0 && id in g.pinIdCache ==>
      r.graph == g && r.pin == PinOf(g.nodes, g.pinIdCache[id]).pin
    ensures g.GraphImpl? && id >= 0 && id !in g.pinIdCache && NodesCoherent(g.nodes) ==>
      && (r.pin.EmptyPin? <==> id !in PinIds(g.nodes))
      && (r.loc.At? ==> r.pin.pinId == id && forall i, j :: 0 <= i < r.loc.k && 0 <= j < |g.nodes[i].pins| ==> g.nodes[i].pins[j].pinId != id)
    ensures Coherent(g) && id >= 0 ==>
      && Coherent(r.graph)
      && (id in PinIds(g.Nodes()) ==> r.pin.PinId() == id)
      && (g.GraphImpl? && id !in PinIds(g.nodes) && id !in g.pinIdCache ==> r.pin.EmptyPin?)
  {
    if g.EmptyGraph? || id < 0 then PinFound(g, EmptyPin, Nowhere)
    else if id in g.pinIdCache then
      var l := PinOf(g.nodes, g.pinIdCache[id]);
      PinFound(g, l.pin, l.loc)
    else
      ScanForPinFinds(g, id, 0, true);
      ScanForPinCoherent(g, id, 0, true);
      ScanForPin(g, id, 0, true)
  }

  /** `hasPin(pinId)`: false for a negative id; true on a cache hit; otherwise
      whether some node has a pin with that id. The loop is `findPin`'s
      without the stamping. */
  function HasPin(g: Graph, id: int): (r: Answer)
    ensures g.EmptyGraph? || id < 0 ==> r == Answer(g, false)
    ensures g.GraphImpl? ==>
      && r.graph.GraphImpl? && r.graph == g.(nodes := r.graph.nodes, pinIdCache := r.graph.pinIdCache)
      && NodesRestamped(g.nodes, r.graph.nodes)
    ensures g.GraphImpl? && id >= 0 && id !in g.pinIdCache && NodesCoherent(g.nodes) ==>
      (r.yes <==> id in PinIds(g.nodes))
    ensures g.GraphImpl? && id >= 0 && id in g.pinIdCache ==> r == Answer(g, true)
    ensures Coherent(g) ==> Coherent(r.graph)
  {
    if g.EmptyGraph? || id < 0 then Answer(g, false)
    else if id in g.pinIdCache then Answer(g, true)
    else
      ScanForPinFinds(g, id, 0, false);
      ScanForPinCoherent(g, id, 0, false);
      var r := ScanForPin(g, id, 0, false);
      Answer(r.graph, r.pin.PinAdapter?)
  }

  /** Every pin object the pin-id cache names under a non-negative key is
      still reachable through the list. */
  ghost predicate PinCacheLive(g: Graph)
    requires g.GraphImpl?
  {
    forall key :: key in g.pinIdCache && key >= 0 ==> PinOf(g.nodes, g.pinIdCache[key]).pin.PinAdapter?
  }

  /** `hasPin` answers whether `findPin` finds something, as long as every
      cached pin is still reachable and every node's caches are sound. */
  lemma HasPinAgreesWithFindPin(g: Graph, id: int)
    requires g.GraphImpl? ==> PinCacheLive(g) && NodesCoherent(g.nodes)
    ensures HasPin(g, id).yes == !FindPin(g, id).pin.IsEmpty()
  {
  }

  /** With every node's caches sound, the `findPin` loop from `k` on adds to
      the pin-id cache only the id it looks for, or -1 for a node that lacks
      it. */
  lemma {:induction false} ScanForPinKeys(g: Graph, id: int, k: nat, stamp: bool)
    requires g.GraphImpl? && k <= |g.nodes| && NodesCoherent(g.nodes)
    ensures ScanForPin(g, id, k, stamp).graph.pinIdCache.Keys <= g.pinIdCache.Keys + {id, -1}
    decreases |g.nodes| - k
  {
    if k < |g.nodes| {
      var l := LocateById(g.nodes[k], id);
      if l.index == -1 {
        var g' := SkipNode(g, k, l.node);
        ScanForPinUnfold(g, id, k, stamp);
        assert NodeCoherent(l.node);
        assert NodesCoherent(g'.nodes);
        ScanForPinKeys(g', id, k + 1, stamp);
      } else {
        assert NodeCoherent(g.nodes[k]);
        assert l.node.pins[l.index].pinId == id;
      }
    }
  }

  /** `findPin(pinId)` caches nothing but the id it is asked for, or -1 on a
      miss, as long as every node's caches are sound. */
  lemma FindPinKeys(g: Graph, id: int)
    requires g.GraphImpl? && NodesCoherent(g.nodes)
    ensures FindPin(g, id).graph.pinIdCache.Keys <= g.pinIdCache.Keys + {id, -1}
  {
    if id >= 0 && id !in g.pinIdCache {
      ScanForPinKeys(g, id, 0, true);
    }
  }

  // ----------------------------------------------------------- findNodeByPin

  /** The loop of `findNodeByPin` from position `k` on: ask each node for the
      pin, record the node as the owner of whatever id came back (-1 for
      `IPin.Empty`), and stop at the first node whose pin has one of the
      accepted `roles`. */
  function ScanOwner(g: Graph, id: int, roles: set<InputOutput>, k: nat): (r: NodeScan)
    requires g.GraphImpl? && k <= |g.nodes|
    ensures r.graph.GraphImpl? && r.graph == g.(nodes := r.graph.nodes, pinNodeCache := r.graph.pinNodeCache)
    ensures NodesRestamped(g.nodes, r.graph.nodes)
    ensures r.index == -1 || k <= r.index < |g.nodes|
    decreases |g.nodes| - k
  {
    if k == |g.nodes| then NodeScan(g, -1)
    else
      var n := g.nodes[k];
      var l := LocateById(n, id);
      var p := if l.index == -1 then EmptyPin else l.node.pins[l.index];
      var g' := g.(nodes := g.nodes[k := l.node], pinNodeCache := g.pinNodeCache[p.PinId() := n.oid]);
      if p.PinAdapter? && p.io in roles then NodeScan(g', k)
      else
        var r := ScanOwner(g', id, roles, k + 1);
        assert NodesRestamped(g.nodes, r.graph.nodes) by {
          forall i | 0 <= i < |g.nodes| ensures Restamped(g.nodes[i], r.graph.nodes[i]) {
            RestampedTrans(g.nodes[i], g'.nodes[i], r.graph.nodes[i]);
          }
        }
        r
  }

  /** Whether node `n` holds a pin with this id and one of the `roles`. */
  ghost predicate Holds(n: Node, id: int, roles: set<InputOutput>)
  {
    n.NodeAdapter? && exists j :: 0 <= j < |n.pins| && n.pins[j].pinId == id && n.pins[j].io in roles
  }

  /** Restamping changes no pin's id or role. */
  lemma HoldsRestamped(a: Node, b: Node, id: int, roles: set<InputOutput>)
    requires Restamped(a, b)
    ensures Holds(a, id, roles) <==> Holds(b, id, roles)
  {
    if Holds(a, id, roles) {
      var j :| 0 <= j < |a.pins| && a.pins[j].pinId == id && a.pins[j].io in roles;
      assert b.pins[j].pinId == id && b.pins[j].io in roles;
    }
    if Holds(b, id, roles) {
      var j :| 0 <= j < |b.pins| && b.pins[j].pinId == id && b.pins[j].io in roles;
      assert a.pins[j].pinId == id && a.pins[j].io in roles;
    }
  }

  /** The graph after the `findNodeByPin` loop asked node `k` for the pin. */
  function OwnerStep(g: Graph, id: int, k: nat): (g': Graph)
    requires g.GraphImpl? && k < |g.nodes|
    ensures g'.GraphImpl? && NodesRestamped(g.nodes, g'.nodes)
    ensures forall i :: 0 <= i < |g.nodes| && i != k ==> g'.nodes[i] == g.nodes[i]
  {
    var n := g.nodes[k];
    var l := LocateById(n, id);
    var p := if l.index == -1 then EmptyPin else l.node.pins[l.index];
    g.(nodes := g.nodes[k := l.node], pinNodeCache := g.pinNodeCache[p.PinId() := n.oid])
  }

  /** One turn of the `findNodeByPin` loop: it stops at node `k` exactly when
      that node holds the pin with an accepted role (ids being distinct), and
      otherwise goes on from the next node. */
  lemma ScanOwnerUnfold(g: Graph, id: int, roles: set<InputOutput>, k: nat)
    requires g.GraphImpl? && k < |g.nodes| && NodesCoherent(g.nodes) && IdsDistinct(g.nodes)
    ensures Holds(g.nodes[k], id, roles) ==> ScanOwner(g, id, roles, k).index == k
    ensures !Holds(g.nodes[k], id, roles) ==> ScanOwner(g, id, roles, k) == ScanOwner(OwnerStep(g, id, k), id, roles, k + 1)
    ensures NodesCoherent(OwnerStep(g, id, k).nodes) && IdsDistinct(OwnerStep(g, id, k).nodes)
  {
    var n := g.nodes[k];
    var l := LocateById(n, id);
    var g' := OwnerStep(g, id, k);
    RestampedIdsDistinct(g.nodes, g'.nodes);
    assert NodeCoherent(l.node);
    if Holds(n, id, roles) {
      var j :| 0 <= j < |n.pins| && n.pins[j].pinId == id && n.pins[j].io in roles;
      assert l.index != -1;
      assert n.pins[l.index].pinId == id;
      assert l.index == j;
    } else if l.index != -1 {
      assert n.pins[l.index].pinId == id;
      assert l.node.pins[l.index].io !in roles;
    }
  }

  /** One turn of the `findNodeByPin` loop, whatever the invariants. */
  lemma ScanOwnerStep(g: Graph, id: int, roles: set<InputOutput>, k: nat)
    requires g.GraphImpl? && k < |g.nodes|
    ensures var l := LocateById(g.nodes[k], id);
            var stop := l.index != -1 && l.node.pins[l.index].io in roles;
            && (stop ==> ScanOwner(g, id, roles, k) == NodeScan(OwnerStep(g, id, k), k))
            && (!stop ==> ScanOwner(g, id, roles, k) == ScanOwner(OwnerStep(g, id, k), id, roles, k + 1))
  {
  }

  /** What the `findNodeByPin` loop answers when every node's caches are sound
      and ids are distinct: the first node from `k` on holding the pin with
      an accepted role, or none. */
  lemma {:induction false} ScanOwnerFinds(g: Graph, id: int, roles: set<InputOutput>, k: nat)
    requires g.GraphImpl? && k <= |g.nodes| && NodesCoherent(g.nodes) && IdsDistinct(g.nodes)
    ensures var r := ScanOwner(g, id, roles, k);
      && (r.index != -1 ==> Holds(g.nodes[r.index], id, roles))
      && (r.index == -1 <==> forall i :: k <= i < |g.nodes| ==> !Holds(g.nodes[i], id, roles))
    decreases |g.nodes| - k
  {
    if k < |g.nodes| {
      ScanOwnerUnfold(g, id, roles, k);
      if !Holds(g.nodes[k], id, roles) {
        var g' := OwnerStep(g, id, k);
        ScanOwnerFinds(g', id, roles, k + 1);
        var r := ScanOwner(g', id, roles, k + 1);
        if r.index != -1 {
          HoldsRestamped(g.nodes[r.index], g'.nodes[r.index], id, roles);
        }
        forall i | k < i < |g.nodes| ensures Holds(g.nodes[i], id, roles) <==> Holds(g'.nodes[i], id, roles) {
          HoldsRestamped(g.nodes[i], g'.nodes[i], id, roles);
        }
      }
    }
  }

  /** `ScanOwnerFinds` from the start of the list, stated for any graph. */
  lemma ScanOwnerFindsWhenSound(g: Graph, id: int, roles: set<InputOutput>)
    requires g.GraphImpl?
    ensures var r := ScanOwner(g, id, roles, 0);
      NodesCoherent(g.nodes) && IdsDistinct(g.nodes) ==>
      && (r.index != -1 ==> Holds(g.nodes[r.index], id, roles))
      && (r.index == -1 <==> forall i :: 0 <= i < |g.nodes| ==> !Holds(g.nodes[i], id, roles))
  {
    if NodesCoherent(g.nodes) && IdsDistinct(g.nodes) {
      ScanOwnerFinds(g, id, roles, 0);
    }
  }

  /** One turn of the `findNodeByPin` loop, seen from the graph it leaves:
      either it stops with the graph after this node, or it goes on from
      there. */
  lemma ScanOwnerStopsOrGoesOn(g: Graph, id: int, roles: set<InputOutput>, k: nat)
    requires g.GraphImpl? && k < |g.nodes|
    ensures |OwnerStep(g, id, k).nodes| == |g.nodes|
    ensures || ScanOwner(g, id, roles, k).graph == OwnerStep(g, id, k)
            || ScanOwner(g, id, roles, k) == ScanOwner(OwnerStep(g, id, k), id, roles, k + 1)
  {
    ScanOwnerStep(g, id, roles, k);
  }

  /** The `findNodeByPin` loop keeps a coherent graph coherent. */
  lemma {:induction false} ScanOwnerCoherent(g: Graph, id: int, roles: set<InputOutput>, k: nat)
    requires g.GraphImpl? && k <= |g.nodes|
    ensures Coherent(g) ==> Coherent(ScanOwner(g, id, roles, k).graph)
    decreases |g.nodes| - k
  {
    if k < |g.nodes| && Coherent(g) {
      ScanOwnerStopsOrGoesOn(g, id, roles, k);
      OwnerStepCoherent(g, id, k);
      ScanOwnerCoherent(OwnerStep(g, id, k), id, roles, k + 1);
    }
  }

  /** Asking one node for the pin and recording the owner keeps a coherent
      graph coherent. */
  lemma OwnerStepCoherent(g: Graph, id: int, k: nat)
    requires g.GraphImpl? && k < |g.nodes| && Coherent(g)
    ensures Coherent(OwnerStep(g, id, k))
  {
    var n := g.nodes[k];
    var l := LocateById(n, id);
    var g1 := g.(nodes := g.nodes[k := l.node]);
    assert NodesRestamped(g.nodes, g1.nodes);
    RestampKeepsCoherent(g, g1.nodes, {});
    if l.index != -1 {
      OwnerCacheWriteKeepsCoherent(g1, k, l.index);
    } else {
      assert OwnerStep(g, id, k) == g1.(pinNodeCache := g1.pinNodeCache[-1 := n.oid]);
      assert OwnerCacheCoherent(OwnerStep(g, id, k), {}) by {
        var g' := OwnerStep(g, id, k);
        forall key | key in g'.pinNodeCache && key >= 0 && key !in {} && key in PinIds(g'.nodes)
          ensures var m := NodeOf(g'.nodes, g'.pinNodeCache[key]);
                  m.NodeAdapter? && exists j :: 0 <= j < |m.pins| && m.pins[j].pinId == key
        {
          assert g'.pinNodeCache[key] == g1.pinNodeCache[key];
        }
      }
    }
  }

  /** The lookup behind `findNodeByPin`: the cached node on a cache hit,
      whatever its pin's role; otherwise the first node in list order whose
      pin with that id has one of the accepted `roles`, or `INode.Empty`.
      There is no guard on negative ids. */
  function FindOwner(g: Graph, id: int, roles: set<InputOutput>): (r: NodeFound)
    ensures g.EmptyGraph? ==> r == NodeFound(g, EmptyNode)
    ensures g.GraphImpl? ==>
      && r.graph.GraphImpl? && r.graph == g.(nodes := r.graph.nodes, pinNodeCache := r.graph.pinNodeCache)
      && NodesRestamped(g.nodes, r.graph.nodes)
    ensures r.node.NodeAdapter? ==> r.node in r.graph.Nodes()
    ensures g.GraphImpl? && id in g.pinNodeCache ==> r == NodeFound(g, NodeOf(g.nodes, g.pinNodeCache[id]))
    ensures g.GraphImpl? && id !in g.pinNodeCache && NodesCoherent(g.nodes) && IdsDistinct(g.nodes) ==>
      && (r.node.NodeAdapter? ==> Holds(r.node, id, roles) && r.node.oid in OidsHolding(g.nodes, id, roles))
      && (r.node.EmptyNode? <==> forall i :: 0 <= i < |g.nodes| ==> !Holds(g.nodes[i], id, roles))
    ensures Coherent(g) ==> Coherent(r.graph)
  {
    if g.EmptyGraph? then NodeFound(g, EmptyNode)
    else if id in g.pinNodeCache then NodeFound(g, NodeOf(g.nodes, g.pinNodeCache[id]))
    else
      ScanOwnerCoherent(g, id, roles, 0);
      var r := ScanOwner(g, id, roles, 0);
      ScanOwnerFindsWhenSound(g, id, roles);
      if r.index == -1 then NodeFound(r.graph, EmptyNode)
      else
        HoldsRestamped(g.nodes[r.index], r.graph.nodes[r.index], id, roles);
        NodeFound(r.graph, r.graph.nodes[r.index])
  }

  /** `findNodeByPin(pinId, forIo)` as written: the role test is
      `pin.io == forIo` for every `forIo`, `None` included, although the
      interface documents `None` (its default) as "do not check the role". */
  function FindNodeByPin(g: Graph, id: int, forIo: InputOutput): (r: NodeFound)
    ensures g.EmptyGraph? ==> r == NodeFound(g, EmptyNode)
    ensures g.GraphImpl? ==>
      && r.graph.GraphImpl? && r.graph == g.(nodes := r.graph.nodes, pinNodeCache := r.graph.pinNodeCache)
      && NodesRestamped(g.nodes, r.graph.nodes)
    ensures r.node.NodeAdapter? ==> r.node in r.graph.Nodes()
    ensures g.GraphImpl? && id in g.pinNodeCache ==> r == NodeFound(g, NodeOf(g.nodes, g.pinNodeCache[id]))
    ensures g.GraphImpl? && id !in g.pinNodeCache && NodesCoherent(g.nodes) && IdsDistinct(g.nodes) ==>
      && (r.node.NodeAdapter? ==> Holds(r.node, id, {forIo}) && r.node.oid in OidsHolding(g.nodes, id, {forIo}))
      && (r.node.EmptyNode? <==> forall i :: 0 <= i < |g.nodes| ==> !Holds(g.nodes[i], id, {forIo}))
    ensures Coherent(g) ==> Coherent(r.graph)
  {
    FindOwner(g, id, {forIo})
  }

  /** The roles `findNodeByPin` is documented to accept: any role for `None`,
      otherwise `forIo` alone. */
  function Accepted(forIo: InputOutput): (roles: set<InputOutput>)
    ensures forIo == None ==> Input in roles && Output in roles && None in roles
    ensures forIo != None ==> roles == {forIo}
  {
    if forIo == None then {Input, Output, None} else {forIo}
  }

  /** `findNodeByPin` as documented: `None` matches a pin of any role. */
  function FindNodeByPinAnyRole(g: Graph, id: int, forIo: InputOutput): (r: NodeFound)
    ensures forIo != None ==> r == FindNodeByPin(g, id, forIo)
    ensures g.GraphImpl? && id !in g.pinNodeCache && NodesCoherent(g.nodes) && IdsDistinct(g.nodes) ==>
      (r.node.NodeAdapter? ==> Holds(r.node, id, Accepted(forIo)))
  {
    FindOwner(g, id, Accepted(forIo))
  }

  /** With `None`, the documented lookup finds a node exactly when some node
      holds a pin with the id, whatever its role, and answers one of them. */
  lemma FindNodeByPinAnyRoleFinds(g: Graph, id: int)
    requires g.GraphImpl? && id !in g.pinNodeCache && NodesCoherent(g.nodes) && IdsDistinct(g.nodes)
    ensures var m := FindNodeByPinAnyRole(g, id, None).node;
      && (m.NodeAdapter? <==> id in PinIds(g.nodes))
      && (m.NodeAdapter? ==> exists j :: 0 <= j < |m.pins| && m.pins[j].pinId == id)
  {
    hide FindOwner, ScanOwner;
    var roles := Accepted(None);
    var m := FindOwner(g, id, roles).node;
    assert FindNodeByPinAnyRole(g, id, None).node == m;
    if m.NodeAdapter? {
      assert m.oid in OidsHolding(g.nodes, id, roles);
      var i :| 0 <= i < |g.nodes| && Holds(g.nodes[i], id, roles) && g.nodes[i].oid == m.oid;
      var j :| 0 <= j < |g.nodes[i].pins| && g.nodes[i].pins[j].pinId == id && g.nodes[i].pins[j].io in roles;
      assert g.nodes[i].pins[j].pinId in PinIds(g.nodes);
    } else if id in PinIds(g.nodes) {
      var i, j :| 0 <= i < |g.nodes| && 0 <= j < |g.nodes[i].pins| && g.nodes[i].pins[j].pinId == id;
      HoldsAnyRole(g.nodes[i], id, j);
    }
  }

  /** A node holding a pin with the id holds it with some accepted role when
      every role is accepted. */
  lemma HoldsAnyRole(n: LiveNode, id: int, j: nat)
    requires j < |n.pins| && n.pins[j].pinId == id
    ensures Holds(n, id, Accepted(None))
  {
    var io := n.pins[j].io;
    assert io in Accepted(None) by {
      match io
      case Input =>
      case Output =>
      case None =>
    }
  }

  /** The default call misses an output pin, but still records its owner, so
      the same call answers that owner the second time; the documented
      lookup answers it the first time. */
  lemma FindNodeByPinDefaultMisses()
    ensures var g := OneOutputPin();
            var first := FindNodeByPin(g, 2, None);
            var second := FindNodeByPin(first.graph, 2, None);
            && first.node.EmptyNode?
            && second.node == first.graph.nodes[0]
            && FindNodeByPinAnyRole(g, 2, None).node.NodeAdapter?
  {
    var g := OneOutputPin();
    var n := g.nodes[0];
    assert LocateById(n, 2).index == 0 by {
      assert ScanById(n, 2, 0).index == 0;
    }
    ScanOwnerStep(g, 2, {None}, 0);
    var g' := OwnerStep(g, 2, 0);
    assert g'.pinNodeCache == map[2 := 0];
    assert FindNodeByPin(g, 2, None).graph == g';
    ScanOwnerStep(g, 2, Accepted(None), 0);
  }

  /** The identities of the nodes holding a pin with this id and one of the
      `roles`. */
  ghost function OidsHolding(nodes: seq<LiveNode>, id: int, roles: set<InputOutput>): set<nat>
  {
    set i | 0 <= i < |nodes| && Holds(nodes[i], id, roles) :: nodes[i].oid
  }

  /** The pin-id-to-node cache is not keyed by role: a lookup that finds the
      pin with the wrong role still records its owner, and the next lookup for
      that role answers the owner from the cache although its pin has the
      other role. */
  lemma FindNodeByPinHitIgnoresRole()
    ensures var g := OneOutputPin();
            var first := FindNodeByPin(g, 2, Input);
            var second := FindNodeByPin(first.graph, 2, Input);
            && first.node.EmptyNode?
            && second.node.NodeAdapter? && !Holds(second.node, 2, {Input}) && Holds(second.node, 2, {Output})
  {
    var g := OneOutputPin();
    var n := g.nodes[0];
    assert LocateById(n, 2).index == 0 by {
      assert ScanById(n, 2, 0).index == 0;
    }
    ScanOwnerStep(g, 2, {Input}, 0);
    var g' := OwnerStep(g, 2, 0);
    assert g'.pinNodeCache == map[2 := 0];
    var first := FindNodeByPin(g, 2, Input);
    assert first.graph == g';
    var m := FindNodeByPin(g', 2, Input).node;
    assert m == g'.nodes[0];
    assert m.pins[0].pinId == 2 && m.pins[0].io == Output;
  }

  /** A graph holding one node (id 1) with one output pin (id 2). */
  function OneOutputPin(): (g: Graph)
    ensures g.GraphImpl? && |g.nodes| == 1 && |g.nodes[0].pins| == 1
    ensures g.pinNodeCache == map[] && g.nodes[0].pinIdCache == map[]
  {
    var p := PinAdapter(1, 2, "out", Square, Output, White, LightGrey, DarkGrey, [], []);
    var n := NodeAdapter(0, 0, DefaultHooks, true, 1, "", MinValue, MinValue, "#ffffff", "#8c8c8c", [p], map[], map[]);
    GraphImpl(MinValue, MinValue, [n], 3, map[], map[], map[], {})
  }

  /** Restamping keeps ids distinct. */
  lemma RestampedIdsDistinct(a: seq<LiveNode>, b: seq<LiveNode>)
    requires NodesRestamped(a, b)
    ensures IdsDistinct(a) ==> IdsDistinct(b)
  {
    assert forall k, j :: 0 <= k < |a| && 0 <= j < |a[k].pins| ==>
      b[k].pins[j].pinId == a[k].pins[j].pinId && b[k].nodeId == a[k].nodeId;
  }
}
