/** Lifecycle: `GraphImpl.addNode` and `GraphImpl.removeNode`. Adding appends
    the node first and only then asks `nextId()` for its id and for one id per
    pin, so the scans behind those calls already see the new node with the
    ids it arrived with. */
module Lifecycle {
  import opened Base
  import opened Pins
  import opened Nodes
  import opened Graphs
  import opened Ids

  // ----------------------------------------------------------------- addNode

  /** `nodes.add(node)` followed by `node.graph = this`. */
  function Attach(g: Graph, n: LiveNode): (g': Graph)
    requires g.GraphImpl?
    ensures g'.GraphImpl? && g'.nodes == g.nodes + [n.(attached := true)]
  {
    g.(nodes := g.nodes + [n.(attached := true)])
  }

  /** `node.nodeId = id` followed by `nodeIdCache[node.nodeId] = node`, for the
      node at position `k`. */
  function SetNodeId(g: Graph, k: nat, id: int): (g': Graph)
    requires g.GraphImpl? && k < |g.nodes|
    ensures g'.GraphImpl? && |g'.nodes| == |g.nodes| && g'.nodes[k] == g.nodes[k].(nodeId := id)
  {
    g.(nodes := g.nodes[k := g.nodes[k].(nodeId := id)], nodeIdCache := g.nodeIdCache[id := g.nodes[k].oid])
  }

  /** `pin.pinId = id; pin.nodeId = node.nodeId; pinIdCache[pin.pinId] = pin`
      for pin `j` of the node at position `k`. */
  function SetPinId(g: Graph, k: nat, j: nat, id: int): (g': Graph)
    requires g.GraphImpl? && k < |g.nodes| && j < |g.nodes[k].pins|
    ensures g'.GraphImpl? && |g'.nodes| == |g.nodes| && |g'.nodes[k].pins| == |g.nodes[k].pins|
  {
    var n := g.nodes[k];
    var p := n.pins[j].(pinId := id, nodeId := n.nodeId);
    g.(nodes := g.nodes[k := n.(pins := n.pins[j := p])], pinIdCache := g.pinIdCache[id := PinAt(n.oid, j)])
  }

  /** The pin loop of `addNode` from pin `j` on: each pin of the node at
      position `k` gets its own `nextId()`. */
  function AssignPinIds(g: Graph, k: nat, j: nat): (r: Graph)
    requires g.GraphImpl? && k < |g.nodes| && j <= |g.nodes[k].pins|
    ensures r.GraphImpl? && |r.nodes| == |g.nodes| && |r.nodes[k].pins| == |g.nodes[k].pins|
    ensures r.centerX == g.centerX && r.centerY == g.centerY
    decreases |g.nodes[k].pins| - j
  {
    if j == |g.nodes[k].pins| then g
    else
      var a := NextId(g);
      AssignPinIds(SetPinId(a.graph, k, j, a.id), k, j + 1)
  }

  /** `addNode(node)`: refused (false, nothing changes) by `IGraph.Empty`, for
      `INode.Empty`, and when `onAdd()` vetoes; otherwise the node is appended,
      attached, and given a fresh id, and each of its pins a fresh id and the
      node's id; the answer is true. */
  function AddNode(g: Graph, n: Node): (r: Answer)
    ensures g.EmptyGraph? || n.EmptyNode? || !OnAdd(n) ==> r == Answer(g, false)
    ensures g.GraphImpl? && n.NodeAdapter? && OnAdd(n) ==>
      && r.yes && r.graph.GraphImpl? && |r.graph.nodes| == |g.nodes| + 1
      && r.graph.centerX == g.centerX && r.graph.centerY == g.centerY
  {
    if g.EmptyGraph? || n.EmptyNode? || !OnAdd(n) then Answer(g, false)
    else
      var k := |g.nodes|;
      var a := NextId(Attach(g, n));
      Answer(AssignPinIds(SetNodeId(a.graph, k, a.id), k, 0), true)
  }

  // ------------------------------------------------------ what addNode keeps

  /** The ids a node arrives with: its own and its pins'. `addNode` renumbers
      them all. */
  ghost function CarriedIds(n: LiveNode): set<int>
  {
    {n.nodeId} + PinIdsOf(n)
  }

  /** The ids the pins of one node carry. */
  ghost function PinIdsOf(n: LiveNode): set<int>
  {
    set j | 0 <= j < |n.pins| :: n.pins[j].pinId
  }

  /** Two lists hold the same node objects in the same order. */
  ghost predicate SameOids(a: seq<LiveNode>, b: seq<LiveNode>)
  {
    |a| == |b| && forall i :: 0 <= i < |a| ==> a[i].oid == b[i].oid
  }

  /** Positions depend only on identities. */
  lemma {:induction false} IndexOfOidSameOids(a: seq<LiveNode>, b: seq<LiveNode>, o: nat)
    requires SameOids(a, b)
    ensures IndexOfOid(a, o) == IndexOfOid(b, o)
  {
    if |a| > 0 {
      assert SameOids(a[1..], b[1..]) by {
        forall i | 0 <= i < |a| - 1 ensures a[1..][i].oid == b[1..][i].oid {
          assert a[1..][i] == a[i + 1];
        }
      }
      IndexOfOidSameOids(a[1..], b[1..], o);
    }
  }

  /** Ids set aside no longer matter once no node and no pin carries them. */
  lemma OffUnused(g: Graph, off: set<int>)
    requires g.GraphImpl? && CoherentOff(g, off)
    requires forall x :: x in off ==> x !in NodeIds(g.nodes) && x !in PinIds(g.nodes)
    ensures Coherent(g)
  {
  }

  /** Appending the node keeps the caches right about every id but the ones
      it arrived with. */
  lemma AttachCoherent(g: Graph, n: LiveNode)
    requires g.GraphImpl? && Coherent(g) && NodeCoherent(n)
    requires forall i :: 0 <= i < |g.nodes| ==> g.nodes[i].oid != n.oid
    ensures CoherentOff(Attach(g, n), CarriedIds(n))
  {
    var g1 := Attach(g, n);
    forall o | IndexOfOid(g.nodes, o) != -1 ensures IndexOfOid(g1.nodes, o) == IndexOfOid(g.nodes, o) {
      AppendIndex(g.nodes, n.(attached := true), o);
    }
    AttachNodeCache(g, n);
    AttachPinCache(g, n);
    AttachOwnerCache(g, n);
  }

  lemma AttachNodeCache(g: Graph, n: LiveNode)
    requires g.GraphImpl? && Coherent(g)
    requires forall o :: IndexOfOid(g.nodes, o) != -1 ==> IndexOfOid(Attach(g, n).nodes, o) == IndexOfOid(g.nodes, o)
    ensures NodeCacheCoherent(Attach(g, n), CarriedIds(n))
  {
    var g1 := Attach(g, n);
    forall key | key in g1.nodeIdCache && key >= 0 && key !in CarriedIds(n) && key in NodeIds(g1.nodes)
      ensures NodeOf(g1.nodes, g1.nodeIdCache[key]).NodeId() == key
    {
      var i :| 0 <= i < |g1.nodes| && g1.nodes[i].nodeId == key;
      assert i < |g.nodes|;
      assert key in NodeIds(g.nodes);
    }
  }

  lemma AttachPinCache(g: Graph, n: LiveNode)
    requires g.GraphImpl? && Coherent(g)
    requires forall o :: IndexOfOid(g.nodes, o) != -1 ==> IndexOfOid(Attach(g, n).nodes, o) == IndexOfOid(g.nodes, o)
    ensures PinCacheCoherent(Attach(g, n), CarriedIds(n))
  {
    var g1 := Attach(g, n);
    forall key | key in g1.pinIdCache && key >= 0 && key !in CarriedIds(n) && key in PinIds(g1.nodes)
      ensures PinOf(g1.nodes, g1.pinIdCache[key]).pin.PinId() == key
    {
      var i, j :| 0 <= i < |g1.nodes| && 0 <= j < |g1.nodes[i].pins| && g1.nodes[i].pins[j].pinId == key;
      assert key in PinIds(g.nodes);
    }
  }

  lemma AttachOwnerCache(g: Graph, n: LiveNode)
    requires g.GraphImpl? && Coherent(g)
    requires forall o :: IndexOfOid(g.nodes, o) != -1 ==> IndexOfOid(Attach(g, n).nodes, o) == IndexOfOid(g.nodes, o)
    ensures OwnerCacheCoherent(Attach(g, n), CarriedIds(n))
  {
    var g1 := Attach(g, n);
    forall key | key in g1.pinNodeCache && key >= 0 && key !in CarriedIds(n) && key in PinIds(g1.nodes)
      ensures var m := NodeOf(g1.nodes, g1.pinNodeCache[key]);
              m.NodeAdapter? && exists j :: 0 <= j < |m.pins| && m.pins[j].pinId == key
    {
      var i, j :| 0 <= i < |g1.nodes| && 0 <= j < |g1.nodes[i].pins| && g1.nodes[i].pins[j].pinId == key;
      assert key in PinIds(g.nodes);
    }
  }

  /** Where an identity sits once a node is appended. */
  lemma {:induction false} AppendIndex(a: seq<LiveNode>, m: LiveNode, o: nat)
    ensures IndexOfOid(a + [m], o) == (if IndexOfOid(a, o) == -1 && o == m.oid then |a| else IndexOfOid(a, o))
  {
    if |a| > 0 {
      assert (a + [m])[1..] == a[1..] + [m];
      AppendIndex(a[1..], m, o);
    }
  }

  /** Giving node `k` a new id that nothing remembers keeps the caches right,
      as long as its old id is set aside. */
  lemma SetNodeIdCoherent(g: Graph, k: nat, id: int, off: set<int>)
    requires g.GraphImpl? && k < |g.nodes| && CoherentOff(g, off)
    requires g.nodes[k].nodeId in off && id !in Ids.Used(g)
    ensures CoherentOff(SetNodeId(g, k, id), off)
  {
    var g' := SetNodeId(g, k, id);
    forall o ensures IndexOfOid(g'.nodes, o) == IndexOfOid(g.nodes, o) {
      IndexOfOidSameOids(g.nodes, g'.nodes, o);
    }
    assert PinIds(g'.nodes) == PinIds(g.nodes) by {
      assert forall i :: 0 <= i < |g.nodes| ==> g'.nodes[i].pins == g.nodes[i].pins;
    }
    IndexOfOidAt(g.nodes, k);
    SetNodeIdNodeCache(g, k, id, off);
    SamePinsCoherent(g, g', off);
  }

  /** The pin caches only look at pins: a change to nodes that keeps every
      identity and every pin keeps them right. */
  lemma SamePinsCoherent(g: Graph, g': Graph, off: set<int>)
    requires g.GraphImpl? && g'.GraphImpl? && CoherentOff(g, off)
    requires SameOids(g.nodes, g'.nodes) && g'.pinIdCache == g.pinIdCache && g'.pinNodeCache == g.pinNodeCache
    requires forall i :: 0 <= i < |g.nodes| ==> g'.nodes[i].(nodeId := g.nodes[i].nodeId) == g.nodes[i]
    ensures OidsUnique(g'.nodes) && PinCacheCoherent(g', off) && OwnerCacheCoherent(g', off)
    ensures forall i :: 0 <= i < |g'.nodes| ==> NodeCoherent(g'.nodes[i])
  {
    forall o ensures IndexOfOid(g'.nodes, o) == IndexOfOid(g.nodes, o) {
      IndexOfOidSameOids(g.nodes, g'.nodes, o);
    }
    assert forall i :: 0 <= i < |g.nodes| ==> g'.nodes[i].pins == g.nodes[i].pins;
    SamePinsCaches(g, g', off);
    forall i | 0 <= i < |g'.nodes| ensures NodeCoherent(g'.nodes[i]) {
      assert NodeCoherent(g.nodes[i]);
    }
  }

  lemma SamePinsCaches(g: Graph, g': Graph, off: set<int>)
    requires g.GraphImpl? && g'.GraphImpl? && CoherentOff(g, off) && |g.nodes| == |g'.nodes|
    requires g'.pinIdCache == g.pinIdCache && g'.pinNodeCache == g.pinNodeCache
    requires forall o :: IndexOfOid(g'.nodes, o) == IndexOfOid(g.nodes, o)
    requires forall i :: 0 <= i < |g.nodes| ==> g'.nodes[i].pins == g.nodes[i].pins
    ensures PinCacheCoherent(g', off) && OwnerCacheCoherent(g', off)
  {
    assert PinIds(g'.nodes) == PinIds(g.nodes);
    assert forall o :: NodeOf(g'.nodes, o).Pins() == NodeOf(g.nodes, o).Pins();
  }

  lemma SetNodeIdNodeCache(g: Graph, k: nat, id: int, off: set<int>)
    requires g.GraphImpl? && k < |g.nodes| && CoherentOff(g, off)
    requires g.nodes[k].nodeId in off && id !in Ids.Used(g)
    requires forall o :: IndexOfOid(SetNodeId(g, k, id).nodes, o) == IndexOfOid(g.nodes, o)
    requires IndexOfOid(g.nodes, g.nodes[k].oid) == k
    ensures NodeCacheCoherent(SetNodeId(g, k, id), off)
  {
    var g' := SetNodeId(g, k, id);
    forall key | key in g'.nodeIdCache && key >= 0 && key !in off && key in NodeIds(g'.nodes)
      ensures NodeOf(g'.nodes, g'.nodeIdCache[key]).NodeId() == key
    {
      if key != id {
        var i :| 0 <= i < |g'.nodes| && g'.nodes[i].nodeId == key;
        assert i != k && key in NodeIds(g.nodes);
      }
    }
  }

  /** Giving pin `j` of node `k` a new id that nothing remembers keeps the
      caches right, as long as its old id is set aside and the node's own id
      cache does not name it. */
  lemma SetPinIdCoherent(g: Graph, k: nat, j: nat, id: int, off: set<int>)
    requires g.GraphImpl? && k < |g.nodes| && j < |g.nodes[k].pins| && CoherentOff(g, off)
    requires g.nodes[k].pins[j].pinId in off && g.nodes[k].pins[j].pinId !in g.nodes[k].pinIdCache
    requires id !in Ids.Used(g)
    ensures CoherentOff(SetPinId(g, k, j, id), off)
  {
    var g' := SetPinId(g, k, j, id);
    forall o ensures IndexOfOid(g'.nodes, o) == IndexOfOid(g.nodes, o) {
      IndexOfOidSameOids(g.nodes, g'.nodes, o);
    }
    IndexOfOidAt(g.nodes, k);
    SetPinIdNodes(g, k, j, id, off);
    SetPinIdPinCache(g, k, j, id, off);
    SetPinIdOwnerCache(g, k, j, id, off);
  }

  lemma SetPinIdNodes(g: Graph, k: nat, j: nat, id: int, off: set<int>)
    requires g.GraphImpl? && k < |g.nodes| && j < |g.nodes[k].pins| && CoherentOff(g, off)
    requires g.nodes[k].pins[j].pinId !in g.nodes[k].pinIdCache
    requires forall o :: IndexOfOid(SetPinId(g, k, j, id).nodes, o) == IndexOfOid(g.nodes, o)
    ensures var g' := SetPinId(g, k, j, id);
      && OidsUnique(g'.nodes) && NodeCacheCoherent(g', off)
      && forall i :: 0 <= i < |g'.nodes| ==> NodeCoherent(g'.nodes[i])
  {
    var g' := SetPinId(g, k, j, id);
    assert forall i :: 0 <= i < |g.nodes| ==> g'.nodes[i].oid == g.nodes[i].oid;
    SetPinIdNodeCache(g, k, j, id, off);
    SetPinIdNodeCoherent(g, k, j, id);
  }

  /** Renumbering a pin changes no node id, so the node cache stays right. */
  lemma SetPinIdNodeCache(g: Graph, k: nat, j: nat, id: int, off: set<int>)
    requires g.GraphImpl? && k < |g.nodes| && j < |g.nodes[k].pins| && NodeCacheCoherent(g, off)
    requires forall o :: IndexOfOid(SetPinId(g, k, j, id).nodes, o) == IndexOfOid(g.nodes, o)
    ensures NodeCacheCoherent(SetPinId(g, k, j, id), off)
  {
    var g' := SetPinId(g, k, j, id);
    assert NodeIds(g'.nodes) == NodeIds(g.nodes) by {
      assert forall i :: 0 <= i < |g.nodes| ==> g'.nodes[i].nodeId == g.nodes[i].nodeId;
    }
    assert forall o :: NodeOf(g'.nodes, o).NodeId() == NodeOf(g.nodes, o).NodeId();
  }

  /** Renumbering a pin the node's own cache does not name keeps every node
      coherent. */
  lemma SetPinIdNodeCoherent(g: Graph, k: nat, j: nat, id: int)
    requires g.GraphImpl? && k < |g.nodes| && j < |g.nodes[k].pins|
    requires forall i :: 0 <= i < |g.nodes| ==> NodeCoherent(g.nodes[i])
    requires g.nodes[k].pins[j].pinId !in g.nodes[k].pinIdCache
    ensures forall i :: 0 <= i < |SetPinId(g, k, j, id).nodes| ==> NodeCoherent(SetPinId(g, k, j, id).nodes[i])
  {
    assert NodeCoherent(g.nodes[k]);
  }

  lemma SetPinIdPinCache(g: Graph, k: nat, j: nat, id: int, off: set<int>)
    requires g.GraphImpl? && k < |g.nodes| && j < |g.nodes[k].pins| && CoherentOff(g, off)
    requires g.nodes[k].pins[j].pinId in off && id !in Ids.Used(g)
    requires forall o :: IndexOfOid(SetPinId(g, k, j, id).nodes, o) == IndexOfOid(g.nodes, o)
    requires IndexOfOid(g.nodes, g.nodes[k].oid) == k
    ensures PinCacheCoherent(SetPinId(g, k, j, id), off)
  {
    var g' := SetPinId(g, k, j, id);
    forall key | key in g'.pinIdCache && key >= 0 && key !in off && key in PinIds(g'.nodes)
      ensures PinOf(g'.nodes, g'.pinIdCache[key]).pin.PinId() == key
    {
      if key != id {
        var i, x :| 0 <= i < |g'.nodes| && 0 <= x < |g'.nodes[i].pins| && g'.nodes[i].pins[x].pinId == key;
        assert (i, x) != (k, j);
        assert g.nodes[i].pins[x].pinId == key;
        assert key in PinIds(g.nodes);
      }
    }
  }

  lemma SetPinIdOwnerCache(g: Graph, k: nat, j: nat, id: int, off: set<int>)
    requires g.GraphImpl? && k < |g.nodes| && j < |g.nodes[k].pins| && CoherentOff(g, off)
    requires g.nodes[k].pins[j].pinId in off && id !in Ids.Used(g)
    requires forall o :: IndexOfOid(SetPinId(g, k, j, id).nodes, o) == IndexOfOid(g.nodes, o)
    ensures OwnerCacheCoherent(SetPinId(g, k, j, id), off)
  {
    var g' := SetPinId(g, k, j, id);
    forall key | key in g'.pinNodeCache && key >= 0 && key !in off && key in PinIds(g'.nodes)
      ensures var m := NodeOf(g'.nodes, g'.pinNodeCache[key]);
              m.NodeAdapter? && exists x :: 0 <= x < |m.pins| && m.pins[x].pinId == key
    {
      var i, x :| 0 <= i < |g'.nodes| && 0 <= x < |g'.nodes[i].pins| && g'.nodes[i].pins[x].pinId == key;
      assert key != id;
      assert (i, x) != (k, j);
      assert g.nodes[i].pins[x].pinId == key;
      assert key in PinIds(g.nodes);
      var o := g.pinNodeCache[key];
      var m := NodeOf(g.nodes, o);
      var x' :| 0 <= x' < |m.pins| && m.pins[x'].pinId == key;
      var i' := IndexOfOid(g.nodes, o);
      assert (i', x') != (k, j);
      assert NodeOf(g'.nodes, o).pins[x'].pinId == key;
    }
  }

  /** One turn of the pin loop of `addNode`. */
  lemma AssignPinIdsUnfold(g: Graph, k: nat, j: nat)
    requires g.GraphImpl? && k < |g.nodes| && j < |g.nodes[k].pins|
    ensures var a := NextId(g);
            AssignPinIds(g, k, j) == AssignPinIds(SetPinId(a.graph, k, j, a.id), k, j + 1)
  {
  }

  /** `m` is `n` as `addNode` left it after numbering its first `j` pins:
      attached, with node id `nid`; the pins before `j` carry new ids and
      `nid`; the later pins differ from the originals in the owner id at most. */
  ghost predicate NumberedUpTo(n: LiveNode, m: LiveNode, nid: int, j: nat)
  {
    && j <= |n.pins| == |m.pins|
    && m == n.(attached := true, nodeId := nid, pins := m.pins)
    && (forall i :: 0 <= i < j ==> m.pins[i] == n.pins[i].(pinId := m.pins[i].pinId, nodeId := nid))
    && (forall i :: j <= i < |n.pins| ==> m.pins[i] == n.pins[i].(nodeId := m.pins[i].nodeId))
  }

  /** A scan keeps a node numbered as it was. */
  lemma NumberedRestamped(n: LiveNode, m: LiveNode, m': LiveNode, nid: int, j: nat)
    requires NumberedUpTo(n, m, nid, j) && Restamped(m, m')
    requires m'.pinIdCache == m.pinIdCache && m'.pinLabelCache == m.pinLabelCache
    ensures NumberedUpTo(n, m', nid, j)
  {
    forall i | 0 <= i < |n.pins| ensures m'.pins[i].pinId == m.pins[i].pinId && m'.pins[i] == m.pins[i].(nodeId := m'.pins[i].nodeId) {
      assert PinRestamped(m.pins[i], m'.pins[i], nid);
    }
  }

  /** Numbering pin `j` extends the numbered prefix by one. */
  lemma NumberedSetPin(n: LiveNode, m: LiveNode, nid: int, j: nat, id: int)
    requires NumberedUpTo(n, m, nid, j) && j < |n.pins|
    ensures NumberedUpTo(n, m.(pins := m.pins[j := m.pins[j].(pinId := id, nodeId := m.nodeId)]), nid, j + 1)
  {
  }

  /** One turn of the pin loop numbers one more pin and only restamps the
      nodes before the last. */
  lemma AssignPinIdsShapeStep(g: Graph, k: nat, j: nat, n: LiveNode)
    requires g.GraphImpl? && k + 1 == |g.nodes| && j < |g.nodes[k].pins|
    requires NumberedUpTo(n, g.nodes[k], g.nodes[k].nodeId, j)
    ensures var a := NextId(g);
      var g' := SetPinId(a.graph, k, j, a.id);
      && g'.nodes[k].nodeId == g.nodes[k].nodeId
      && NumberedUpTo(n, g'.nodes[k], g.nodes[k].nodeId, j + 1)
      && StampedOnly(g.nodes[..k], g'.nodes[..k])
  {
    var a := NextId(g);
    var g' := SetPinId(a.graph, k, j, a.id);
    assert Restamped(g.nodes[k], a.graph.nodes[k]);
    NumberedRestamped(n, g.nodes[k], a.graph.nodes[k], g.nodes[k].nodeId, j);
    NumberedSetPin(n, a.graph.nodes[k], g.nodes[k].nodeId, j, a.id);
    assert g'.nodes[..k] == a.graph.nodes[..k];
  }

  /** The pin loop numbers the remaining pins of the last node and only
      restamps the nodes before it. */
  lemma {:induction false} AssignPinIdsShape(g: Graph, k: nat, j: nat, n: LiveNode)
    requires g.GraphImpl? && k + 1 == |g.nodes| && j <= |g.nodes[k].pins|
    requires NumberedUpTo(n, g.nodes[k], g.nodes[k].nodeId, j)
    ensures var r := AssignPinIds(g, k, j);
      && NumberedUpTo(n, r.nodes[k], g.nodes[k].nodeId, |n.pins|)
      && StampedOnly(g.nodes[..k], r.nodes[..k])
    decreases |g.nodes[k].pins| - j
  {
    if j == |g.nodes[k].pins| {
      assert StampedOnly(g.nodes[..k], g.nodes[..k]);
    } else {
      hide NextId, SetPinId, NumberedUpTo;
      var a := NextId(g);
      var g' := SetPinId(a.graph, k, j, a.id);
      AssignPinIdsUnfold(g, k, j);
      AssignPinIdsShapeStep(g, k, j, n);
      AssignPinIdsShape(g', k, j + 1, n);
      StampedOnlyTrans(g.nodes[..k], g'.nodes[..k], AssignPinIds(g', k, j + 1).nodes[..k]);
    }
  }

  /** Node `k` and its first `j` pins carry new ids: none in `u`, none below
      `h`, no two alike; the graph remembers them all, and all of `u`. */
  ghost predicate FreshUpTo(g: Graph, k: nat, j: nat, u: set<int>, h: int)
    requires g.GraphImpl? && k < |g.nodes| && j <= |g.nodes[k].pins|
  {
    var m := g.nodes[k];
    && u <= Remembered(g) && g.hint >= h
    && m.nodeId in g.nodeIdCache && m.nodeId !in u && m.nodeId >= h
    && (forall i :: 0 <= i < j ==>
          m.pins[i].pinId in g.pinIdCache && m.pins[i].pinId !in u && m.pins[i].pinId >= h && m.pins[i].pinId != m.nodeId)
    && (forall a, b :: 0 <= a < b < j ==> m.pins[a].pinId != m.pins[b].pinId)
  }

  /** One turn of the pin loop hands out one more new id. */
  lemma AssignPinIdsFreshStep(g: Graph, k: nat, j: nat, u: set<int>, h: int)
    requires g.GraphImpl? && k < |g.nodes| && j < |g.nodes[k].pins|
    requires FreshUpTo(g, k, j, u, h)
    ensures var a := NextId(g); FreshUpTo(SetPinId(a.graph, k, j, a.id), k, j + 1, u, h)
  {
    var a := NextId(g);
    var g' := SetPinId(a.graph, k, j, a.id);
    NextIdNotRemembered(g);
    NextIdRemembers(g);
    var m, m' := g.nodes[k], g'.nodes[k];
    assert Restamped(m, a.graph.nodes[k]);
    assert Grows(g, g');
    assert forall i :: 0 <= i < |m.pins| && i != j ==> m'.pins[i].pinId == m.pins[i].pinId;
    assert m'.pins[j].pinId == a.id && m'.nodeId == m.nodeId;
    assert a.id !in u && a.id != m.nodeId;
    assert forall i :: 0 <= i < j ==> m.pins[i].pinId != a.id;
  }

  /** Every id the pin loop hands out is new. */
  lemma {:induction false} AssignPinIdsFresh(g: Graph, k: nat, j: nat, u: set<int>, h: int)
    requires g.GraphImpl? && k < |g.nodes| && j <= |g.nodes[k].pins|
    requires FreshUpTo(g, k, j, u, h)
    ensures FreshUpTo(AssignPinIds(g, k, j), k, |g.nodes[k].pins|, u, h)
    decreases |g.nodes[k].pins| - j
  {
    if j < |g.nodes[k].pins| {
      var a := NextId(g);
      AssignPinIdsUnfold(g, k, j);
      AssignPinIdsFreshStep(g, k, j, u, h);
      AssignPinIdsFresh(SetPinId(a.graph, k, j, a.id), k, j + 1, u, h);
    }
  }

  /** The pin loop keeps the caches right, with the ids the pins arrived with
      set aside. */
  lemma {:induction false} AssignPinIdsCoherent(g: Graph, k: nat, j: nat, off: set<int>)
    requires g.GraphImpl? && k < |g.nodes| && j <= |g.nodes[k].pins| && CoherentOff(g, off)
    requires g.nodes[k].pinIdCache == map[]
    requires forall i :: j <= i < |g.nodes[k].pins| ==> g.nodes[k].pins[i].pinId in off
    ensures CoherentOff(AssignPinIds(g, k, j), off)
    decreases |g.nodes[k].pins| - j
  {
    hide NextId, SetPinId, CoherentOff;
    if j < |g.nodes[k].pins| {
      var a := NextId(g);
      AssignPinIdsUnfold(g, k, j);
      AssignPinIdsCoherentStep(g, k, j, off);
      AssignPinIdsCoherent(SetPinId(a.graph, k, j, a.id), k, j + 1, off);
    }
  }

  /** One turn of the pin loop keeps the caches right and leaves the later
      pins with the ids they arrived with. */
  lemma AssignPinIdsCoherentStep(g: Graph, k: nat, j: nat, off: set<int>)
    requires g.GraphImpl? && k < |g.nodes| && j < |g.nodes[k].pins| && CoherentOff(g, off)
    requires g.nodes[k].pinIdCache == map[]
    requires forall i :: j <= i < |g.nodes[k].pins| ==> g.nodes[k].pins[i].pinId in off
    ensures var a := NextId(g); var g' := SetPinId(a.graph, k, j, a.id);
      && CoherentOff(g', off) && g'.nodes[k].pinIdCache == map[]
      && forall i :: j + 1 <= i < |g'.nodes[k].pins| ==> g'.nodes[k].pins[i].pinId in off
  {
    var a := NextId(g);
    NextIdSmallestFree(g);
    NextIdCoherent(g, off);
    assert forall i :: 0 <= i < |g.nodes[k].pins| ==> a.graph.nodes[k].pins[i].pinId == g.nodes[k].pins[i].pinId;
    SetPinIdCoherent(a.graph, k, j, a.id, off);
  }

  /** The ids of a list with one more node. */
  lemma IdsAppend(a: seq<LiveNode>, m: LiveNode)
    ensures NodeIds(a + [m]) == NodeIds(a) + {m.nodeId}
    ensures PinIds(a + [m]) == PinIds(a) + PinIdsOf(m)
  {
    var b := a + [m];
    forall x | x in PinIds(b) ensures x in PinIds(a) || x in PinIdsOf(m) {
      var k, j :| 0 <= k < |b| && 0 <= j < |b[k].pins| && b[k].pins[j].pinId == x;
      if k == |a| {
        assert x == m.pins[j].pinId;
      } else {
        assert a[k].pins[j].pinId == x;
      }
    }
    forall x | x in PinIds(a) ensures x in PinIds(b) {
      var k, j :| 0 <= k < |a| && 0 <= j < |a[k].pins| && a[k].pins[j].pinId == x;
      assert b[k].pins[j].pinId == x;
    }
    forall j | 0 <= j < |m.pins| ensures m.pins[j].pinId in PinIds(b) {
      assert b[|a|].pins[j].pinId == m.pins[j].pinId;
    }
    forall x | x in NodeIds(b) ensures x in NodeIds(a) + {m.nodeId} {
      var k :| 0 <= k < |b| && b[k].nodeId == x;
      if k < |a| { assert a[k].nodeId == x; }
    }
    forall x | x in NodeIds(a) ensures x in NodeIds(b) {
      var k :| 0 <= k < |a| && a[k].nodeId == x;
      assert b[k].nodeId == x;
    }
    assert b[|a|].nodeId == m.nodeId;
  }

  /** What `addNode` does to the list once it accepts a node object the list
      does not hold yet: the nodes already there keep their ids, order and
      own caches (scans only restamp their pins); the new node comes last,
      attached, with everything it brought except its id, its pins' ids and
      their owner id, which is its new id. */
  lemma AddNodeNumbers(g: Graph, n: Node)
    requires g.GraphImpl? && n.NodeAdapter? && OnAdd(n)
    requires forall i :: 0 <= i < |g.nodes| ==> g.nodes[i].oid != n.oid
    ensures var r := AddNode(g, n).graph;
      var m := r.nodes[|g.nodes|];
      && |r.nodes| == |g.nodes| + 1
      && StampedOnly(g.nodes, r.nodes[..|g.nodes|])
      && m == n.(attached := true, nodeId := m.nodeId, pins := m.pins) && |m.pins| == |n.pins|
      && forall j :: 0 <= j < |n.pins| ==> m.pins[j] == n.pins[j].(pinId := m.pins[j].pinId, nodeId := m.nodeId)
  {
    var k := |g.nodes|;
    var g1 := Attach(g, n);
    var a := NextId(g1);
    var g2 := SetNodeId(a.graph, k, a.id);
    assert Restamped(g1.nodes[k], a.graph.nodes[k]);
    assert NumberedUpTo(n, g1.nodes[k], n.nodeId, 0);
    NumberedRestamped(n, g1.nodes[k], a.graph.nodes[k], n.nodeId, 0);
    assert NumberedUpTo(n, g2.nodes[k], a.id, 0);
    AssignPinIdsShape(g2, k, 0, n);
    assert StampedOnly(g.nodes, g2.nodes[..k]) by {
      assert g1.nodes[..k] == g.nodes;
      assert g2.nodes[..k] == a.graph.nodes[..k];
    }
    StampedOnlyTrans(g.nodes, g2.nodes[..k], AssignPinIds(g2, k, 0).nodes[..k]);
  }

  /** The ids `addNode` hands out to a node object the list does not hold
      yet are new: not taken in the graph before, not
      among the ids the node arrived with, not below the hint, and pairwise
      distinct. */
  lemma AddNodeFresh(g: Graph, n: Node)
    requires g.GraphImpl? && n.NodeAdapter? && OnAdd(n)
    requires forall i :: 0 <= i < |g.nodes| ==> g.nodes[i].oid != n.oid
    ensures var r := AddNode(g, n).graph;
      var m := r.nodes[|g.nodes|];
      var u := Ids.Used(g) + CarriedIds(n);
      && |r.nodes| == |g.nodes| + 1 && |m.pins| == |n.pins|
      && m.nodeId !in u && m.nodeId >= g.hint
      && (forall j :: 0 <= j < |m.pins| ==> m.pins[j].pinId !in u && m.pins[j].pinId >= g.hint && m.pins[j].pinId != m.nodeId)
      && (forall a, b :: 0 <= a < b < |m.pins| ==> m.pins[a].pinId != m.pins[b].pinId)
  {
    var k := |g.nodes|;
    var g1 := Attach(g, n);
    var a := NextId(g1);
    var g2 := SetNodeId(a.graph, k, a.id);
    var u := Ids.Used(g1);
    IdsAppend(g.nodes, n.(attached := true));
    assert CarriedIds(n.(attached := true)) == CarriedIds(n);
    assert u == Ids.Used(g) + CarriedIds(n);
    NextIdSmallestFree(g1);
    NextIdRemembers(g1);
    assert u <= Remembered(a.graph);
    assert Restamped(g1.nodes[k], a.graph.nodes[k]);
    assert FreshUpTo(g2, k, 0, u, g.hint);
    AssignPinIdsFresh(g2, k, 0, u, g.hint);
    AddNodeNumbers(g, n);
  }

  /** Starting from distinct non-negative ids with every pin stamped with its
      owner's, and a hint that is not negative, adding a node object the list
      does not hold yet keeps it so. */
  lemma AddNodeKeepsIdsDistinct(g: Graph, n: Node)
    requires g.GraphImpl? && n.NodeAdapter? && OnAdd(n)
    requires forall i :: 0 <= i < |g.nodes| ==> g.nodes[i].oid != n.oid
    requires IdsDistinct(g.nodes) && g.hint >= 0
    ensures IdsDistinct(AddNode(g, n).graph.nodes)
  {
    hide AddNode;
    var k := |g.nodes|;
    var r := AddNode(g, n).graph;
    var m := r.nodes[k];
    AddNodeNumbers(g, n);
    AddNodeFresh(g, n);
    RestampedIdsDistinct(g.nodes, r.nodes[..k]);
    RestampedKeepsIds(g.nodes, r.nodes[..k]);
    assert r.nodes == r.nodes[..k] + [m];
    IdsDistinctAppend(r.nodes[..k], m);
  }

  /** A node whose ids are new, non-negative and pairwise distinct, and whose
      pins carry its id, can join a list with distinct ids. */
  lemma IdsDistinctAppend(a: seq<LiveNode>, m: LiveNode)
    requires IdsDistinct(a) && m.nodeId >= 0
    requires m.nodeId !in NodeIds(a) && m.nodeId !in PinIds(a)
    requires forall j :: 0 <= j < |m.pins| ==>
      && m.pins[j].pinId !in NodeIds(a) && m.pins[j].pinId !in PinIds(a) && m.pins[j].pinId != m.nodeId
      && m.pins[j].pinId >= 0 && m.pins[j].nodeId == m.nodeId
    requires forall x, y :: 0 <= x < y < |m.pins| ==> m.pins[x].pinId != m.pins[y].pinId
    ensures IdsDistinct(a + [m])
  {
    var b := a + [m];
    var k := |a|;
    assert b[k] == m;
    forall x, y | 0 <= x < y < |b| ensures b[x].nodeId != b[y].nodeId {
      if y == k { assert a[x].nodeId in NodeIds(a); }
    }
    forall k1, j1, k2, j2 |
      0 <= k1 < |b| && 0 <= j1 < |b[k1].pins| && 0 <= k2 < |b| && 0 <= j2 < |b[k2].pins| &&
      b[k1].pins[j1].pinId == b[k2].pins[j2].pinId
      ensures k1 == k2 && j1 == j2
    {
    }
    forall k1, k2, j2 | 0 <= k1 < |b| && 0 <= k2 < |b| && 0 <= j2 < |b[k2].pins|
      ensures b[k1].nodeId != b[k2].pins[j2].pinId
    {
      if k1 < k && k2 == k {
        assert a[k1].nodeId in NodeIds(a);
      } else if k1 == k && k2 < k {
        assert a[k2].pins[j2].pinId in PinIds(a);
      }
    }
  }

  /** `addNode` keeps the caches right about every id in use, provided the node
      is a new object whose own caches are sound and name no pin by id, and
      none of the ids it arrived with is in use in the graph. */
  lemma AddNodeKeepsCoherent(g: Graph, n: Node)
    requires g.GraphImpl? && n.NodeAdapter? && OnAdd(n) && Coherent(g)
    requires forall i :: 0 <= i < |g.nodes| ==> g.nodes[i].oid != n.oid
    requires NodeCoherent(n) && n.pinIdCache == map[]
    requires forall x :: x in CarriedIds(n) ==> x !in NodeIds(g.nodes) && x !in PinIds(g.nodes)
    ensures Coherent(AddNode(g, n).graph)
  {
    var k := |g.nodes|;
    var off := CarriedIds(n);
    var g1 := Attach(g, n);
    var a := NextId(g1);
    var g2 := SetNodeId(a.graph, k, a.id);
    var r := AssignPinIds(g2, k, 0);
    AttachCoherent(g, n);
    NextIdCoherent(g1, off);
    NextIdSmallestFree(g1);
    assert Restamped(g1.nodes[k], a.graph.nodes[k]);
    SetNodeIdCoherent(a.graph, k, a.id, off);
    assert forall i :: 0 <= i < |n.pins| ==> g2.nodes[k].pins[i].pinId == n.pins[i].pinId;
    AssignPinIdsCoherent(g2, k, 0, off);
    AddNodeIdsAvoid(g, n);
    OffUnused(r, off);
  }

  /** After `addNode`, no node and no pin carries an id the new node arrived
      with, unless something in the graph already carried it. */
  lemma AddNodeIdsAvoid(g: Graph, n: Node)
    requires g.GraphImpl? && n.NodeAdapter? && OnAdd(n)
    requires forall i :: 0 <= i < |g.nodes| ==> g.nodes[i].oid != n.oid
    ensures var r := AddNode(g, n).graph;
      forall x :: x in CarriedIds(n) && x !in NodeIds(g.nodes) && x !in PinIds(g.nodes) ==>
        x !in NodeIds(r.nodes) && x !in PinIds(r.nodes)
  {
    hide AddNode;
    var k := |g.nodes|;
    var r := AddNode(g, n).graph;
    var m := r.nodes[k];
    AddNodeNumbers(g, n);
    AddNodeFresh(g, n);
    RestampedKeepsIds(g.nodes, r.nodes[..k]);
    assert r.nodes == r.nodes[..k] + [m];
    IdsAppend(r.nodes[..k], m);
  }

  // ------------------------------------------- stale keys after addNode

  /** No cache keeps an entry under a non-negative id that nothing carries any
      more. */
  ghost predicate KeysLive(g: Graph)
    requires g.GraphImpl?
  {
    && (forall key :: key in g.nodeIdCache && key >= 0 ==> key in NodeIds(g.nodes))
    && (forall key :: key in g.pinIdCache && key >= 0 ==> key in PinIds(g.nodes))
    && (forall key :: key in g.pinNodeCache && key >= 0 ==> key in PinIds(g.nodes))
  }

  /** With no stale entry and coherent caches, `findNode` answers nothing or
      a node carrying the id it was asked for. */
  lemma FindNodeAnswersOwnId(g: Graph, id: int)
    requires g.GraphImpl? && Coherent(g) && KeysLive(g)
    ensures var r := FindNode(g, id).node; r.EmptyNode? || r.NodeId() == id
  {
  }

  /** `n` with the "no id" marker -1 in place of its id and of every pin id. */
  function Unnumbered(n: Node): (m: Node)
    ensures m.EmptyNode? <==> n.EmptyNode?
    ensures n.NodeAdapter? ==> CarriedIds(m) <= {-1} && |m.pins| == |n.pins|
  {
    if n.EmptyNode? then n
    else n.(nodeId := -1, pins := seq(|n.pins|, i requires 0 <= i < |n.pins| => n.pins[i].(pinId := -1)))
  }

  /** `addNode` as evidently intended: the node's id and pin ids are cleared
      to "no id" before it joins the list, so the scans behind `nextId()`
      cannot cache it under an id it is about to lose. */
  function AddNodeUnnumbered(g: Graph, n: Node): (r: Answer)
    ensures r.yes <==> g.GraphImpl? && n.NodeAdapter? && OnAdd(n)
    ensures !r.yes ==> r.graph == g
  {
    AddNode(g, Unnumbered(n))
  }

  /** Appending a node keeps every key live. */
  lemma AttachKeysLive(g: Graph, n: LiveNode)
    requires g.GraphImpl? && KeysLive(g)
    ensures KeysLive(Attach(g, n))
  {
    IdsAppend(g.nodes, n.(attached := true));
  }

  /** A step that caches only met ids and changes no id keeps every key live. */
  lemma KeysMetKeepsLive(g: Graph, h: Graph)
    requires g.GraphImpl? && h.GraphImpl? && KeysLive(g) && KeysMet(g, h)
    requires NodeIds(h.nodes) == NodeIds(g.nodes) && PinIds(h.nodes) == PinIds(g.nodes)
    ensures KeysLive(h)
  {
  }

  /** `nextId` keeps every key live. */
  lemma NextIdKeysLive(g: Graph)
    requires g.GraphImpl? && KeysLive(g)
    ensures KeysLive(NextId(g).graph)
  {
    NextIdKeysMet(g);
    RestampedKeepsIds(g.nodes, NextId(g).graph.nodes);
    KeysMetKeepsLive(g, NextId(g).graph);
  }

  /** Numbering a node that had no id keeps every key live. */
  lemma SetNodeIdKeysLive(g: Graph, k: nat, id: int)
    requires g.GraphImpl? && k < |g.nodes| && KeysLive(g) && g.nodes[k].nodeId < 0
    ensures KeysLive(SetNodeId(g, k, id))
  {
    var g' := SetNodeId(g, k, id);
    assert forall i :: 0 <= i < |g.nodes| ==> g'.nodes[i].pins == g.nodes[i].pins;
    assert PinIds(g'.nodes) == PinIds(g.nodes);
    forall key | key in g.nodeIdCache && key >= 0 ensures key in NodeIds(g'.nodes) {
      var i :| 0 <= i < |g.nodes| && g.nodes[i].nodeId == key;
      assert g'.nodes[i].nodeId == key;
    }
    assert g'.nodes[k].nodeId == id;
  }

  /** Numbering a pin that had no id keeps every key live. */
  lemma SetPinIdKeysLive(g: Graph, k: nat, j: nat, id: int)
    requires g.GraphImpl? && k < |g.nodes| && j < |g.nodes[k].pins| && KeysLive(g)
    requires g.nodes[k].pins[j].pinId < 0
    ensures KeysLive(SetPinId(g, k, j, id))
  {
    var g' := SetPinId(g, k, j, id);
    assert forall i :: 0 <= i < |g.nodes| ==> g'.nodes[i].nodeId == g.nodes[i].nodeId;
    assert NodeIds(g'.nodes) == NodeIds(g.nodes);
    forall key | key in PinIds(g.nodes) && key >= 0 ensures key in PinIds(g'.nodes) {
      var i, x :| 0 <= i < |g.nodes| && 0 <= x < |g.nodes[i].pins| && g.nodes[i].pins[x].pinId == key;
      assert g'.nodes[i].pins[x].pinId == key;
    }
    assert g'.nodes[k].pins[j].pinId == id;
  }

  /** The pin loop over pins that had no id keeps every key live. */
  lemma {:induction false} AssignPinIdsKeysLive(g: Graph, k: nat, j: nat)
    requires g.GraphImpl? && k < |g.nodes| && j <= |g.nodes[k].pins| && KeysLive(g)
    requires forall i :: j <= i < |g.nodes[k].pins| ==> g.nodes[k].pins[i].pinId < 0
    ensures KeysLive(AssignPinIds(g, k, j))
    decreases |g.nodes[k].pins| - j
  {
    if j < |g.nodes[k].pins| {
      var a := NextId(g);
      AssignPinIdsUnfold(g, k, j);
      NextIdKeysLive(g);
      assert Restamped(g.nodes[k], a.graph.nodes[k]);
      SetPinIdKeysLive(a.graph, k, j, a.id);
      AssignPinIdsKeysLive(SetPinId(a.graph, k, j, a.id), k, j + 1);
    }
  }

  /** The corrected `addNode` leaves no stale entry behind. */
  lemma AddNodeUnnumberedKeysLive(g: Graph, n: Node)
    requires g.GraphImpl? && KeysLive(g)
    ensures KeysLive(AddNodeUnnumbered(g, n).graph)
  {
    var m := Unnumbered(n);
    if m.NodeAdapter? && OnAdd(m) {
      var k := |g.nodes|;
      var g1 := Attach(g, m);
      var a := NextId(g1);
      AttachKeysLive(g, m);
      NextIdKeysLive(g1);
      assert Restamped(g1.nodes[k], a.graph.nodes[k]);
      assert m.nodeId in CarriedIds(m);
      SetNodeIdKeysLive(a.graph, k, a.id);
      assert forall i :: 0 <= i < |m.pins| ==> m.pins[i].pinId in CarriedIds(m);
      AssignPinIdsKeysLive(SetNodeId(a.graph, k, a.id), k, 0);
    }
  }

  /** The corrected `addNode` keeps the caches right and free of stale
      entries, so `findNode` afterwards answers only nodes carrying the id it
      is asked for. */
  lemma AddNodeUnnumberedFindsOwnId(g: Graph, n: Node, id: int)
    requires g.GraphImpl? && Coherent(g) && KeysLive(g) && IdsDistinct(g.nodes)
    requires n.NodeAdapter? ==> (forall i :: 0 <= i < |g.nodes| ==> g.nodes[i].oid != n.oid)
    requires n.NodeAdapter? ==> NodeCoherent(n) && n.pinIdCache == map[]
    ensures var r := AddNodeUnnumbered(g, n).graph;
      Coherent(r) && KeysLive(r) && (FindNode(r, id).node.EmptyNode? || FindNode(r, id).node.NodeId() == id)
  {
    var m := Unnumbered(n);
    AddNodeUnnumberedKeysLive(g, n);
    if m.NodeAdapter? && OnAdd(m) {
      assert NodeCoherent(m);
      forall x | x in CarriedIds(m) ensures x !in NodeIds(g.nodes) && x !in PinIds(g.nodes) {
        assert x == -1;
      }
      AddNodeKeepsCoherent(g, m);
    }
    FindNodeAnswersOwnId(AddNodeUnnumbered(g, n).graph, id);
  }

  /** As written, `addNode` of a fresh `NodeAdapter` (node id 0 by default) to
      a fresh graph: `nextId()` meets the new node carrying 0 and caches it
      under 0, then the node gets id 1 and the entry under 0 stays. `findNode(0)`
      then answers the node whose id is 1. */
  lemma AddNodeLeavesStaleKey()
    ensures var r := AddNode(NewGraph(), NewNode(0, 0, DefaultHooks, "")).graph;
      && r.GraphImpl? && |r.nodes| == 1 && r.nodes[0].nodeId == 1
      && 0 in r.nodeIdCache && 0 !in NodeIds(r.nodes) && !KeysLive(r)
      && FindNode(r, 0).node == r.nodes[0] && FindNode(r, 0).node.NodeId() == 1
  {
    var n := NewNode(0, 0, DefaultHooks, "");
    var g1 := Attach(NewGraph(), n);
    var u0 := IsIdUsed(g1, 0);
    assert u0.yes && 0 in u0.graph.nodeIdCache;
    var g' := u0.graph.(hint := 1);
    var u1 := IsIdUsed(g', 1);
    assert 1 !in g'.activeIds && 1 !in g'.nodeIdCache && g'.pinIdCache == map[] && g'.pinNodeCache == map[];
    var g2 := NodeIdStep(g', 0);
    assert ScanIds(g', 1, 0) == ScanPinIds(g2, 1, 0, 0) == ScanIds(g2, 1, 1) == Answer(g2, false);
    assert !u1.yes && 0 in u1.graph.nodeIdCache;
    NextIdUnfold(g1);
    NextIdUnfold(g');
    var a := NextId(g1);
    assert a == Fresh(u1.graph, 1);
    var r := AddNode(NewGraph(), n).graph;
    assert r == SetNodeId(a.graph, 0, 1);
    assert NodeIds(r.nodes) == {1};
  }
}
