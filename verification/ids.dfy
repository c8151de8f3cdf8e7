/** Ids: the single id namespace `GraphImpl` hands out to nodes and pins.
    `isIdUsed` treats an id as taken when it is remembered as active, is a key
    of any of the three caches, or is carried by a node or a pin in the list;
    `nextId` walks its hint upwards to the first id that is not taken. */
module Ids {
  import opened Base
  import opened Pins
  import opened Nodes
  import opened Graphs

  /** Every id `isIdUsed` would call taken. */
  ghost function Used(g: Graph): set<int>
    requires g.GraphImpl?
  {
    g.activeIds + g.nodeIdCache.Keys + g.pinIdCache.Keys + g.pinNodeCache.Keys + NodeIds(g.nodes) + PinIds(g.nodes)
  }

  /** `b` is the list `a` after the `isIdUsed` loops: restamped, with every
      node's own caches untouched. */
  predicate StampedOnly(a: seq<LiveNode>, b: seq<LiveNode>)
  {
    && NodesRestamped(a, b)
    && forall i :: 0 <= i < |a| ==> b[i].pinIdCache == a[i].pinIdCache && b[i].pinLabelCache == a[i].pinLabelCache
  }

  /** Some pin of `n` from index `j` on carries `id`. */
  ghost predicate PinIdFrom(n: LiveNode, id: int, j: nat)
  {
    exists i :: j <= i < |n.pins| && n.pins[i].pinId == id
  }

  /** Some node from position `k` on, or one of its pins, carries `id`. */
  ghost predicate IdFrom(nodes: seq<LiveNode>, id: int, k: nat)
  {
    exists i :: k <= i < |nodes| && (nodes[i].nodeId == id || PinIdFrom(nodes[i], id, 0))
  }

  /** The graph after the `isIdUsed` loop cached the node at position `k` under its id. */
  function NodeIdStep(g: Graph, k: nat): (g': Graph)
    requires g.GraphImpl? && k < |g.nodes|
    ensures g'.GraphImpl? && g'.nodes == g.nodes
  {
    g.(nodeIdCache := g.nodeIdCache[g.nodes[k].nodeId := g.nodes[k].oid])
  }

  /** The graph after the `isIdUsed` loop stamped pin `j` of the node at
      position `k` with the node's id and cached it under its own id. */
  function PinIdStep(g: Graph, k: nat, j: nat): (g': Graph)
    requires g.GraphImpl? && k < |g.nodes| && j < |g.nodes[k].pins|
    ensures g'.GraphImpl? && |g'.nodes| == |g.nodes| && |g'.nodes[k].pins| == |g.nodes[k].pins|
    ensures g'.nodes[k].pins[j].pinId == g.nodes[k].pins[j].pinId
    ensures StampedOnly(g.nodes, g'.nodes)
  {
    var n := g.nodes[k];
    var m := StampAt(n, j);
    assert Restamped(n, m);
    g.(nodes := g.nodes[k := m], pinIdCache := g.pinIdCache[n.pins[j].pinId := PinAt(n.oid, j)])
  }

  /** The graph after `isIdUsed` found `id` taken: it is remembered as active. */
  function MarkActive(g: Graph, id: int): (g': Graph)
    requires g.GraphImpl?
    ensures g'.GraphImpl? && g'.activeIds == g.activeIds + {id}
  {
    g.(activeIds := g.activeIds + {id})
  }

  /** The outer loop of `isIdUsed` from position `k` on: cache each node under
      its id and stop if it carries `id`, otherwise walk its pins. */
  function ScanIds(g: Graph, id: int, k: nat): (r: Answer)
    requires g.GraphImpl? && k <= |g.nodes|
    ensures r.graph.GraphImpl?
    ensures r.graph == g.(nodes := r.graph.nodes, nodeIdCache := r.graph.nodeIdCache,
                          pinIdCache := r.graph.pinIdCache, activeIds := r.graph.activeIds)
    ensures StampedOnly(g.nodes, r.graph.nodes)
    decreases |g.nodes| - k, 1, 0
  {
    if k == |g.nodes| then Answer(g, false)
    else
      var g' := NodeIdStep(g, k);
      if g.nodes[k].nodeId == id then Answer(MarkActive(g', id), true)
      else
        var r := ScanPinIds(g', id, k, 0);
        r
  }

  /** The inner loop of `isIdUsed` over the pins of the node at position `k`
      from index `j` on: stamp and cache each pin and stop if it carries `id`;
      after the last pin, go on with the next node. */
  function ScanPinIds(g: Graph, id: int, k: nat, j: nat): (r: Answer)
    requires g.GraphImpl? && k < |g.nodes| && j <= |g.nodes[k].pins|
    ensures r.graph.GraphImpl?
    ensures r.graph == g.(nodes := r.graph.nodes, nodeIdCache := r.graph.nodeIdCache,
                          pinIdCache := r.graph.pinIdCache, activeIds := r.graph.activeIds)
    ensures StampedOnly(g.nodes, r.graph.nodes)
    decreases |g.nodes| - k, 0, |g.nodes[k].pins| - j
  {
    if j == |g.nodes[k].pins| then ScanIds(g, id, k + 1)
    else
      var g' := PinIdStep(g, k, j);
      if g.nodes[k].pins[j].pinId == id then Answer(MarkActive(g', id), true)
      else
        var r := ScanPinIds(g', id, k, j + 1);
        StampedOnlyTrans(g.nodes, g'.nodes, r.graph.nodes);
        r
  }

  /** The `isIdUsed` loops compose. */
  lemma StampedOnlyTrans(a: seq<LiveNode>, b: seq<LiveNode>, c: seq<LiveNode>)
    requires StampedOnly(a, b) && StampedOnly(b, c)
    ensures StampedOnly(a, c)
  {
    forall i | 0 <= i < |a| ensures Restamped(a[i], c[i]) {
      RestampedTrans(a[i], b[i], c[i]);
    }
  }

  /** Restamping changes no id, so it changes no answer. */
  lemma IdFromRestamped(a: seq<LiveNode>, b: seq<LiveNode>, id: int, k: nat)
    requires NodesRestamped(a, b)
    ensures IdFrom(a, id, k) <==> IdFrom(b, id, k)
    ensures forall i, j :: 0 <= i < |a| ==> (PinIdFrom(a[i], id, j) <==> PinIdFrom(b[i], id, j))
  {
    forall i, j | 0 <= i < |a| ensures PinIdFrom(a[i], id, j) <==> PinIdFrom(b[i], id, j) {
      assert forall x :: 0 <= x < |a[i].pins| ==> a[i].pins[x].pinId == b[i].pins[x].pinId;
    }
    assert forall i :: 0 <= i < |a| ==> a[i].nodeId == b[i].nodeId;
  }

  /** The outer loop of `isIdUsed` answers whether some node from `k` on, or
      one of its pins, carries the id. */
  lemma {:induction false} ScanIdsAnswer(g: Graph, id: int, k: nat)
    requires g.GraphImpl? && k <= |g.nodes|
    ensures ScanIds(g, id, k).yes <==> IdFrom(g.nodes, id, k)
    decreases |g.nodes| - k, 1, 0
  {
    if k < |g.nodes| && g.nodes[k].nodeId != id {
      var g' := NodeIdStep(g, k);
      ScanPinIdsAnswer(g', id, k, 0);
      if IdFrom(g.nodes, id, k) && !PinIdFrom(g.nodes[k], id, 0) {
        var i :| k <= i < |g.nodes| && (g.nodes[i].nodeId == id || PinIdFrom(g.nodes[i], id, 0));
        assert i != k;
      }
    }
  }

  /** The inner loop of `isIdUsed` answers whether a pin of node `k` from `j`
      on, or some later node or pin, carries the id. */
  lemma {:induction false} ScanPinIdsAnswer(g: Graph, id: int, k: nat, j: nat)
    requires g.GraphImpl? && k < |g.nodes| && j <= |g.nodes[k].pins|
    ensures ScanPinIds(g, id, k, j).yes <==> PinIdFrom(g.nodes[k], id, j) || IdFrom(g.nodes, id, k + 1)
    decreases |g.nodes| - k, 0, |g.nodes[k].pins| - j
  {
    if j == |g.nodes[k].pins| {
      ScanIdsAnswer(g, id, k + 1);
    } else if g.nodes[k].pins[j].pinId != id {
      var g' := PinIdStep(g, k, j);
      ScanPinIdsAnswer(g', id, k, j + 1);
      IdFromRestamped(g.nodes, g'.nodes, id, k + 1);
      if PinIdFrom(g.nodes[k], id, j) {
        var i :| j <= i < |g.nodes[k].pins| && g.nodes[k].pins[i].pinId == id;
        assert i != j;
        assert PinIdFrom(g.nodes[k], id, j + 1);
      }
    }
  }

  /** A cache step of the `isIdUsed` loops keeps the taken ids and a coherent
      graph coherent. */
  lemma NodeIdStepKeeps(g: Graph, k: nat, off: set<int>)
    requires g.GraphImpl? && k < |g.nodes|
    ensures Used(NodeIdStep(g, k)) == Used(g)
    ensures CoherentOff(g, off) ==> CoherentOff(NodeIdStep(g, k), off)
  {
    assert g.nodes[k].nodeId in NodeIds(g.nodes);
    if CoherentOff(g, off) {
      IndexOfOidAt(g.nodes, k);
    }
  }

  /** A stamp-and-cache step of the `isIdUsed` pin loop keeps the taken ids and
      a coherent graph coherent. */
  lemma PinIdStepKeeps(g: Graph, k: nat, j: nat, off: set<int>)
    requires g.GraphImpl? && k < |g.nodes| && j < |g.nodes[k].pins|
    ensures Used(PinIdStep(g, k, j)) == Used(g)
    ensures CoherentOff(g, off) ==> CoherentOff(PinIdStep(g, k, j), off)
  {
    var n := g.nodes[k];
    var g1 := g.(nodes := g.nodes[k := StampAt(n, j)]);
    var g' := PinIdStep(g, k, j);
    assert NodesRestamped(g.nodes, g1.nodes);
    RestampedKeepsIds(g.nodes, g1.nodes);
    assert n.pins[j].pinId in PinIds(g.nodes);
    assert g' == g1.(pinIdCache := g1.pinIdCache[g1.nodes[k].pins[j].pinId := PinAt(g1.nodes[k].oid, j)]);
    if CoherentOff(g, off) {
      RestampKeepsCoherent(g, g1.nodes, off);
      PinCacheWriteKeepsCoherent(g1, k, j, off);
    }
  }

  /** The outer loop of `isIdUsed` keeps the taken ids. */
  lemma {:induction false} ScanIdsUsed(g: Graph, id: int, k: nat)
    requires g.GraphImpl? && k <= |g.nodes|
    ensures Used(ScanIds(g, id, k).graph) == Used(g)
    decreases |g.nodes| - k, 1, 0
  {
    if k < |g.nodes| {
      NodeIdStepKeeps(g, k, {});
      if g.nodes[k].nodeId == id {
        assert id in NodeIds(g.nodes);
      } else {
        ScanPinIdsUsed(NodeIdStep(g, k), id, k, 0);
      }
    }
  }

  /** The inner loop of `isIdUsed` keeps the taken ids. */
  lemma {:induction false} ScanPinIdsUsed(g: Graph, id: int, k: nat, j: nat)
    requires g.GraphImpl? && k < |g.nodes| && j <= |g.nodes[k].pins|
    ensures Used(ScanPinIds(g, id, k, j).graph) == Used(g)
    decreases |g.nodes| - k, 0, |g.nodes[k].pins| - j
  {
    if j == |g.nodes[k].pins| {
      ScanIdsUsed(g, id, k + 1);
    } else {
      var g' := PinIdStep(g, k, j);
      PinIdStepKeeps(g, k, j, {});
      ScanPinIdsUnfold(g, id, k, j);
      if g.nodes[k].pins[j].pinId == id {
        assert id in PinIds(g.nodes);
      } else {
        ScanPinIdsUsed(g', id, k, j + 1);
      }
    }
  }

  /** The outer loop of `isIdUsed` keeps a coherent graph coherent. */
  lemma {:induction false} ScanIdsCoherent(g: Graph, id: int, k: nat, off: set<int>)
    requires g.GraphImpl? && k <= |g.nodes|
    ensures CoherentOff(g, off) ==> CoherentOff(ScanIds(g, id, k).graph, off)
    decreases |g.nodes| - k, 1, 0
  {
    if k < |g.nodes| && CoherentOff(g, off) {
      NodeIdStepKeeps(g, k, off);
      if g.nodes[k].nodeId != id {
        ScanPinIdsCoherent(NodeIdStep(g, k), id, k, 0, off);
      }
    }
  }

  /** The inner loop of `isIdUsed` keeps a coherent graph coherent. */
  lemma {:induction false} ScanPinIdsCoherent(g: Graph, id: int, k: nat, j: nat, off: set<int>)
    requires g.GraphImpl? && k < |g.nodes| && j <= |g.nodes[k].pins|
    ensures CoherentOff(g, off) ==> CoherentOff(ScanPinIds(g, id, k, j).graph, off)
    decreases |g.nodes| - k, 0, |g.nodes[k].pins| - j
  {
    if CoherentOff(g, off) {
      if j == |g.nodes[k].pins| {
        ScanIdsCoherent(g, id, k + 1, off);
      } else {
        PinIdStepKeeps(g, k, j, off);
        ScanPinIdsUnfold(g, id, k, j);
        if g.nodes[k].pins[j].pinId != id {
          ScanPinIdsCoherent(PinIdStep(g, k, j), id, k, j + 1, off);
        }
      }
    }
  }

  /** One turn of the `isIdUsed` pin loop. */
  lemma ScanPinIdsUnfold(g: Graph, id: int, k: nat, j: nat)
    requires g.GraphImpl? && k < |g.nodes| && j < |g.nodes[k].pins|
    ensures g.nodes[k].pins[j].pinId == id ==> ScanPinIds(g, id, k, j).graph == MarkActive(PinIdStep(g, k, j), id)
    ensures g.nodes[k].pins[j].pinId != id ==> ScanPinIds(g, id, k, j) == ScanPinIds(PinIdStep(g, k, j), id, k, j + 1)
  {
  }

  /** A node or pin id is taken exactly when some node from the start carries it. */
  lemma IdFromStart(nodes: seq<LiveNode>, id: int)
    ensures IdFrom(nodes, id, 0) <==> id in NodeIds(nodes) + PinIds(nodes)
  {
    if id in PinIds(nodes) {
      var k, j :| 0 <= k < |nodes| && 0 <= j < |nodes[k].pins| && nodes[k].pins[j].pinId == id;
      assert PinIdFrom(nodes[k], id, 0);
    }
    if id in NodeIds(nodes) {
      var k :| 0 <= k < |nodes| && nodes[k].nodeId == id;
    }
  }

  /** `isIdUsed(id)`: true when the id is remembered as active; true, and
      remembered, when it is a key of any cache; otherwise whether the scan
      meets a node or pin carrying it (remembered if so). What the answer
      means is stated by `IsIdUsedAnswers`. */
  function IsIdUsed(g: Graph, id: int): (r: Answer)
    requires g.GraphImpl?
    ensures r.graph.GraphImpl?
    ensures r.graph == g.(nodes := r.graph.nodes, nodeIdCache := r.graph.nodeIdCache,
                          pinIdCache := r.graph.pinIdCache, activeIds := r.graph.activeIds)
    ensures StampedOnly(g.nodes, r.graph.nodes)
  {
    if id in g.activeIds then Answer(g, true)
    else if id in g.pinIdCache || id in g.nodeIdCache || id in g.pinNodeCache then
      Answer(MarkActive(g, id), true)
    else
      ScanIds(g, id, 0)
  }

  /** `isIdUsed` answers whether the id is taken, and takes no id and frees none. */
  lemma IsIdUsedAnswers(g: Graph, id: int)
    requires g.GraphImpl?
    ensures var r := IsIdUsed(g, id);
            && (r.yes <==> id in Used(g))
            && Used(r.graph) == Used(g)
  {
    if id !in g.activeIds && id !in g.pinIdCache && id !in g.nodeIdCache && id !in g.pinNodeCache {
      ScanIdsAnswer(g, id, 0);
      IdFromStart(g.nodes, id);
      ScanIdsUsed(g, id, 0);
    }
  }

  /** `isIdUsed` keeps the caches as right as they were. */
  lemma IsIdUsedCoherent(g: Graph, id: int, off: set<int>)
    requires g.GraphImpl?
    ensures CoherentOff(g, off) ==> CoherentOff(IsIdUsed(g, id).graph, off)
  {
    if id !in g.activeIds && id !in g.pinIdCache && id !in g.nodeIdCache && id !in g.pinNodeCache {
      ScanIdsCoherent(g, id, 0, off);
    }
  }

  /** The taken ids at or above the hint: what `nextId` may still have to skip. */
  ghost function TakenAbove(g: Graph): set<int>
    requires g.GraphImpl?
  {
    set x | x in Used(g) && x >= g.hint
  }

  /** Skipping a taken hint leaves one id fewer to skip. */
  lemma SkipShrinks(g: Graph, g': Graph)
    requires g.GraphImpl? && g'.GraphImpl? && Used(g') == Used(g)
    requires g.hint in Used(g) && g'.hint == g.hint + 1
    ensures |TakenAbove(g')| < |TakenAbove(g)|
  {
    assert TakenAbove(g') == TakenAbove(g) - {g.hint};
  }

  /** A graph after `nextId()`, and the id it answered. */
  datatype Fresh = Fresh(graph: Graph, id: int)

  /** `nextId()`: advance the hint past every taken id and answer it; the hint
      stays at the answer. `IGraph.Empty` answers -1. What the answer is, is
      stated by `NextIdSmallestFree`. */
  function NextId(g: Graph): (r: Fresh)
    ensures g.EmptyGraph? ==> r == Fresh(g, -1)
    ensures g.GraphImpl? ==>
      && r.graph.GraphImpl?
      && r.graph == g.(nodes := r.graph.nodes, nodeIdCache := r.graph.nodeIdCache,
                       pinIdCache := r.graph.pinIdCache, activeIds := r.graph.activeIds, hint := r.id)
      && StampedOnly(g.nodes, r.graph.nodes)
    decreases if g.GraphImpl? then |TakenAbove(g)| else 0
  {
    if g.EmptyGraph? then Fresh(g, -1)
    else
      var u := IsIdUsed(g, g.hint);
      if !u.yes then Fresh(u.graph, g.hint)
      else
        var g' := u.graph.(hint := g.hint + 1);
        IsIdUsedAnswers(g, g.hint);
        assert Used(g') == Used(g);
        SkipShrinks(g, g');
        var r := NextId(g');
        StampedOnlyTrans(g.nodes, g'.nodes, r.graph.nodes);
        r
  }

  /** `nextId` answers the smallest id at or above the hint that is not taken,
      never moves the hint down, and takes no id and frees none. */
  lemma {:induction false} NextIdSmallestFree(g: Graph)
    requires g.GraphImpl?
    ensures var r := NextId(g);
      && r.graph.GraphImpl? && Used(r.graph) == Used(g)
      && g.hint <= r.id && r.id !in Used(g)
      && (forall x :: g.hint <= x < r.id ==> x in Used(g))
    decreases |TakenAbove(g)|
  {
    var u := IsIdUsed(g, g.hint);
    IsIdUsedAnswers(g, g.hint);
    NextIdUnfold(g);
    if u.yes {
      var g' := u.graph.(hint := g.hint + 1);
      assert Used(g') == Used(g);
      SkipShrinks(g, g');
      NextIdSmallestFree(g');
      var r := NextId(g');
      forall x | g.hint <= x < r.id ensures x in Used(g) {
        if x > g.hint {
          assert x in Used(g');
        }
      }
    }
  }

  /** One turn of the `nextId` loop. */
  lemma NextIdUnfold(g: Graph)
    requires g.GraphImpl?
    ensures var u := IsIdUsed(g, g.hint);
            && (u.yes ==> NextId(g) == NextId(u.graph.(hint := g.hint + 1)))
            && (!u.yes ==> NextId(g) == Fresh(u.graph, g.hint))
  {
  }

  /** `nextId` keeps the caches as right as they were. */
  lemma {:induction false} NextIdCoherent(g: Graph, off: set<int>)
    requires g.GraphImpl?
    ensures CoherentOff(g, off) ==> CoherentOff(NextId(g).graph, off)
    decreases |TakenAbove(g)|
  {
    var u := IsIdUsed(g, g.hint);
    IsIdUsedAnswers(g, g.hint);
    IsIdUsedCoherent(g, g.hint, off);
    NextIdUnfold(g);
    if u.yes && CoherentOff(g, off) {
      var g' := u.graph.(hint := g.hint + 1);
      assert Used(g') == Used(g);
      SkipShrinks(g, g');
      assert CoherentOff(g', off);
      NextIdCoherent(g', off);
    }
  }

  /** Asking again without adding anything answers the same id: the hint
      already sits on a free id. */
  lemma NextIdStable(g: Graph)
    ensures NextId(NextId(g).graph).id == NextId(g).id
  {
    if g.GraphImpl? {
      NextIdSmallestFree(g);
      var r := NextId(g);
      IsIdUsedAnswers(r.graph, r.id);
      NextIdUnfold(r.graph);
    }
  }

  /** What the graph remembers as taken: the active ids and every cache key. */
  ghost function Remembered(g: Graph): set<int>
    requires g.GraphImpl?
  {
    g.activeIds + g.nodeIdCache.Keys + g.pinIdCache.Keys + g.pinNodeCache.Keys
  }

  /** `h` remembers every id `g` remembers, cache by cache. */
  ghost predicate Grows(g: Graph, h: Graph)
    requires g.GraphImpl? && h.GraphImpl?
  {
    && g.activeIds <= h.activeIds && g.nodeIdCache.Keys <= h.nodeIdCache.Keys
    && g.pinIdCache.Keys <= h.pinIdCache.Keys && g.pinNodeCache.Keys <= h.pinNodeCache.Keys
  }

  /** The outer loop of `isIdUsed` forgets nothing, and when it answers false
      it has cached every node from `k` on and every pin of those nodes. */
  lemma {:induction false} ScanIdsRemembers(g: Graph, id: int, k: nat)
    requires g.GraphImpl? && k <= |g.nodes|
    ensures var r := ScanIds(g, id, k);
      && Grows(g, r.graph)
      && (!r.yes ==> forall i :: k <= i < |g.nodes| ==> g.nodes[i].nodeId in r.graph.nodeIdCache)
      && (!r.yes ==> forall i, j :: k <= i < |g.nodes| && 0 <= j < |g.nodes[i].pins| ==>
                       g.nodes[i].pins[j].pinId in r.graph.pinIdCache)
    decreases |g.nodes| - k, 1, 0
  {
    if k < |g.nodes| && g.nodes[k].nodeId != id {
      var g' := NodeIdStep(g, k);
      ScanPinIdsRemembers(g', id, k, 0);
    }
  }

  /** The inner loop of `isIdUsed` forgets nothing, and when it answers false
      it has cached the pins of node `k` from `j` on and every later node and pin. */
  lemma {:induction false} ScanPinIdsRemembers(g: Graph, id: int, k: nat, j: nat)
    requires g.GraphImpl? && k < |g.nodes| && j <= |g.nodes[k].pins|
    ensures var r := ScanPinIds(g, id, k, j);
      && Grows(g, r.graph)
      && (!r.yes ==> forall i :: j <= i < |g.nodes[k].pins| ==> g.nodes[k].pins[i].pinId in r.graph.pinIdCache)
      && (!r.yes ==> forall i :: k < i < |g.nodes| ==> g.nodes[i].nodeId in r.graph.nodeIdCache)
      && (!r.yes ==> forall i, x :: k < i < |g.nodes| && 0 <= x < |g.nodes[i].pins| ==>
                       g.nodes[i].pins[x].pinId in r.graph.pinIdCache)
    decreases |g.nodes| - k, 0, |g.nodes[k].pins| - j
  {
    if j == |g.nodes[k].pins| {
      ScanIdsRemembers(g, id, k + 1);
    } else {
      var g' := PinIdStep(g, k, j);
      ScanPinIdsUnfold(g, id, k, j);
      if g.nodes[k].pins[j].pinId != id {
        ScanPinIdsRemembers(g', id, k, j + 1);
        var r := ScanPinIds(g', id, k, j + 1);
        assert forall i :: k < i < |g.nodes| ==> g'.nodes[i] == g.nodes[i];
        assert forall i :: 0 <= i < |g.nodes[k].pins| ==> g'.nodes[k].pins[i].pinId == g.nodes[k].pins[i].pinId;
        if !r.yes {
          assert g.nodes[k].pins[j].pinId in g'.pinIdCache;
        }
      }
    }
  }

  /** `nextId` forgets no taken id, and afterwards every id a node or pin
      carries is a key of the matching cache: its last scan visited them all. */
  lemma {:induction false} NextIdRemembers(g: Graph)
    requires g.GraphImpl?
    ensures var r := NextId(g);
      && r.graph.GraphImpl? && Grows(g, r.graph)
      && NodeIds(g.nodes) <= r.graph.nodeIdCache.Keys && PinIds(g.nodes) <= r.graph.pinIdCache.Keys
    decreases |TakenAbove(g)|
  {
    var u := IsIdUsed(g, g.hint);
    IsIdUsedAnswers(g, g.hint);
    NextIdUnfold(g);
    if u.yes {
      var g' := u.graph.(hint := g.hint + 1);
      assert Used(g') == Used(g);
      SkipShrinks(g, g');
      NextIdRemembers(g');
      RestampedKeepsIds(g.nodes, g'.nodes);
      if g.hint !in g.activeIds && g.hint !in g.pinIdCache && g.hint !in g.nodeIdCache && g.hint !in g.pinNodeCache {
        ScanIdsRemembers(g, g.hint, 0);
      }
    } else {
      ScanIdsRemembers(g, g.hint, 0);
      forall x | x in NodeIds(g.nodes) ensures x in u.graph.nodeIdCache {
        var i :| 0 <= i < |g.nodes| && g.nodes[i].nodeId == x;
      }
      forall x | x in PinIds(g.nodes) ensures x in u.graph.pinIdCache {
        var i, j :| 0 <= i < |g.nodes| && 0 <= j < |g.nodes[i].pins| && g.nodes[i].pins[j].pinId == x;
      }
    }
  }

  /** Every cache key of `h` that `g` did not have is an id some node or pin
      of `g` carries: the `isIdUsed` loops cache only what they meet. */
  ghost predicate KeysMet(g: Graph, h: Graph)
    requires g.GraphImpl? && h.GraphImpl?
  {
    && h.nodeIdCache.Keys <= g.nodeIdCache.Keys + NodeIds(g.nodes)
    && h.pinIdCache.Keys <= g.pinIdCache.Keys + PinIds(g.nodes)
    && h.pinNodeCache.Keys <= g.pinNodeCache.Keys
  }

  /** The outer loop of `isIdUsed` caches only ids it meets. */
  lemma {:induction false} ScanIdsKeysMet(g: Graph, id: int, k: nat)
    requires g.GraphImpl? && k <= |g.nodes|
    ensures KeysMet(g, ScanIds(g, id, k).graph)
    decreases |g.nodes| - k, 1, 0
  {
    if k < |g.nodes| {
      assert g.nodes[k].nodeId in NodeIds(g.nodes);
      if g.nodes[k].nodeId != id {
        ScanPinIdsKeysMet(NodeIdStep(g, k), id, k, 0);
      }
    }
  }

  /** The inner loop of `isIdUsed` caches only ids it meets. */
  lemma {:induction false} ScanPinIdsKeysMet(g: Graph, id: int, k: nat, j: nat)
    requires g.GraphImpl? && k < |g.nodes| && j <= |g.nodes[k].pins|
    ensures KeysMet(g, ScanPinIds(g, id, k, j).graph)
    decreases |g.nodes| - k, 0, |g.nodes[k].pins| - j
  {
    if j == |g.nodes[k].pins| {
      ScanIdsKeysMet(g, id, k + 1);
    } else {
      var g' := PinIdStep(g, k, j);
      ScanPinIdsUnfold(g, id, k, j);
      PinIdStepKeysMet(g, k, j);
      if g.nodes[k].pins[j].pinId != id {
        ScanPinIdsKeysMet(g', id, k, j + 1);
        KeysMetTrans(g, g', ScanPinIds(g', id, k, j + 1).graph);
      }
    }
  }

  /** A stamp-and-cache step caches an id it meets and changes no id. */
  lemma PinIdStepKeysMet(g: Graph, k: nat, j: nat)
    requires g.GraphImpl? && k < |g.nodes| && j < |g.nodes[k].pins|
    ensures var g' := PinIdStep(g, k, j);
      KeysMet(g, g') && NodeIds(g'.nodes) == NodeIds(g.nodes) && PinIds(g'.nodes) == PinIds(g.nodes)
  {
    assert g.nodes[k].pins[j].pinId in PinIds(g.nodes);
    RestampedKeepsIds(g.nodes, PinIdStep(g, k, j).nodes);
  }

  /** Caching only met ids composes over steps that change no id. */
  lemma KeysMetTrans(g: Graph, g': Graph, h: Graph)
    requires g.GraphImpl? && g'.GraphImpl? && h.GraphImpl?
    requires KeysMet(g, g') && KeysMet(g', h)
    requires NodeIds(g'.nodes) == NodeIds(g.nodes) && PinIds(g'.nodes) == PinIds(g.nodes)
    ensures KeysMet(g, h)
  {
  }

  /** `nextId` caches only ids some node or pin carries. */
  lemma {:induction false} NextIdKeysMet(g: Graph)
    requires g.GraphImpl?
    ensures NextId(g).graph.GraphImpl? && KeysMet(g, NextId(g).graph)
    decreases |TakenAbove(g)|
  {
    var u := IsIdUsed(g, g.hint);
    IsIdUsedAnswers(g, g.hint);
    NextIdUnfold(g);
    if g.hint !in g.activeIds && g.hint !in g.pinIdCache && g.hint !in g.nodeIdCache && g.hint !in g.pinNodeCache {
      ScanIdsKeysMet(g, g.hint, 0);
    }
    if u.yes {
      var g' := u.graph.(hint := g.hint + 1);
      assert Used(g') == Used(g);
      SkipShrinks(g, g');
      NextIdKeysMet(g');
      RestampedKeepsIds(g.nodes, g'.nodes);
    }
  }

  /** The id `nextId` answers is nothing the graph remembers, and not below the hint. */
  lemma NextIdNotRemembered(g: Graph)
    requires g.GraphImpl?
    ensures NextId(g).id !in Remembered(g) && NextId(g).id >= g.hint
  {
    NextIdSmallestFree(g);
  }

  /** The id `nextId` answers is carried by no node and no pin and is no key
      of any cache; it is non-negative when the hint is. */
  lemma NextIdFresh(g: Graph)
    requires g.GraphImpl?
    ensures var r := NextId(g);
            && r.id !in NodeIds(g.nodes) && r.id !in PinIds(g.nodes)
            && r.id !in g.nodeIdCache && r.id !in g.pinIdCache && r.id !in g.pinNodeCache
            && (g.hint >= 0 ==> r.id >= 0)
  {
    NextIdSmallestFree(g);
  }
}
