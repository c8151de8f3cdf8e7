/** Persistence of a graph: `serializeNBT()` writes the node list (each node
    through its own serialiser) and the centre; `deserializeNBT(tag)` replaces
    the node list with objects rebuilt from the tag and reads the centre back.
    The id hint and the four caches are neither written nor reset.
    `IGraph.Empty` writes an empty compound and ignores what it is given. */
module Persistence {
  import opened Base
  import opened Pins
  import opened Nodes
  import opened Graphs

  /** A result, or `Unknown` where the model does not say what happens. */
  datatype Outcome<T> = Unknown | Known(value: T)

  /** What a graph writes: the empty compound of `IGraph.Empty`, or the node
      records in list order and the two centre coordinates. */
  datatype GraphTag =
    | EmptyTag
    | GraphTag(nodes: seq<NodeRecord>, centerX: Float, centerY: Float)

  /** `serializeNBT()`. */
  function Write(g: Graph): (t: GraphTag)
    ensures t.EmptyTag? <==> g.EmptyGraph?
    ensures t.GraphTag? ==> |t.nodes| == |g.nodes| && t.centerX == g.centerX && t.centerY == g.centerY
    ensures t.GraphTag? ==> forall k :: 0 <= k < |g.nodes| ==> t.nodes[k].nodeId == g.nodes[k].nodeId
  {
    if g.EmptyGraph? then EmptyTag
    else GraphTag(seq(|g.nodes|, k requires 0 <= k < |g.nodes| => SerializeNode(g.nodes[k])), g.centerX, g.centerY)
  }

  /** The node objects `getDeepList("nodes")` rebuilds: record `k` read into
      `blanks[k]`, the object reflection constructed for it. */
  function ReadNodes(rs: seq<NodeRecord>, blanks: seq<LiveNode>): (ns: seq<LiveNode>)
    requires |blanks| == |rs|
    requires forall k :: 0 <= k < |blanks| ==> Unqueried(blanks[k])
    ensures |ns| == |rs|
    ensures forall k :: 0 <= k < |rs| ==> ns[k].pinIdCache == map[] && ns[k].pinLabelCache == map[]
    ensures forall k :: 0 <= k < |rs| ==> ns[k] == DeserializeNode(rs[k], blanks[k])
  {
    seq(|rs|, k requires 0 <= k < |rs| => DeserializeNode(rs[k], blanks[k]))
  }

  /** `deserializeNBT(tag)` on `g` with `blanks` the freshly constructed node
      objects, one per record. `IGraph.Empty` ignores the tag. A `GraphImpl`
      clears its list, appends the rebuilt nodes and reads the centre; its id
      hint and caches are left as they were. Reading the empty compound into
      a `GraphImpl` depends on NBT helpers that are not part of this model,
      and answers `Unknown`. */
  function Read(g: Graph, t: GraphTag, blanks: seq<LiveNode>): (r: Outcome<Graph>)
    requires t.GraphTag? ==> |blanks| == |t.nodes|
    requires forall k :: 0 <= k < |blanks| ==> Unqueried(blanks[k])
    ensures g.EmptyGraph? ==> r == Known(EmptyGraph)
    ensures r.Unknown? <==> g.GraphImpl? && t.EmptyTag?
    ensures r.Known? && g.GraphImpl? ==>
      && r.value.GraphImpl?
      && r.value.centerX == t.centerX && r.value.centerY == t.centerY
      && r.value.nodes == ReadNodes(t.nodes, blanks)
      && r.value == g.(nodes := r.value.nodes, centerX := t.centerX, centerY := t.centerY)
  {
    if g.EmptyGraph? then Known(EmptyGraph)
    else if t.EmptyTag? then Unknown
    else Known(g.(nodes := ReadNodes(t.nodes, blanks), centerX := t.centerX, centerY := t.centerY))
  }

  /** Reading back what a graph wrote restores the centre and, node by node
      in list order, each node's id, position, title and pins (links
      included). The objects, their classes, colours and attachment are the
      blanks'; the reading graph keeps its own id hint and caches. */
  lemma GraphRoundTrip(g: Graph, h: Graph, blanks: seq<LiveNode>)
    requires g.GraphImpl? && h.GraphImpl? && |blanks| == |g.nodes|
    requires forall k :: 0 <= k < |blanks| ==> Unqueried(blanks[k])
    ensures var r := Read(h, Write(g), blanks);
      && r.Known? && r.value.GraphImpl?
      && r.value.centerX == g.centerX && r.value.centerY == g.centerY
      && |r.value.nodes| == |g.nodes|
      && (forall k :: 0 <= k < |g.nodes| ==>
            var m := r.value.nodes[k];
            var n := g.nodes[k];
            && m.nodeId == n.nodeId && m.graphX == n.graphX && m.graphY == n.graphY
            && m.title == n.title && m.pins == n.pins
            && m.oid == blanks[k].oid && m.cls == blanks[k].cls && m.attached == blanks[k].attached
            && m.pinIdCache == map[] && m.pinLabelCache == map[])
      && r.value.hint == h.hint && r.value.nodeIdCache == h.nodeIdCache && r.value.pinIdCache == h.pinIdCache
      && r.value.pinNodeCache == h.pinNodeCache && r.value.activeIds == h.activeIds
  {
    var t := Write(g);
    var r := Read(h, t, blanks);
    forall k | 0 <= k < |g.nodes|
      ensures var m := r.value.nodes[k]; var n := g.nodes[k];
        && m.nodeId == n.nodeId && m.graphX == n.graphX && m.graphY == n.graphY
        && m.title == n.title && m.pins == n.pins
    {
      assert t.nodes[k] == SerializeNode(g.nodes[k]);
      NodeRoundTrip(g.nodes[k], blanks[k]);
    }
  }

  /** Writing a graph read from a tag reproduces the tag. */
  lemma TagRoundTrip(h: Graph, t: GraphTag, blanks: seq<LiveNode>)
    requires h.GraphImpl? && t.GraphTag? && |blanks| == |t.nodes|
    requires forall k :: 0 <= k < |blanks| ==> Unqueried(blanks[k])
    ensures var r := Read(h, t, blanks); r.Known? && Write(r.value) == t
  {
    var r := Read(h, t, blanks).value;
    var w := Write(r);
    forall k | 0 <= k < |t.nodes| ensures w.nodes[k] == t.nodes[k] {
      var rec := t.nodes[k];
      var n := DeserializeNode(rec, blanks[k]);
      assert r.nodes[k] == n;
      assert |n.pins| == |rec.pins|;
      forall j | 0 <= j < |rec.pins| ensures SerializePin(n.pins[j]) == rec.pins[j] {
        assert n.pins[j] == DeserializePin(rec.pins[j]);
        PinRecordRoundTrip(rec.pins[j]);
      }
      assert SerializePins(n.pins) == rec.pins;
    }
  }

  /** `IGraph.Empty` writes nothing and reading anything into it leaves it
      the sentinel. */
  lemma EmptyGraphIgnoresTags(t: GraphTag, blanks: seq<LiveNode>)
    requires t.GraphTag? ==> |blanks| == |t.nodes|
    requires forall k :: 0 <= k < |blanks| ==> Unqueried(blanks[k])
    ensures Write(EmptyGraph) == EmptyTag
    ensures Read(EmptyGraph, t, blanks) == Known(EmptyGraph)
    ensures Read(EmptyGraph, Write(EmptyGraph), blanks) == Known(EmptyGraph)
  {
  }

  /** Nodes read from a tag are attached only if their blank objects were:
      `deserializeNBT` never sets a node's `graph` back-reference, so nodes
      rebuilt from fresh objects point at `IGraph.Empty`. */
  lemma ReadNodesDetached(h: Graph, t: GraphTag, blanks: seq<LiveNode>)
    requires h.GraphImpl? && t.GraphTag? && |blanks| == |t.nodes|
    requires forall k :: 0 <= k < |blanks| ==> Unqueried(blanks[k])
    requires forall k :: 0 <= k < |blanks| ==> !blanks[k].attached
    ensures var r := Read(h, t, blanks);
      r.Known? && forall k :: 0 <= k < |r.value.nodes| ==> !r.value.nodes[k].attached
  {
  }

  // ------------------------------------------------ stale caches after a read

  /** A graph holding one node object (oid 1, id 5) whose id is cached. */
  function CachedGraph(): (g: Graph)
    ensures g.GraphImpl? && |g.nodes| == 1 && g.nodes[0].nodeId == 5 && g.nodeIdCache == map[5 := 1]
  {
    var n := NodeAdapter(1, 0, DefaultHooks, true, 5, "", MinValue, MinValue, "#ffffff", "#8c8c8c", [], map[], map[]);
    GraphImpl(MinValue, MinValue, [n], 6, map[5 := 1], map[], map[], {5})
  }

  /** The tag `CachedGraph()` writes, read back into the same graph. */
  lemma ReadKeepsStaleNodeCache()
    ensures var g := CachedGraph();
      var blank := NewNode(2, 0, DefaultHooks, "");
      var r := Read(g, Write(g), [blank]);
      && r.Known? && |r.value.nodes| == 1 && r.value.nodes[0].nodeId == 5
      && FindNode(r.value, 5).node != r.value.nodes[0]
  {
    var g := CachedGraph();
    var blank := NewNode(2, 0, DefaultHooks, "");
    var r := Read(g, Write(g), [blank]).value;
    assert r.nodes[0].oid == 2;
    assert r.nodeIdCache == map[5 := 1];
    assert IndexOfOid(r.nodes, 1) == -1;
  }

  /** `deserializeNBT(tag)` that also clears the four caches, so that no
      entry can name an object that has left the list. */
  function ReadFresh(g: Graph, t: GraphTag, blanks: seq<LiveNode>): (r: Outcome<Graph>)
    requires t.GraphTag? ==> |blanks| == |t.nodes|
    requires forall k :: 0 <= k < |blanks| ==> Unqueried(blanks[k])
    ensures r.Known? && r.value.GraphImpl? ==>
      r.value.nodeIdCache == map[] && r.value.pinIdCache == map[] && r.value.pinNodeCache == map[] && r.value.activeIds == {}
    ensures r.Known? && g.GraphImpl? ==> r.value.GraphImpl? && Known(r.value.(nodeIdCache := g.nodeIdCache, pinIdCache := g.pinIdCache,
                                                              pinNodeCache := g.pinNodeCache, activeIds := g.activeIds)) == Read(g, t, blanks)
    ensures r.Unknown? <==> Read(g, t, blanks).Unknown?
    ensures g.EmptyGraph? ==> r == Known(EmptyGraph)
  {
    match Read(g, t, blanks)
    case Unknown => Unknown
    case Known(h) =>
      if h.EmptyGraph? then Known(h)
      else Known(h.(nodeIdCache := map[], pinIdCache := map[], pinNodeCache := map[], activeIds := {}))
  }

  /** After a cache-clearing read, finding a node by an id some record
      carries answers the first rebuilt node with that id. */
  lemma ReadFreshFindsReadNode(g: Graph, t: GraphTag, blanks: seq<LiveNode>, id: int)
    requires g.GraphImpl? && t.GraphTag? && |blanks| == |t.nodes|
    requires forall k :: 0 <= k < |blanks| ==> Unqueried(blanks[k])
    requires id >= 0 && exists k :: 0 <= k < |t.nodes| && t.nodes[k].nodeId == id
    ensures var r := ReadFresh(g, t, blanks).value; var m := FindNode(r, id).node;
      exists k :: 0 <= k < |r.nodes| && m == r.nodes[k] && m.nodeId == id &&
                  forall k' :: 0 <= k' < k ==> r.nodes[k'].nodeId != id
  {
    var r := ReadFresh(g, t, blanks).value;
    var k :| 0 <= k < |t.nodes| && t.nodes[k].nodeId == id;
    assert r.nodes[k].nodeId == id;
  }

  /** The cache-clearing read of the same tag into the same graph finds the
      rebuilt node that `ReadKeepsStaleNodeCache` misses. */
  lemma ReadFreshFindsCachedId()
    ensures var g := CachedGraph();
      var blank := NewNode(2, 0, DefaultHooks, "");
      var r := ReadFresh(g, Write(g), [blank]);
      && r.Known? && FindNode(r.value, 5).node == r.value.nodes[0]
  {
    var g := CachedGraph();
    var blank := NewNode(2, 0, DefaultHooks, "");
    ReadFreshFindsReadNode(g, Write(g), [blank], 5);
  }
}
