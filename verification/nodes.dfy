/** Nodes: the `INode` interface with its `Empty` sentinel and the `NodeAdapter`
    implementation. A node owns an ordered pin list and two lookup caches
    (pin id to pin, label to pin). A cache entry is kept here as the index of
    the cached pin in the list. */
module Nodes {
  import opened Base
  import opened Pins

  /** The runtime class of a node, as far as `KClass.isInstance` is concerned. */
  type NodeClass = nat

  /** The overridable hooks of a node: what `onAdd()` and `onRemove()` answer,
      and the pin pairs (by id, from then to) its `canLink` refuses. */
  datatype Hooks = Hooks(acceptsAdd: bool, acceptsRemove: bool, refusedLinks: set<(int, int)>)

  /** The hooks `INode` declares by default: accept everything. */
  const DefaultHooks: Hooks := Hooks(true, true, {})

  /** A node: the shared sentinel `INode.Empty`, or a `NodeAdapter` object.
      `oid` stands for the object's identity, `attached` for whether its `graph`
      back-reference is the graph it lives in (rather than `IGraph.Empty`). */
  datatype Node =
    | EmptyNode
    | NodeAdapter(oid: nat, cls: NodeClass, hooks: Hooks, attached: bool, nodeId: int,
                  title: string, graphX: Float, graphY: Float,
                  titleColor: string, headerColor: string,
                  pins: seq<LivePin>, pinIdCache: map<int, nat>, pinLabelCache: map<string, nat>)
  {
    /** `isEmpty()`: true only for the sentinel. */
    predicate IsEmpty() { EmptyNode? }

    /** `nodeId`; the sentinel's is -1. */
    function NodeId(): int { if NodeAdapter? then nodeId else -1 }

    /** The pins `iterator()` visits, in order; the sentinel has none. */
    function Pins(): seq<LivePin> { if NodeAdapter? then pins else [] }
  }

  /** A node object that is not the sentinel: what a graph's node list holds. */
  type LiveNode = n: Node | n.NodeAdapter?
    witness NodeAdapter(0, 0, DefaultHooks, false, 0, "", MinValue, MinValue, "#ffffff", "#8c8c8c", [], map[], map[])

  /** A freshly constructed `NodeAdapter` with its defaults: detached, node id
      0, unset position, white title on a grey header, no pins, empty caches. */
  function NewNode(oid: nat, cls: NodeClass, hooks: Hooks, title: string): (n: LiveNode)
    ensures n.NodeId() == 0 && !n.IsEmpty() && !n.attached
    ensures Count(n) == 0 && !HasPins(n)
    ensures n.graphX == MinValue && n.graphY == MinValue
    ensures n.pinIdCache == map[] && n.pinLabelCache == map[]
    ensures n.oid == oid && n.cls == cls && n.hooks == hooks && n.title == title
    ensures n.titleColor == "#ffffff" && n.headerColor == "#8c8c8c"
  {
    NodeAdapter(oid, cls, hooks, false, 0, title, MinValue, MinValue, "#ffffff", "#8c8c8c", [], map[], map[])
  }

  /** `addPin(pin)`: stamp the pin with this node's id and append it. */
  function AddPin(n: LiveNode, p: LivePin): (m: LiveNode)
    ensures Count(m) == Count(n) + 1
    ensures Get(m, Count(n)) == p.(nodeId := n.nodeId)
    ensures forall i :: 0 <= i < Count(n) ==> Get(m, i) == Get(n, i)
    ensures m.(pins := n.pins) == n
  {
    n.(pins := n.pins + [p.(nodeId := n.nodeId)])
  }

  /** `addPin` for each pin of `ps` in turn, as the `init` block of a concrete
      node class does. */
  function AddPins(n: LiveNode, ps: seq<LivePin>): (m: LiveNode)
    ensures m.(pins := n.pins) == n
    ensures |m.pins| == |n.pins| + |ps|
    ensures forall i :: 0 <= i < |n.pins| ==> m.pins[i] == n.pins[i]
    ensures forall i :: 0 <= i < |ps| ==> m.pins[|n.pins| + i] == ps[i].(nodeId := n.nodeId)
    decreases |ps|
  {
    if ps == [] then n else AddPins(AddPin(n, ps[0]), ps[1..])
  }

  /** A node as its constructor leaves it, `NewNode` followed by `addPin`s,
      holds exactly the pins it was given, stamped with the default id 0, and
      its caches are empty and so sound. */
  lemma ConstructedNodeUnqueried(oid: nat, cls: NodeClass, hooks: Hooks, title: string, ps: seq<LivePin>)
    ensures var n := AddPins(NewNode(oid, cls, hooks, title), ps);
      && Unqueried(n) && NodeCoherent(n)
      && Count(n) == |ps| && forall i :: 0 <= i < |ps| ==> Get(n, i) == ps[i].(nodeId := 0)
  {
    var n := AddPins(NewNode(oid, cls, hooks, title), ps);
    forall i | 0 <= i < |ps| ensures Get(n, i) == ps[i].(nodeId := 0) {
      assert n.pins[0 + i] == ps[i].(nodeId := 0);
    }
  }

  /** `count`: the number of pins; the sentinel answers -1. */
  function Count(n: Node): (c: int)
    ensures c >= -1
    ensures c == -1 <==> n.EmptyNode?
  {
    if n.EmptyNode? then -1 else |n.pins|
  }

  /** `get(pinIndex)`: the pin at that index, or `IPin.Empty` when the index is
      outside `[0, count)` (always, on the sentinel). */
  function Get(n: Node, i: int): (p: Pin)
    ensures p.IsEmpty() <==> !(0 <= i < Count(n))
    ensures 0 <= i < Count(n) ==> p == n.pins[i]
  {
    if n.EmptyNode? || i < 0 || i >= |n.pins| then EmptyPin else n.pins[i]
  }

  /** `hasPins()`. */
  predicate HasPins(n: Node)
  {
    n.NodeAdapter? && |n.pins| > 0
  }

  /** A node has pins exactly when its count is positive, that is, when index 0
      gives a real pin. */
  lemma HasPinsIffCount(n: Node)
    ensures HasPins(n) <==> Count(n) > 0
    ensures HasPins(n) <==> !Get(n, 0).IsEmpty()
  {
  }

  /** `p` is `q` with the owner id possibly rewritten to `owner`, as a lookup
      scan does to each pin it visits. */
  predicate PinRestamped(q: LivePin, p: LivePin, owner: int)
  {
    p == q || p == q.(nodeId := owner)
  }

  /** `m` is `n` after lookups: the same object with the same pins, except that
      some pins were stamped with the node's id and the caches changed. */
  predicate Restamped(n: Node, m: Node)
  {
    if n.EmptyNode? then m == n
    else
      && m.NodeAdapter?
      && m.(pins := n.pins, pinIdCache := n.pinIdCache, pinLabelCache := n.pinLabelCache) == n
      && |m.pins| == |n.pins|
      && forall j :: 0 <= j < |n.pins| ==> PinRestamped(n.pins[j], m.pins[j], n.nodeId)
  }

  /** Lookups compose: restamping twice is restamping. */
  lemma RestampedTrans(a: Node, b: Node, c: Node)
    requires Restamped(a, b) && Restamped(b, c)
    ensures Restamped(a, c)
  {
  }

  /** The id cache is sound: each entry names a pin carrying that id. */
  ghost predicate IdCacheSound(n: Node)
  {
    n.NodeAdapter? ==>
      forall k :: k in n.pinIdCache ==> n.pinIdCache[k] < |n.pins| && n.pins[n.pinIdCache[k]].pinId == k
  }

  /** The label cache is sound: each entry names a pin carrying that label. */
  ghost predicate LabelCacheSound(n: Node)
  {
    n.NodeAdapter? ==>
      forall k :: k in n.pinLabelCache ==> n.pinLabelCache[k] < |n.pins| && n.pins[n.pinLabelCache[k]].name == k
  }

  /** Both caches are sound. */
  ghost predicate NodeCoherent(n: Node)
  {
    IdCacheSound(n) && LabelCacheSound(n)
  }

  /** `pin.nodeId = node.nodeId` for the pin at index `i`, as the graph's scans
      do to the pins they visit. */
  function StampAt(n: LiveNode, i: nat): (m: LiveNode)
    requires i < |n.pins|
    ensures |m.pins| == |n.pins| && m.pins[i] == n.pins[i].(nodeId := n.nodeId)
    ensures m.pinIdCache == n.pinIdCache && m.pinLabelCache == n.pinLabelCache
    ensures forall x :: Restamped(x, n) ==> Restamped(x, m)
    ensures NodeCoherent(n) ==> NodeCoherent(m)
  {
    n.(pins := n.pins[i := n.pins[i].(nodeId := n.nodeId)])
  }

  /** A node after a lookup scan, and the index the scan stopped at (-1: none). */
  datatype PinScan = PinScan(node: LiveNode, index: int)

  /** The loop of `hasPin(pinId)`/`getPin(pinId)` from index `j` on: stamp each
      visited pin with the node's id, cache it under its id, and stop at the
      first pin carrying `id`. */
  function ScanById(n: LiveNode, id: int, j: nat): (r: PinScan)
    requires j <= |n.pins|
    ensures |r.node.pins| == |n.pins| && r.node.(pins := n.pins, pinIdCache := n.pinIdCache) == n
    ensures -1 <= r.index < |n.pins|
    ensures r.index == -1 <==> forall i :: j <= i < |n.pins| ==> n.pins[i].pinId != id
    ensures r.index != -1 ==>
      j <= r.index && n.pins[r.index].pinId == id &&
      forall i :: j <= i < r.index ==> n.pins[i].pinId != id
    ensures forall i :: 0 <= i < |n.pins| ==>
      r.node.pins[i] == if j <= i && (r.index == -1 || i <= r.index) then n.pins[i].(nodeId := n.nodeId) else n.pins[i]
    ensures IdCacheSound(n) ==> IdCacheSound(r.node)
    ensures LabelCacheSound(n) ==> LabelCacheSound(r.node)
    decreases |n.pins| - j
  {
    if j == |n.pins| then PinScan(n, -1)
    else
      var p := n.pins[j].(nodeId := n.nodeId);
      var n' := n.(pins := n.pins[j := p], pinIdCache := n.pinIdCache[p.pinId := j]);
      assert forall i :: 0 <= i < |n.pins| ==> n'.pins[i].pinId == n.pins[i].pinId;
      assert IdCacheSound(n) ==> IdCacheSound(n');
      assert LabelCacheSound(n) ==> LabelCacheSound(n');
      if p.pinId == id then PinScan(n', j) else ScanById(n', id, j + 1)
  }

  /** The loop of `hasPin(name)`/`getPin(name)` from index `j` on: stamp each
      visited pin, cache it under its label (a later pin overwrites an earlier
      one with the same label), and stop at the first pin carrying `name`. */
  function ScanByLabel(n: LiveNode, name: string, j: nat): (r: PinScan)
    requires j <= |n.pins|
    ensures |r.node.pins| == |n.pins| && r.node.(pins := n.pins, pinLabelCache := n.pinLabelCache) == n
    ensures -1 <= r.index < |n.pins|
    ensures r.index == -1 <==> forall i :: j <= i < |n.pins| ==> n.pins[i].name != name
    ensures r.index != -1 ==>
      j <= r.index && n.pins[r.index].name == name &&
      forall i :: j <= i < r.index ==> n.pins[i].name != name
    ensures forall i :: 0 <= i < |n.pins| ==>
      r.node.pins[i] == if j <= i && (r.index == -1 || i <= r.index) then n.pins[i].(nodeId := n.nodeId) else n.pins[i]
    ensures IdCacheSound(n) ==> IdCacheSound(r.node)
    ensures LabelCacheSound(n) ==> LabelCacheSound(r.node)
    decreases |n.pins| - j
  {
    if j == |n.pins| then PinScan(n, -1)
    else
      var p := n.pins[j].(nodeId := n.nodeId);
      var n' := n.(pins := n.pins[j := p], pinLabelCache := n.pinLabelCache[p.name := j]);
      assert forall i :: 0 <= i < |n.pins| ==> n'.pins[i].name == n.pins[i].name;
      assert IdCacheSound(n) ==> IdCacheSound(n');
      assert LabelCacheSound(n) ==> LabelCacheSound(n');
      if p.name == name then PinScan(n', j) else ScanByLabel(n', name, j + 1)
  }

  /** A node after a pin lookup, and the pin it answered. */
  datatype PinLookup = PinLookup(node: Node, pin: Pin)

  /** A node after a membership test, and the answer. */
  datatype PinQuery = PinQuery(node: Node, found: bool)

  /** Where `getPin(pinId)` finds its answer: on a cache hit the cached pin's
      index (-1 if the list no longer reaches it), otherwise the scan's. */
  function LocateById(n: LiveNode, id: int): (r: PinScan)
    ensures Restamped(n, r.node) && r.node.pinLabelCache == n.pinLabelCache
    ensures -1 <= r.index < |r.node.pins|
    ensures id in n.pinIdCache ==> r.node == n
    ensures IdCacheSound(n) ==> IdCacheSound(r.node)
    ensures LabelCacheSound(n) ==> LabelCacheSound(r.node)
    ensures id !in n.pinIdCache ==> r == ScanById(n, id, 0)
    ensures IdCacheSound(n) ==>
      && (r.index != -1 ==> r.node.pins[r.index].pinId == id)
      && (r.index == -1 <==> forall i :: 0 <= i < |n.pins| ==> n.pins[i].pinId != id)
  {
    if id in n.pinIdCache then
      var i := n.pinIdCache[id];
      PinScan(n, if i < |n.pins| then i else -1)
    else ScanById(n, id, 0)
  }

  /** `getPin(pinId)`: the cached pin on a cache hit; otherwise the scan's first
      pin with that id, or `IPin.Empty`. The sentinel answers `IPin.Empty`. */
  function GetPinById(n: Node, id: int): (r: PinLookup)
    ensures n.EmptyNode? ==> r == PinLookup(n, EmptyPin)
    ensures Restamped(n, r.node) && (IdCacheSound(n) ==> IdCacheSound(r.node))
    ensures n.NodeAdapter? && id in n.pinIdCache ==> r.node == n
    ensures r.pin.PinAdapter? ==> exists i :: 0 <= i < |r.node.pins| && r.pin == r.node.pins[i]
    ensures n.NodeAdapter? && id !in n.pinIdCache ==>
      if r.pin.EmptyPin? then forall i :: 0 <= i < |n.pins| ==> n.pins[i].pinId != id
      else exists i :: 0 <= i < |n.pins| && r.pin == n.pins[i].(nodeId := n.nodeId) &&
             n.pins[i].pinId == id && forall i' :: 0 <= i' < i ==> n.pins[i'].pinId != id
    ensures IdCacheSound(n) ==>
      && (r.pin.PinAdapter? ==> r.pin.pinId == id)
      && (r.pin.EmptyPin? <==> forall i :: 0 <= i < |n.Pins()| ==> n.pins[i].pinId != id)
  {
    if n.EmptyNode? then PinLookup(n, EmptyPin)
    else
      var l := LocateById(n, id);
      PinLookup(l.node, if l.index == -1 then EmptyPin else l.node.pins[l.index])
  }

  /** `hasPin(pinId)`: true on any cache hit, even one whose pin no longer
      carries the id; otherwise whether the scan met a pin carrying it. */
  function HasPinById(n: Node, id: int): (r: PinQuery)
    ensures n.EmptyNode? ==> r == PinQuery(n, false)
    ensures Restamped(n, r.node)
    ensures n.NodeAdapter? && id in n.pinIdCache ==> r == PinQuery(n, true)
    ensures n.NodeAdapter? && id !in n.pinIdCache ==>
      (r.found <==> exists i :: 0 <= i < |n.pins| && n.pins[i].pinId == id)
    ensures IdCacheSound(n) ==> (r.found <==> exists i :: 0 <= i < |n.Pins()| && n.pins[i].pinId == id)
  {
    if n.EmptyNode? then PinQuery(n, false)
    else if id in n.pinIdCache then PinQuery(n, true)
    else
      var s := ScanById(n, id, 0);
      PinQuery(s.node, s.index != -1)
  }

  /** A stale id-cache entry answers true although no pin carries the id
      any more: the cache names pin 0, which has since been renumbered. */
  lemma HasPinByIdStaleHit()
    ensures var p := PinAdapter(5, 3, "in", Square, Input, White, LightGrey, DarkGrey, [], []);
      var n := NodeAdapter(0, 0, DefaultHooks, false, 5, "", MinValue, MinValue, "", "", [p], map[7 := 0], map[]);
      && HasPinById(n, 7).found
      && forall i :: 0 <= i < |n.pins| ==> n.pins[i].pinId != 7
  {
  }

  /** `hasPin(pinId)` and `getPin(pinId)` agree, and leave the node alike. */
  lemma HasPinByIdAgrees(n: Node, id: int)
    requires IdCacheSound(n)
    ensures HasPinById(n, id) == PinQuery(GetPinById(n, id).node, !GetPinById(n, id).pin.IsEmpty())
  {
  }

  /** `getPin(name)`: the cached pin on a cache hit; otherwise the scan's first
      pin with that label, or `IPin.Empty`. */
  function GetPinByLabel(n: Node, name: string): (r: PinLookup)
    ensures n.EmptyNode? ==> r == PinLookup(n, EmptyPin)
    ensures Restamped(n, r.node) && (LabelCacheSound(n) ==> LabelCacheSound(r.node))
    ensures n.NodeAdapter? && name in n.pinLabelCache ==> r.node == n
    ensures r.pin.PinAdapter? ==> exists i :: 0 <= i < |r.node.pins| && r.pin == r.node.pins[i]
    ensures n.NodeAdapter? && name !in n.pinLabelCache ==>
      if r.pin.EmptyPin? then forall i :: 0 <= i < |n.pins| ==> n.pins[i].name != name
      else exists i :: 0 <= i < |n.pins| && r.pin == n.pins[i].(nodeId := n.nodeId) &&
             n.pins[i].name == name && forall i' :: 0 <= i' < i ==> n.pins[i'].name != name
    ensures LabelCacheSound(n) ==>
      && (r.pin.PinAdapter? ==> r.pin.name == name)
      && (r.pin.EmptyPin? <==> forall i :: 0 <= i < |n.Pins()| ==> n.pins[i].name != name)
  {
    if n.EmptyNode? then PinLookup(n, EmptyPin)
    else if name in n.pinLabelCache then
      var i := n.pinLabelCache[name];
      PinLookup(n, if i < |n.pins| then n.pins[i] else EmptyPin)
    else
      var s := ScanByLabel(n, name, 0);
      PinLookup(s.node, if s.index == -1 then EmptyPin else s.node.pins[s.index])
  }

  /** `hasPin(name)`: true on any cache hit; otherwise whether the scan met
      a pin with that label. */
  function HasPinByLabel(n: Node, name: string): (r: PinQuery)
    ensures n.EmptyNode? ==> r == PinQuery(n, false)
    ensures Restamped(n, r.node)
    ensures n.NodeAdapter? && name in n.pinLabelCache ==> r == PinQuery(n, true)
    ensures n.NodeAdapter? && name !in n.pinLabelCache ==>
      (r.found <==> exists i :: 0 <= i < |n.pins| && n.pins[i].name == name)
    ensures LabelCacheSound(n) ==> (r.found <==> exists i :: 0 <= i < |n.Pins()| && n.pins[i].name == name)
  {
    if n.EmptyNode? then PinQuery(n, false)
    else if name in n.pinLabelCache then PinQuery(n, true)
    else
      var s := ScanByLabel(n, name, 0);
      PinQuery(s.node, s.index != -1)
  }

  /** `hasPin(name)` and `getPin(name)` agree, and leave the node alike. */
  lemma HasPinByLabelAgrees(n: Node, name: string)
    requires LabelCacheSound(n)
    ensures HasPinByLabel(n, name) == PinQuery(GetPinByLabel(n, name).node, !GetPinByLabel(n, name).pin.IsEmpty())
  {
  }

  /** A label lookup need not answer the first pin with that label: a scan for
      another label caches the last of two equally labelled pins, and the next
      lookup of that label hits the cache. */
  lemma LabelLookupNotFirst()
    ensures var n := NodeAdapter(0, 0, DefaultHooks, false, 5, "", MinValue, MinValue, "", "", TwoAsThenC(), map[], map[]);
            GetPinByLabel(GetPinByLabel(n, "c").node, "a").pin.pinId == 2
  {
    var ps := TwoAsThenC();
    var n := NodeAdapter(0, 0, DefaultHooks, false, 5, "", MinValue, MinValue, "", "", ps, map[], map[]);
    var s := ScanByLabel(n, "c", 0);
    assert s.index == 2;
    assert s.node.pinLabelCache == map["a" := 1, "c" := 2] by {
      var s0 := n.(pins := n.pins[0 := ps[0].(nodeId := 5)], pinLabelCache := map["a" := 0]);
      var s1 := s0.(pins := s0.pins[1 := ps[1].(nodeId := 5)], pinLabelCache := map["a" := 1]);
      var s2 := s1.(pins := s1.pins[2 := ps[2].(nodeId := 5)], pinLabelCache := map["a" := 1, "c" := 2]);
      assert ScanByLabel(n, "c", 0) == ScanByLabel(s0, "c", 1);
      assert ScanByLabel(s0, "c", 1) == ScanByLabel(s1, "c", 2);
      assert ScanByLabel(s1, "c", 2) == PinScan(s2, 2);
    }
    assert s.node.pins[1].pinId == 2;
  }

  /** Pins 1 and 2 labelled "a", then pin 3 labelled "c". */
  function TwoAsThenC(): (ps: seq<LivePin>)
    ensures |ps| == 3 && ps[0].name == ps[1].name == "a" && ps[2].name == "c"
    ensures ps[0].pinId == 1 && ps[1].pinId == 2
  {
    [PinAdapter(-1, 1, "a", Square, Input, 0, 0, 0, [], []),
     PinAdapter(-1, 2, "a", Square, Input, 0, 0, 0, [], []),
     PinAdapter(-1, 3, "c", Square, Input, 0, 0, 0, [], [])]
  }

  /** `onAdd()`; the sentinel keeps the interface default. */
  predicate OnAdd(n: Node)
  {
    n.EmptyNode? || n.hooks.acceptsAdd
  }

  /** `onRemove()`; the sentinel keeps the interface default. */
  predicate OnRemove(n: Node)
  {
    n.EmptyNode? || n.hooks.acceptsRemove
  }

  /** `canLink(from, to)`; the sentinel keeps the interface default. */
  predicate CanLink(n: Node, from: Pin, to: Pin)
  {
    n.EmptyNode? || (from.PinId(), to.PinId()) !in n.hooks.refusedLinks
  }

  /** A node that overrides no hook accepts being added, being removed and any link. */
  lemma DefaultHooksAcceptAll(n: Node, from: Pin, to: Pin)
    requires n.EmptyNode? || n.hooks == DefaultHooks
    ensures OnAdd(n) && OnRemove(n) && CanLink(n, from, to)
  {
  }

  /** The sentinel answers every lookup with `IPin.Empty` or false and changes nothing. */
  lemma EmptyNodeAnswersNothing(i: int, id: int, name: string)
    ensures Count(EmptyNode) == -1 && !HasPins(EmptyNode) && EmptyNode.NodeId() == -1
    ensures Get(EmptyNode, i) == EmptyPin
    ensures GetPinById(EmptyNode, id) == PinLookup(EmptyNode, EmptyPin)
    ensures HasPinById(EmptyNode, id) == PinQuery(EmptyNode, false)
    ensures GetPinByLabel(EmptyNode, name) == PinLookup(EmptyNode, EmptyPin)
    ensures HasPinByLabel(EmptyNode, name) == PinQuery(EmptyNode, false)
    ensures EmptyNode.Pins() == []
  {
  }

  /** What `serializeNBT()` writes for a node: the `INode` base fields and, for
      a `NodeAdapter`, the pin list. The colours are not written. */
  datatype NodeRecord = NodeRecord(nodeId: int, graphX: Float, graphY: Float, title: string, pins: seq<PinRecord>)

  /** The records of a pin list, in order. */
  function SerializePins(ps: seq<LivePin>): (rs: seq<PinRecord>)
    ensures |rs| == |ps|
    ensures forall i :: 0 <= i < |ps| ==> rs[i].pinId == ps[i].pinId && rs[i].toLinks == ps[i].toLinks
  {
    seq(|ps|, i requires 0 <= i < |ps| => SerializePin(ps[i]))
  }

  /** The pins rebuilt from a list of records, in order. */
  function DeserializePins(rs: seq<PinRecord>): (ps: seq<LivePin>)
    ensures |ps| == |rs|
    ensures forall i :: 0 <= i < |rs| ==> ps[i].pinId == rs[i].pinId && ps[i].toLinks == rs[i].toLinks
  {
    seq(|rs|, i requires 0 <= i < |rs| => DeserializePin(rs[i]))
  }

  /** `serializeNBT()`. The sentinel keeps the interface default, which writes
      its base fields and no pin list. */
  function SerializeNode(n: Node): (r: NodeRecord)
    ensures r.nodeId == n.NodeId() && |r.pins| == |n.Pins()|
  {
    match n
    case EmptyNode => NodeRecord(-1, MinusOne, MinusOne, "", [])
    case NodeAdapter(_, _, _, _, _, _, _, _, _, _, _, _, _) =>
      NodeRecord(n.nodeId, n.graphX, n.graphY, n.title, SerializePins(n.pins))
  }

  /** A node whose pin caches are still empty, as its constructor leaves it:
      `addPin` does not fill them, only the pin lookups do. */
  predicate Unqueried(n: Node)
  {
    n.NodeAdapter? ==> n.pinIdCache == map[] && n.pinLabelCache == map[]
  }

  /** `deserializeNBT(tag)` on a freshly constructed node `blank`: the base
      fields are read, then the pin list is cleared and refilled from the
      record. Identity, class, hooks and colours stay the blank's, and the
      pin caches stay empty, so no lookup can answer with a pin of the
      cleared list. */
  function DeserializeNode(r: NodeRecord, blank: LiveNode): (n: LiveNode)
    requires Unqueried(blank)
    ensures n.nodeId == r.nodeId && n.title == r.title && |n.pins| == |r.pins|
    ensures n.pinIdCache == map[] && n.pinLabelCache == map[]
    ensures n.graphX == r.graphX && n.graphY == r.graphY
    ensures n.oid == blank.oid && n.cls == blank.cls && n.hooks == blank.hooks && n.attached == blank.attached
    ensures n.titleColor == blank.titleColor && n.headerColor == blank.headerColor
  {
    blank.(nodeId := r.nodeId, graphX := r.graphX, graphY := r.graphY, title := r.title,
           pins := DeserializePins(r.pins))
  }

  /** Reading back what a node wrote restores its id, position, title and pins
      (in order, links included); the colours come from the blank node, since
      they were never written. */
  lemma NodeRoundTrip(n: LiveNode, blank: LiveNode)
    requires Unqueried(blank)
    ensures var m := DeserializeNode(SerializeNode(n), blank);
            && m.nodeId == n.nodeId && m.graphX == n.graphX && m.graphY == n.graphY && m.title == n.title
            && m.pins == n.pins
            && m.titleColor == blank.titleColor && m.headerColor == blank.headerColor
  {
    var m := DeserializeNode(SerializeNode(n), blank);
    forall i | 0 <= i < |n.pins|
      ensures m.pins[i] == n.pins[i]
    {
      PinRoundTrip(n.pins[i]);
    }
  }
}
