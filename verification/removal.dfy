/** Removal: `removeNode(node)`. Unless the node vetoes, each of its pins is
    cleared of its links and its id dropped from the graph's pin caches, the
    node's own id is dropped from the node caches, and the node leaves the
    list. Only a node the list holds makes the answer true. The node object
    the caller passed in comes back too, since clearing its pins changes it
    whether or not the list held it. */
module Removal {
  import opened Base
  import opened Pins
  import opened Nodes
  import opened Graphs
  import opened Links
  import opened Wellformed
  import opened Traversal

  /** The graph forgets a pin id: `pinIdCache`, `activeIdCache` and
      `pinIdToNodeCache` drop the key. */
  function Uncache(g: Graph, id: int): (h: Graph)
    requires g.GraphImpl?
    ensures h.GraphImpl? && h.nodes == g.nodes && h.hint == g.hint
  {
    g.(pinIdCache := g.pinIdCache - {id}, activeIds := g.activeIds - {id}, pinNodeCache := g.pinNodeCache - {id})
  }

  /** The graph forgets a node id: `activeIdCache` and `nodeIdCache` drop the key. */
  function Forget(g: Graph, id: int): (h: Graph)
    requires g.GraphImpl?
    ensures h.GraphImpl? && h.nodes == g.nodes && h.hint == g.hint
  {
    g.(activeIds := g.activeIds - {id}, nodeIdCache := g.nodeIdCache - {id})
  }

  /** The list without its node at position `k`: `nodes.remove(node)`. */
  function Drop(g: Graph, k: nat): (h: Graph)
    requires g.GraphImpl? && k < |g.nodes|
    ensures h.GraphImpl? && |h.nodes| == |g.nodes| - 1
  {
    g.(nodes := g.nodes[..k] + g.nodes[k + 1..])
  }

  /** The pin loop of `removeNode` over a node the list holds, from pin `j`
      on: clear the pin's links through the graph, then forget its id. The
      pins are read from the list, so each sees the clearing of the ones
      before it. */
  function ClearHeldPins(g: Graph, k: nat, j: nat): (h: Graph)
    requires g.GraphImpl? && k < |g.nodes| && j <= |g.nodes[k].pins|
    ensures h.GraphImpl? && SameShape(g, h)
    decreases |g.nodes[k].pins| - j
  {
    if j == |g.nodes[k].pins| then g
    else ClearHeldPins(ClearTurn(g, k, j), k, j + 1)
  }

  /** The pin loop goes on from the graph one turn leaves. */
  lemma ClearHeldPinsUnfold(g: Graph, k: nat, j: nat)
    requires g.GraphImpl? && k < |g.nodes| && j < |g.nodes[k].pins|
    ensures ClearHeldPins(g, k, j) == ClearHeldPins(ClearTurn(g, k, j), k, j + 1)
  {
  }

  /** One turn of that loop: clear the links of pin `j` of the node at
      position `k`, then forget the pin's id. */
  function ClearTurn(g: Graph, k: nat, j: nat): (h: Graph)
    requires g.GraphImpl? && k < |g.nodes| && j < |g.nodes[k].pins|
    ensures h.GraphImpl? && SameShape(g, h)
  {
    Uncache(ClearLinks(g, Held(k, j)).graph, g.nodes[k].pins[j].pinId)
  }

  /** The same loop over a node object the list does not hold: each pin is a
      loose subject. Its own cleared state is the caller's object's, which
      `ClearedPins` gives. */
  function ClearLoosePins(g: Graph, ps: seq<LivePin>): (h: Graph)
    requires g.GraphImpl?
    ensures h.GraphImpl? && SameShape(g, h)
    decreases |ps|
  {
    if |ps| == 0 then g
    else ClearLoosePins(Uncache(ClearLinks(g, Loose(ps[0])).graph, ps[0].pinId), ps[1..])
  }

  /** The caller's own pin objects once each has been through `clearLinks`,
      which ends with `toLinks.clear()` and `fromLinks.clear()`. */
  function ClearedPins(ps: seq<LivePin>): (qs: seq<LivePin>)
    ensures |qs| == |ps| && forall i :: 0 <= i < |ps| ==> qs[i] == Bare(ps[i])
    decreases |ps|
  {
    if |ps| == 0 then []
    else [ps[0].(toLinks := [], fromLinks := [])] + ClearedPins(ps[1..])
  }

  /** What `removeNode(node)` leaves: the graph, the answer, and the node
      object it was given, in its final state. */
  datatype Removed = Removed(graph: Graph, yes: bool, node: Node)

  /** The list holds the node object `n`. */
  predicate Listed(g: Graph, n: Node)
  {
    g.GraphImpl? && n.NodeAdapter? && IndexOfOid(g.nodes, n.oid) != -1
  }

  /** The node object in its current state: as the list holds it when the
      list holds it, otherwise as the caller has it. */
  function Live(g: Graph, n: Node): (m: Node)
    ensures m.NodeAdapter? == n.NodeAdapter?
  {
    if Listed(g, n) then g.nodes[IndexOfOid(g.nodes, n.oid)] else n
  }

  /** `removeNode(node)`. `IGraph.Empty` refuses. A node whose `onRemove()`
      answers false vetoes: nothing changes and the answer is false. Otherwise
      each pin is cleared and uncached and the node's id forgotten; the node
      then leaves the list, which makes the answer true only when the list
      held it. For a listed node the pins walked are the list's, in their
      current state, and the node object ends as the loop leaves it in the
      list; an unlisted node's own pins are cleared. `INode.Empty` has no
      pins. */
  function RemoveNode(g: Graph, n: Node): (r: Removed)
    ensures g.EmptyGraph? || !OnRemove(Live(g, n)) ==> r == Removed(g, false, Live(g, n))
    ensures r.yes <==> Listed(g, n) && OnRemove(Live(g, n))
    ensures r.graph.GraphImpl? == g.GraphImpl? && r.node.NodeAdapter? == n.NodeAdapter?
  {
    if g.EmptyGraph? || !OnRemove(Live(g, n)) then Removed(g, false, Live(g, n))
    else if n.EmptyNode? then Removed(Forget(g, -1), false, n)
    else
      var k := IndexOfOid(g.nodes, n.oid);
      if k == -1 then
        Removed(Forget(ClearLoosePins(g, n.pins), n.nodeId), false, n.(pins := ClearedPins(n.pins)))
      else
        var h := ClearHeldPins(g, k, 0);
        Removed(Drop(Forget(h, g.nodes[k].nodeId), k), true, h.nodes[k])
  }

  /** Whatever the graph's state, a node that does not veto has its id
      forgotten by the node caches; a removed node's list loses exactly that
      node, the others keeping their order; an answer of false leaves the same
      node objects in the list. */
  lemma RemoveNodeShape(g: Graph, n: Node)
    ensures var r := RemoveNode(g, n);
      && (g.GraphImpl? && OnRemove(Live(g, n)) ==>
            Live(g, n).NodeId() !in r.graph.nodeIdCache && Live(g, n).NodeId() !in r.graph.activeIds)
      && (r.yes ==>
            var k := IndexOfOid(g.nodes, n.oid);
            && |r.graph.nodes| == |g.nodes| - 1
            && forall i :: 0 <= i < |r.graph.nodes| ==> r.graph.nodes[i].oid == g.nodes[if i < k then i else i + 1].oid)
      && (g.GraphImpl? && !r.yes ==> SameNodes(g, r.graph))
  {
    hide ClearTurn, ClearLinks;
    if g.GraphImpl? && OnRemove(Live(g, n)) && n.NodeAdapter? {
      var k := IndexOfOid(g.nodes, n.oid);
      if k == -1 {
        ClearLoosePinsSameNodes(g, n.pins);
      } else {
        ClearHeldPinsSameNodes(g, k, 0);
      }
    }
  }

  /** Both graphs hold the same node objects, in the same order, with the same
      ids and the same number of pins each. */
  ghost predicate SameNodes(g: Graph, h: Graph)
  {
    && g.GraphImpl? && h.GraphImpl? && |h.nodes| == |g.nodes|
    && forall i :: 0 <= i < |g.nodes| ==>
         h.nodes[i].oid == g.nodes[i].oid && h.nodes[i].nodeId == g.nodes[i].nodeId && |h.nodes[i].pins| == |g.nodes[i].pins|
  }

  /** A loop of `clearLinks` keeps the node objects. */
  lemma {:induction false} DropAllSameNodes(g: Graph, ids: seq<int>, id: int, back: bool)
    requires g.GraphImpl?
    ensures SameNodes(g, DropAll(g, ids, id, back))
    decreases |ids|
  {
    if |ids| > 0 {
      var f := FindPin(g, ids[0]);
      var g1 := DropAt(f.graph, f.loc, id, back);
      assert SameNodes(g, g1) by {
        forall i | 0 <= i < |g.nodes| ensures g1.nodes[i].oid == g.nodes[i].oid && g1.nodes[i].nodeId == g.nodes[i].nodeId {
          assert Restamped(g.nodes[i], f.graph.nodes[i]);
          assert g1.nodes[i].(pins := f.graph.nodes[i].pins) == f.graph.nodes[i];
        }
      }
      DropAllSameNodes(g1, ids[1..], id, back);
    }
  }

  /** `clearLinks` keeps the node objects. */
  lemma ClearLinksSameNodes(g: Graph, s: Subject)
    requires g.GraphImpl? && Valid(g, s)
    ensures SameNodes(g, ClearLinks(g, s).graph)
  {
    if !s.Sentinel? {
      var self := Current(g, s);
      var g1 := DropAll(g, self.toLinks, self.pinId, true);
      DropAllSameNodes(g, self.toLinks, self.pinId, true);
      var g2 := DropAll(g1, Current(g1, s).fromLinks, self.pinId, false);
      DropAllSameNodes(g1, Current(g1, s).fromLinks, self.pinId, false);
      var p := Current(g2, s);
      if s.Held? {
        var h := PutPin(g2, s.k, s.j, p.(toLinks := [], fromLinks := []));
        assert ClearLinks(g, s).graph == h;
        forall i | 0 <= i < |g.nodes| ensures h.nodes[i].oid == g.nodes[i].oid && h.nodes[i].nodeId == g.nodes[i].nodeId {
          assert h.nodes[i].(pins := g2.nodes[i].pins) == g2.nodes[i];
        }
      }
    }
  }

  /** The pin loop over a listed node keeps the node objects. */
  lemma {:induction false} ClearHeldPinsSameNodes(g: Graph, k: nat, j: nat)
    requires g.GraphImpl? && k < |g.nodes| && j <= |g.nodes[k].pins|
    ensures SameNodes(g, ClearHeldPins(g, k, j))
    decreases |g.nodes[k].pins| - j
  {
    hide ClearTurn;
    if j < |g.nodes[k].pins| {
      hide WF;
      ClearHeldPinsUnfold(g, k, j);
      ClearTurnSameNodes(g, k, j);
      ClearHeldPinsSameNodes(ClearTurn(g, k, j), k, j + 1);
    }
  }

  /** One turn of the pin loop keeps the node objects. */
  lemma ClearTurnSameNodes(g: Graph, k: nat, j: nat)
    requires g.GraphImpl? && k < |g.nodes| && j < |g.nodes[k].pins|
    ensures SameNodes(g, ClearTurn(g, k, j))
  {
    ClearLinksSameNodes(g, Held(k, j));
  }

  /** The pin loop over an unlisted node keeps the node objects. */
  lemma {:induction false} ClearLoosePinsSameNodes(g: Graph, ps: seq<LivePin>)
    requires g.GraphImpl?
    ensures SameNodes(g, ClearLoosePins(g, ps))
    decreases |ps|
  {
    hide ClearTurn, ClearLinks;
    if |ps| > 0 {
      var c := ClearLinks(g, Loose(ps[0]));
      ClearLinksSameNodes(g, Loose(ps[0]));
      ClearLoosePinsSameNodes(Uncache(c.graph, ps[0].pinId), ps[1..]);
    }
  }

  // ------------------------------------------- the removed node's own pins

  /** A pin whose lists are both empty. */
  predicate Unlinked(p: Pin)
  {
    ToIds(p) == [] && FromIds(p) == []
  }

  /** A loop of `clearLinks` only removes entries: a pin with empty lists
      keeps them, and every pin keeps its id. */
  lemma {:induction false} DropAllKeepsUnlinked(g: Graph, ids: seq<int>, id: int, back: bool, l: Loc)
    requires Unlinked(PinAtLoc(g, l))
    ensures Unlinked(PinAtLoc(DropAll(g, ids, id, back), l))
    decreases |ids|
  {
    if |ids| > 0 {
      var f := FindPin(g, ids[0]);
      FindPinShape(g, ids[0]);
      var g1 := DropAt(f.graph, f.loc, id, back);
      assert Unlinked(PinAtLoc(g1, l));
      DropAllKeepsUnlinked(g1, ids[1..], id, back, l);
    }
  }

  /** `clearLinks(graph)` on a held pin, in any graph: the pin ends with
      empty lists, a pin that had empty lists keeps them, and every pin keeps
      its id. */
  lemma ClearLinksUnlinks(g: Graph, s: Subject, l: Loc)
    requires Valid(g, s) && s.Held?
    ensures var h := ClearLinks(g, s).graph;
      && PinAtLoc(h, l).PinId() == PinAtLoc(g, l).PinId()
      && (l == LocOf(s) || Unlinked(PinAtLoc(g, l)) ==> Unlinked(PinAtLoc(h, l)))
  {
    var self := Current(g, s);
    var g1 := DropAll(g, self.toLinks, self.pinId, true);
    var g2 := DropAll(g1, Current(g1, s).fromLinks, self.pinId, false);
    if l != LocOf(s) && Unlinked(PinAtLoc(g, l)) {
      DropAllKeepsUnlinked(g, self.toLinks, self.pinId, true, l);
      DropAllKeepsUnlinked(g1, Current(g1, s).fromLinks, self.pinId, false, l);
    }
    assert ClearLinks(g, s).graph == PutPin(g2, s.k, s.j, Current(g2, s).(toLinks := [], fromLinks := []));
  }

  /** The pin loop over a listed node, in any graph: every pin it walks ends
      with empty lists, one that had them keeps them, and every pin of the
      node keeps its id. */
  lemma {:induction false} ClearHeldPinsUnlinks(g: Graph, k: nat, j: nat)
    requires g.GraphImpl? && k < |g.nodes| && j <= |g.nodes[k].pins|
    ensures var h := ClearHeldPins(g, k, j);
      forall i :: 0 <= i < |g.nodes[k].pins| ==>
        && PinAtLoc(h, At(k, i)).PinId() == PinAtLoc(g, At(k, i)).PinId()
        && (i >= j || Unlinked(PinAtLoc(g, At(k, i))) ==> Unlinked(PinAtLoc(h, At(k, i))))
    decreases |g.nodes[k].pins| - j
  {
    hide ClearTurn;
    if j < |g.nodes[k].pins| {
      var g' := ClearTurn(g, k, j);
      ClearHeldPinsUnfold(g, k, j);
      ClearTurnUnlinks(g, k, j);
      ClearHeldPinsUnlinks(g', k, j + 1);
    }
  }

  /** One turn of that loop, in any graph. */
  lemma ClearTurnUnlinks(g: Graph, k: nat, j: nat)
    requires g.GraphImpl? && k < |g.nodes| && j < |g.nodes[k].pins|
    ensures var g' := ClearTurn(g, k, j);
      forall i :: 0 <= i < |g.nodes[k].pins| ==>
        && PinAtLoc(g', At(k, i)).PinId() == PinAtLoc(g, At(k, i)).PinId()
        && (i == j || Unlinked(PinAtLoc(g, At(k, i))) ==> Unlinked(PinAtLoc(g', At(k, i))))
  {
    hide ClearLinks;
    var g' := ClearTurn(g, k, j);
    forall i | 0 <= i < |g.nodes[k].pins|
      ensures PinAtLoc(g', At(k, i)).PinId() == PinAtLoc(g, At(k, i)).PinId()
      ensures i == j || Unlinked(PinAtLoc(g, At(k, i))) ==> Unlinked(PinAtLoc(g', At(k, i)))
    {
      ClearLinksUnlinks(g, Held(k, j), At(k, i));
      assert PinAtLoc(g', At(k, i)) == PinAtLoc(ClearLinks(g, Held(k, j)).graph, At(k, i));
    }
  }

  /** `removeNode` hands back the node object it was given with every pin's
      lists emptied, whether or not the list held it: each `clearLinks` ends
      by clearing the pin's own lists. The object keeps its identity, its id
      and its pins' ids; in a well-formed graph, and always for an unlisted
      node, each pin is otherwise as it was. */
  lemma RemoveNodeClearsNode(g: Graph, n: Node)
    requires g.GraphImpl? && n.NodeAdapter? && OnRemove(Live(g, n))
    ensures var r, m := RemoveNode(g, n), Live(g, n);
      && r.node.NodeAdapter? && m.NodeAdapter?
      && r.node.oid == n.oid && r.node.nodeId == m.nodeId && |r.node.pins| == |m.pins|
      && (forall i :: 0 <= i < |m.pins| ==> r.node.pins[i].pinId == m.pins[i].pinId && Unlinked(r.node.pins[i]))
      && (!Listed(g, n) || WF(g) ==> forall i :: 0 <= i < |m.pins| ==> r.node.pins[i] == Bare(m.pins[i]))
  {
    hide ClearTurn, ClearLinks;
    var k := IndexOfOid(g.nodes, n.oid);
    if k != -1 {
      var h := ClearHeldPins(g, k, 0);
      ClearHeldPinsSameNodes(g, k, 0);
      ClearHeldPinsUnlinks(g, k, 0);
      forall i | 0 <= i < |g.nodes[k].pins|
        ensures h.nodes[k].pins[i].pinId == g.nodes[k].pins[i].pinId && Unlinked(h.nodes[k].pins[i])
      {
        assert PinAtLoc(h, At(k, i)) == h.nodes[k].pins[i];
      }
      if WF(g) {
        ClearHeldPinsBares(g, k, 0);
        forall i | 0 <= i < |g.nodes[k].pins| ensures h.nodes[k].pins[i] == Bare(g.nodes[k].pins[i]) {
          assert PinAtLoc(h, At(k, i)) == h.nodes[k].pins[i];
        }
      }
    }
  }

  /** After `removeNode`, the node object it was given finds no linked node
      in any graph, whatever its pins were linked to before. */
  lemma RemovedNodeFindsNothing(g: Graph, n: Node, h: Graph, types: set<NodeClass>)
    requires g.GraphImpl? && OnRemove(Live(g, n))
    ensures GetLinkedNode(h, RemoveNode(g, n).node, types) == Search(h, Null)
    ensures HasLinkedNode(h, RemoveNode(g, n).node, types) == Answer(h, false)
  {
    hide ClearTurn, ClearLinks, ClearHeldPins;
    var r := RemoveNode(g, n);
    if n.NodeAdapter? {
      RemoveNodeClearsNode(g, n);
      assert forall i :: 0 <= i < |r.node.pins| ==> Unlinked(r.node.pins[i]);
    }
    UnlinkedFindsNothing(h, r.node, types);
  }

  // ------------------------------------------------ what removeNode keeps

  /** Every link list of `h` holds at most what the same pin's list holds in `g`. */
  ghost predicate Shrunk(g: Graph, h: Graph)
  {
    forall l :: multiset(ToIds(PinAtLoc(h, l))) <= multiset(ToIds(PinAtLoc(g, l)))
             && multiset(FromIds(PinAtLoc(h, l))) <= multiset(FromIds(PinAtLoc(g, l)))
  }

  /** A location in the node at position `k`, at pin `j` or later. */
  predicate FromOn(l: Loc, k: nat, j: nat)
  {
    l.At? && l.k == k && l.j >= j
  }

  /** Forgetting a pin id keeps a well-formed graph well formed and changes no pin. */
  lemma UncacheWF(g: Graph, id: int)
    requires WF(g)
    ensures WF(Uncache(g, id)) && Relinked(g, Uncache(g, id))
    ensures forall l :: PinAtLoc(Uncache(g, id), l) == PinAtLoc(g, l)
  {
    var h := Uncache(g, id);
    assert forall l :: PinAtLoc(h, l) == PinAtLoc(g, l);
    assert forall key :: key in h.pinIdCache ==> key in g.pinIdCache && h.pinIdCache[key] == g.pinIdCache[key];
    assert forall key :: key in h.pinNodeCache ==> key in g.pinNodeCache && h.pinNodeCache[key] == g.pinNodeCache[key];
    SamePinsWF(g, h);
  }

  /** Forgetting a node id keeps a well-formed graph well formed and changes no pin. */
  lemma ForgetWF(g: Graph, id: int)
    requires WF(g)
    ensures WF(Forget(g, id)) && Relinked(g, Forget(g, id))
    ensures forall l :: PinAtLoc(Forget(g, id), l) == PinAtLoc(g, l)
  {
    var h := Forget(g, id);
    assert forall l :: PinAtLoc(h, l) == PinAtLoc(g, l);
    assert forall key :: key in h.nodeIdCache ==> key in g.nodeIdCache && h.nodeIdCache[key] == g.nodeIdCache[key];
    SamePinsWF(g, h);
  }

  /** Stripping an id only removes entries. */
  lemma StrippedShrinks(p: Pin, x: int)
    ensures multiset(ToIds(Stripped(p, x))) <= multiset(ToIds(p))
    ensures multiset(FromIds(Stripped(p, x))) <= multiset(FromIds(p))
  {
    if p.PinAdapter? {
      forall y ensures multiset(Without(p.toLinks, x))[y] <= multiset(p.toLinks)[y]
                    && multiset(Without(p.fromLinks, x))[y] <= multiset(p.fromLinks)[y]
      {
        if y != x {
          WithoutKeeps(p.toLinks, x, y);
          WithoutKeeps(p.fromLinks, x, y);
        }
      }
    }
  }

  /** Every graph is a shrinking of itself. */
  lemma ShrunkRefl(g: Graph)
    ensures Shrunk(g, g)
  {
  }

  /** Shrinking composes. */
  lemma ShrunkTrans(a: Graph, b: Graph, c: Graph)
    requires Shrunk(a, b) && Shrunk(b, c)
    ensures Shrunk(a, c)
  {
    forall l ensures multiset(ToIds(PinAtLoc(c, l))) <= multiset(ToIds(PinAtLoc(a, l)))
                  && multiset(FromIds(PinAtLoc(c, l))) <= multiset(FromIds(PinAtLoc(a, l)))
    {
    }
  }

  /** An id no list names stays unnamed while lists shrink. */
  lemma ShrunkIsolated(g: Graph, h: Graph, x: int)
    requires Shrunk(g, h) && Isolated(g, x)
    ensures Isolated(h, x)
  {
    forall l ensures x !in ToIds(PinAtLoc(h, l)) && x !in FromIds(PinAtLoc(h, l)) {
      assert multiset(ToIds(PinAtLoc(h, l)))[x] <= multiset(ToIds(PinAtLoc(g, l)))[x];
      assert multiset(FromIds(PinAtLoc(h, l)))[x] <= multiset(FromIds(PinAtLoc(g, l)))[x];
    }
  }

  /** A pin with empty lists keeps them while lists shrink. */
  lemma BareStays(g: Graph, h: Graph, l: Loc)
    requires Relinked(g, h) && Shrunk(g, h) && PinAtLoc(g, l) == Bare(PinAtLoc(g, l))
    ensures PinAtLoc(h, l) == PinAtLoc(g, l)
  {
    var p, q := PinAtLoc(g, l), PinAtLoc(h, l);
    assert Bare(q) == Bare(p);
    if q.PinAdapter? {
      assert |multiset(q.toLinks)| <= |multiset(p.toLinks)| == 0;
      assert |multiset(q.fromLinks)| <= |multiset(p.fromLinks)| == 0;
    }
  }

  /** One turn of the pin loop over a listed node of a well-formed graph
      keeps the graph well formed and changes only links. */
  lemma ClearTurnWF(g: Graph, k: nat, j: nat)
    requires WF(g) && k < |g.nodes| && j < |g.nodes[k].pins|
    ensures var g' := ClearTurn(g, k, j); WF(g') && Relinked(g, g')
  {
    var s, x := Held(k, j), g.nodes[k].pins[j].pinId;
    var c := ClearLinks(g, s);
    ClearLinksWF(g, s);
    UncacheWF(c.graph, x);
    RelinkedTrans(g, c.graph, Uncache(c.graph, x));
  }

  /** The same turn only removes list entries. */
  lemma ClearTurnShrinks(g: Graph, k: nat, j: nat)
    requires WF(g) && k < |g.nodes| && j < |g.nodes[k].pins|
    ensures Shrunk(g, ClearTurn(g, k, j))
  {
    var s, x := Held(k, j), g.nodes[k].pins[j].pinId;
    var c := ClearLinks(g, s);
    ClearLinksWF(g, s);
    UncacheWF(c.graph, x);
    var g' := Uncache(c.graph, x);
    forall l ensures multiset(ToIds(PinAtLoc(g', l))) <= multiset(ToIds(PinAtLoc(g, l)))
                  && multiset(FromIds(PinAtLoc(g', l))) <= multiset(FromIds(PinAtLoc(g, l)))
    {
      if l != At(k, j) {
        StrippedShrinks(PinAtLoc(g, l), x);
      }
    }
  }

  /** The same turn empties the lists of pin `j`, leaves no list naming it,
      and keeps every link between two other pins. */
  lemma ClearTurnIsolates(g: Graph, k: nat, j: nat)
    requires WF(g) && k < |g.nodes| && j < |g.nodes[k].pins|
    ensures var g' := ClearTurn(g, k, j);
      && Isolated(g', g.nodes[k].pins[j].pinId)
      && PinAtLoc(g', At(k, j)) == Bare(PinAtLoc(g, At(k, j)))
      && forall a, b :: a != At(k, j) && b != At(k, j) && PinAtLoc(g, a).PinAdapter? && PinAtLoc(g, b).PinAdapter? ==>
           Out(g', a, b) == Out(g, a, b)
  {
    var s, x := Held(k, j), g.nodes[k].pins[j].pinId;
    var c := ClearLinks(g, s);
    ClearLinksWF(g, s);
    ClearLinksIsolates(g, s);
    UncacheWF(c.graph, x);
  }

  /** What `ClearHeldPinsKeeps` needs of one turn: the graph stays well
      formed, the same locations hold pins, and links between two other pins
      are kept. */
  lemma ClearTurnKeeps(g: Graph, k: nat, j: nat)
    requires WF(g) && k < |g.nodes| && j < |g.nodes[k].pins|
    ensures var g' := ClearTurn(g, k, j);
      && WF(g')
      && (forall l :: PinAtLoc(g', l).PinAdapter? == PinAtLoc(g, l).PinAdapter?)
      && forall a, b :: a != At(k, j) && b != At(k, j) && PinAtLoc(g, a).PinAdapter? && PinAtLoc(g, b).PinAdapter? ==>
           Out(g', a, b) == Out(g, a, b)
  {
    ClearTurnWF(g, k, j);
    ClearTurnIsolates(g, k, j);
    RelinkedIds(g, ClearTurn(g, k, j));
  }

  /** The pin loop of `removeNode` over the node at position `k` of a
      well-formed graph, from pin `j` on, keeps the graph well formed and
      changes only links. */
  lemma {:induction false} ClearHeldPinsWF(g: Graph, k: nat, j: nat)
    requires WF(g) && k < |g.nodes| && j <= |g.nodes[k].pins|
    ensures var h := ClearHeldPins(g, k, j); WF(h) && Relinked(g, h)
    decreases |g.nodes[k].pins| - j
  {
    hide ClearTurn;
    if j < |g.nodes[k].pins| {
      hide WF;
      var g' := ClearTurn(g, k, j);
      ClearHeldPinsUnfold(g, k, j);
      ClearTurnWF(g, k, j);
      ClearHeldPinsWF(g', k, j + 1);
      RelinkedTrans(g, g', ClearHeldPins(g', k, j + 1));
    } else {
      assert ClearHeldPins(g, k, j) == g;
    }
  }

  /** The same loop only removes list entries. */
  lemma {:induction false} ClearHeldPinsShrinks(g: Graph, k: nat, j: nat)
    requires WF(g) && k < |g.nodes| && j <= |g.nodes[k].pins|
    ensures Shrunk(g, ClearHeldPins(g, k, j))
    decreases |g.nodes[k].pins| - j
  {
    hide ClearTurn, Shrunk;
    if j < |g.nodes[k].pins| {
      hide WF;
      var g' := ClearTurn(g, k, j);
      ClearHeldPinsUnfold(g, k, j);
      ClearTurnWF(g, k, j);
      ClearTurnShrinks(g, k, j);
      ClearHeldPinsShrinks(g', k, j + 1);
      ShrunkTrans(g, g', ClearHeldPins(g', k, j + 1));
    } else {
      assert ClearHeldPins(g, k, j) == g;
      ShrunkRefl(g);
    }
  }

  /** The same loop leaves each pin it walks with empty lists and named by
      no list. */
  lemma {:induction false} ClearHeldPinsBares(g: Graph, k: nat, j: nat)
    requires WF(g) && k < |g.nodes| && j <= |g.nodes[k].pins|
    ensures var h := ClearHeldPins(g, k, j);
      forall i :: j <= i < |g.nodes[k].pins| ==>
        Isolated(h, g.nodes[k].pins[i].pinId) && PinAtLoc(h, At(k, i)) == Bare(PinAtLoc(g, At(k, i)))
    decreases |g.nodes[k].pins| - j
  {
    hide ClearTurn;
    if j < |g.nodes[k].pins| {
      hide WF;
      var x := g.nodes[k].pins[j].pinId;
      var g' := ClearTurn(g, k, j);
      var h := ClearHeldPins(g', k, j + 1);
      ClearHeldPinsUnfold(g, k, j);
      ClearTurnWF(g, k, j);
      ClearTurnIsolates(g, k, j);
      ClearHeldPinsWF(g', k, j + 1);
      ClearHeldPinsShrinks(g', k, j + 1);
      ClearHeldPinsBares(g', k, j + 1);
      ShrunkIsolated(g', h, x);
      BareStays(g', h, At(k, j));
      BaresCompose(g, g', h, k, j);
    }
  }

  /** Pins bared and isolated by one turn and by the rest of the loop are
      bared and isolated by both. */
  lemma BaresCompose(g: Graph, g': Graph, h: Graph, k: nat, j: nat)
    requires g.GraphImpl? && k < |g.nodes| && j < |g.nodes[k].pins| && Relinked(g, g')
    requires Isolated(h, g.nodes[k].pins[j].pinId) && PinAtLoc(h, At(k, j)) == PinAtLoc(g', At(k, j))
    requires PinAtLoc(g', At(k, j)) == Bare(PinAtLoc(g, At(k, j)))
    requires forall i :: j + 1 <= i < |g'.nodes[k].pins| ==>
      Isolated(h, g'.nodes[k].pins[i].pinId) && PinAtLoc(h, At(k, i)) == Bare(PinAtLoc(g', At(k, i)))
    ensures forall i :: j <= i < |g.nodes[k].pins| ==>
      Isolated(h, g.nodes[k].pins[i].pinId) && PinAtLoc(h, At(k, i)) == Bare(PinAtLoc(g, At(k, i)))
  {
    RelinkedIds(g, g');
    forall i | j < i < |g.nodes[k].pins|
      ensures Isolated(h, g.nodes[k].pins[i].pinId) && PinAtLoc(h, At(k, i)) == Bare(PinAtLoc(g, At(k, i)))
    {
      assert PinAtLoc(g', At(k, i)).PinId() == PinAtLoc(g, At(k, i)).PinId();
      assert Bare(PinAtLoc(g', At(k, i))) == Bare(PinAtLoc(g, At(k, i)));
    }
  }

  /** One turn of the pin loop forgets the pin's id in `activeIdCache` and
      `pinIdToNodeCache`, and leaves in the pin-id cache, besides what was
      there, only ids the pin's own lists named, or -1; never the pin's id. */
  lemma ClearTurnCaches(g: Graph, k: nat, j: nat)
    requires WF(g) && k < |g.nodes| && j < |g.nodes[k].pins|
    ensures var h, p := ClearTurn(g, k, j), g.nodes[k].pins[j];
      && h.activeIds == g.activeIds - {p.pinId}
      && h.pinNodeCache == g.pinNodeCache - {p.pinId}
      && forall key :: key in h.pinIdCache ==>
           key != p.pinId && (key in g.pinIdCache || key in p.toLinks || key in p.fromLinks || key == -1)
  {
    ClearLinksKeys(g, Held(k, j));
  }

  /** An id no list names and no cache holds stays out of the caches for
      the rest of the pin loop: the lookups only ask for ids the lists name.
      Only -1, which a lookup that misses caches, may come back. */
  lemma {:induction false} ClearHeldPinsKeepsOut(g: Graph, k: nat, j: nat, x: int)
    requires WF(g) && k < |g.nodes| && j <= |g.nodes[k].pins|
    requires Isolated(g, x) && x !in g.activeIds && x !in g.pinNodeCache && (x != -1 ==> x !in g.pinIdCache)
    ensures var h := ClearHeldPins(g, k, j);
      x !in h.activeIds && x !in h.pinNodeCache && (x != -1 ==> x !in h.pinIdCache)
    decreases |g.nodes[k].pins| - j
  {
    hide ClearTurn;
    if j < |g.nodes[k].pins| {
      hide WF;
      var g' := ClearTurn(g, k, j);
      ClearHeldPinsUnfold(g, k, j);
      ClearTurnWF(g, k, j);
      ClearTurnCaches(g, k, j);
      ClearTurnShrinks(g, k, j);
      ShrunkIsolated(g, g', x);
      assert x !in ToIds(PinAtLoc(g, At(k, j))) && x !in FromIds(PinAtLoc(g, At(k, j)));
      ClearHeldPinsKeepsOut(g', k, j + 1, x);
    } else {
      assert ClearHeldPins(g, k, j) == g;
    }
  }

  /** The pin loop leaves the id of every pin it walks out of
      `activeIdCache`, `pinIdToNodeCache` and, unless it is -1, `pinIdCache`. */
  lemma {:induction false} ClearHeldPinsUncaches(g: Graph, k: nat, j: nat)
    requires WF(g) && k < |g.nodes| && j <= |g.nodes[k].pins|
    ensures var h := ClearHeldPins(g, k, j);
      forall i :: j <= i < |g.nodes[k].pins| ==>
        var x := g.nodes[k].pins[i].pinId;
        x !in h.activeIds && x !in h.pinNodeCache && (x != -1 ==> x !in h.pinIdCache)
    decreases |g.nodes[k].pins| - j
  {
    hide ClearTurn;
    if j < |g.nodes[k].pins| {
      hide WF;
      var x := g.nodes[k].pins[j].pinId;
      var g' := ClearTurn(g, k, j);
      ClearHeldPinsUnfold(g, k, j);
      ClearTurnWF(g, k, j);
      ClearTurnCaches(g, k, j);
      ClearTurnIsolates(g, k, j);
      ClearHeldPinsUncaches(g', k, j + 1);
      ClearHeldPinsKeepsOut(g', k, j + 1, x);
      RelinkedIds(g, g');
      forall i | j < i < |g.nodes[k].pins|
        ensures g'.nodes[k].pins[i].pinId == g.nodes[k].pins[i].pinId
      {
        assert PinAtLoc(g', At(k, i)).PinId() == PinAtLoc(g, At(k, i)).PinId();
      }
    }
  }

  /** The same loop keeps every link between pins it does not walk. */
  lemma {:induction false} ClearHeldPinsKeeps(g: Graph, k: nat, j: nat)
    requires WF(g) && k < |g.nodes| && j <= |g.nodes[k].pins|
    ensures var h := ClearHeldPins(g, k, j);
      forall a, b :: !FromOn(a, k, j) && !FromOn(b, k, j) && PinAtLoc(g, a).PinAdapter? && PinAtLoc(g, b).PinAdapter? ==>
        Out(h, a, b) == Out(g, a, b)
    decreases |g.nodes[k].pins| - j
  {
    hide ClearTurn;
    if j < |g.nodes[k].pins| {
      hide WF;
      var g' := ClearTurn(g, k, j);
      ClearHeldPinsUnfold(g, k, j);
      ClearTurnKeeps(g, k, j);
      ClearHeldPinsKeeps(g', k, j + 1);
      KeptCompose(g, g', ClearHeldPins(g', k, j + 1), k, j);
    } else {
      assert ClearHeldPins(g, k, j) == g;
    }
  }

  /** Links kept by one turn and by the rest of the loop are kept by both. */
  lemma KeptCompose(g: Graph, g': Graph, h: Graph, k: nat, j: nat)
    requires forall l :: PinAtLoc(g', l).PinAdapter? == PinAtLoc(g, l).PinAdapter?
    requires forall a, b :: a != At(k, j) && b != At(k, j) && PinAtLoc(g, a).PinAdapter? && PinAtLoc(g, b).PinAdapter? ==>
               Out(g', a, b) == Out(g, a, b)
    requires forall a, b :: !FromOn(a, k, j + 1) && !FromOn(b, k, j + 1) && PinAtLoc(g', a).PinAdapter? && PinAtLoc(g', b).PinAdapter? ==>
               Out(h, a, b) == Out(g', a, b)
    ensures forall a, b :: !FromOn(a, k, j) && !FromOn(b, k, j) && PinAtLoc(g, a).PinAdapter? && PinAtLoc(g, b).PinAdapter? ==>
              Out(h, a, b) == Out(g, a, b)
  {
    forall a, b | !FromOn(a, k, j) && !FromOn(b, k, j) && PinAtLoc(g, a).PinAdapter? && PinAtLoc(g, b).PinAdapter?
      ensures Out(h, a, b) == Out(g, a, b)
    {
      assert Out(h, a, b) == Out(g', a, b);
    }
  }

  // ---------------------------------------------------- leaving the list

  /** Where a location of the list stood before the node at `k` left it. */
  function Shift(l: Loc, k: nat): (m: Loc)
    ensures m.At? == l.At? && (m.At? ==> m.k != k && m.j == l.j)
  {
    if l.At? && l.k >= k then At(l.k + 1, l.j) else l
  }

  /** Position `i` of the shortened list was position `Kept(i, k)` before. */
  function Kept(i: nat, k: nat): (i': nat)
    ensures i' != k
  {
    if i < k then i else i + 1
  }

  /** The shortened list holds the other nodes in order, and every pin of it
      is the pin at the shifted location. */
  lemma DropPinAt(g: Graph, k: nat)
    requires g.GraphImpl? && k < |g.nodes|
    ensures forall i :: 0 <= i < |Drop(g, k).nodes| ==> Drop(g, k).nodes[i] == g.nodes[Kept(i, k)]
    ensures forall l :: PinAtLoc(Drop(g, k), l) == PinAtLoc(g, Shift(l, k))
  {
    var d := Drop(g, k);
    assert forall i :: 0 <= i < |d.nodes| ==> d.nodes[i] == g.nodes[Kept(i, k)];
  }

  /** With distinct identities, every other node object is found one place
      earlier past `k`, and the node at `k` is no longer found. */
  lemma DropIndexOfOid(nodes: seq<LiveNode>, k: nat)
    requires OidsUnique(nodes) && k < |nodes|
    ensures var d := nodes[..k] + nodes[k + 1..];
      && OidsUnique(d)
      && forall o :: IndexOfOid(d, o) ==
           var i := IndexOfOid(nodes, o);
           if i == -1 || i == k then -1 else if i < k then i else i - 1
  {
    var d := nodes[..k] + nodes[k + 1..];
    assert forall i :: 0 <= i < |d| ==> d[i] == nodes[Kept(i, k)];
    assert OidsUnique(d) by {
      forall a, b | 0 <= a < b < |d| ensures d[a].oid != d[b].oid {
        assert Kept(a, k) < Kept(b, k);
      }
    }
    forall o ensures IndexOfOid(d, o) == var i := IndexOfOid(nodes, o); if i == -1 || i == k then -1 else if i < k then i else i - 1 {
      DropIndexOf(nodes, k, o);
    }
  }

  /** `DropIndexOfOid` for one node object. */
  lemma DropIndexOf(nodes: seq<LiveNode>, k: nat, o: nat)
    requires OidsUnique(nodes) && k < |nodes|
    ensures var d, i := nodes[..k] + nodes[k + 1..], IndexOfOid(nodes, o);
      IndexOfOid(d, o) == if i == -1 || i == k then -1 else if i < k then i else i - 1
  {
    var d := nodes[..k] + nodes[k + 1..];
    assert forall i :: 0 <= i < |d| ==> d[i] == nodes[Kept(i, k)];
    var i := IndexOfOid(nodes, o);
    if i != -1 && i != k {
      var i' := if i < k then i else i - 1;
      assert d[i'] == nodes[i];
      assert OidsUnique(d) by {
        forall a, b | 0 <= a < b < |d| ensures d[a].oid != d[b].oid {
          assert Kept(a, k) < Kept(b, k);
        }
      }
      IndexOfOidAt(d, i');
    } else {
      forall a | 0 <= a < |d| ensures d[a].oid != o {
        assert d[a] == nodes[Kept(a, k)];
        if i == k {
          assert Kept(a, k) != k;
        }
      }
    }
  }

  /** Dropping a node keeps the other ids distinct. */
  lemma DropIdsDistinct(nodes: seq<LiveNode>, k: nat)
    requires IdsDistinct(nodes) && k < |nodes|
    ensures IdsDistinct(nodes[..k] + nodes[k + 1..])
  {
    var d := nodes[..k] + nodes[k + 1..];
    assert forall i :: 0 <= i < |d| ==> d[i] == nodes[Kept(i, k)];
    forall a, b | 0 <= a < b < |d| ensures d[a].nodeId != d[b].nodeId {
      assert Kept(a, k) < Kept(b, k);
    }
    forall k1, j1, k2, j2 |
      0 <= k1 < |d| && 0 <= j1 < |d[k1].pins| && 0 <= k2 < |d| && 0 <= j2 < |d[k2].pins| &&
      d[k1].pins[j1].pinId == d[k2].pins[j2].pinId
      ensures k1 == k2 && j1 == j2
    {
      assert nodes[Kept(k1, k)].pins[j1].pinId == nodes[Kept(k2, k)].pins[j2].pinId;
    }
    forall k1, k2, j2 | 0 <= k1 < |d| && 0 <= k2 < |d| && 0 <= j2 < |d[k2].pins|
      ensures d[k1].nodeId != d[k2].pins[j2].pinId
    {
      assert nodes[Kept(k1, k)].nodeId != nodes[Kept(k2, k)].pins[j2].pinId;
    }
  }

  /** Dropping a node loses exactly its id from the node ids. */
  lemma DropNodeIds(nodes: seq<LiveNode>, k: nat)
    requires IdsDistinct(nodes) && k < |nodes|
    ensures forall x :: x in NodeIds(nodes[..k] + nodes[k + 1..]) <==> x in NodeIds(nodes) && x != nodes[k].nodeId
  {
    var d := nodes[..k] + nodes[k + 1..];
    assert forall i :: 0 <= i < |d| ==> d[i] == nodes[Kept(i, k)];
    forall x | x in NodeIds(d) ensures x in NodeIds(nodes) && x != nodes[k].nodeId {
      var i :| 0 <= i < |d| && d[i].nodeId == x;
      assert nodes[Kept(i, k)].nodeId == x;
    }
    forall x | x in NodeIds(nodes) && x != nodes[k].nodeId ensures x in NodeIds(d) {
      var i :| 0 <= i < |nodes| && nodes[i].nodeId == x;
      var i' := if i < k then i else i - 1;
      assert d[i'].nodeId == x;
    }
  }

  /** Dropping a node loses exactly its pins' ids from the pin ids. */
  lemma DropPinIds(nodes: seq<LiveNode>, k: nat)
    requires IdsDistinct(nodes) && k < |nodes|
    ensures forall x :: x in PinIds(nodes[..k] + nodes[k + 1..]) <==>
              x in PinIds(nodes) && forall j :: 0 <= j < |nodes[k].pins| ==> nodes[k].pins[j].pinId != x
  {
    DroppedPinIdsKept(nodes, k);
    KeptPinIdsDropped(nodes, k);
  }

  /** Every pin id of the shortened list is an id of the list that no pin
      of the dropped node carries. */
  lemma DroppedPinIdsKept(nodes: seq<LiveNode>, k: nat)
    requires IdsDistinct(nodes) && k < |nodes|
    ensures forall x :: x in PinIds(nodes[..k] + nodes[k + 1..]) ==>
              x in PinIds(nodes) && forall j :: 0 <= j < |nodes[k].pins| ==> nodes[k].pins[j].pinId != x
  {
    var d := nodes[..k] + nodes[k + 1..];
    forall x | x in PinIds(d) ensures x in PinIds(nodes) && forall j :: 0 <= j < |nodes[k].pins| ==> nodes[k].pins[j].pinId != x {
      var i, j :| 0 <= i < |d| && 0 <= j < |d[i].pins| && d[i].pins[j].pinId == x;
      assert d[i] == nodes[Kept(i, k)];
      assert nodes[Kept(i, k)].pins[j].pinId == x;
    }
  }

  /** Every pin id of the list that no pin of the dropped node carries is a
      pin id of the shortened list. */
  lemma KeptPinIdsDropped(nodes: seq<LiveNode>, k: nat)
    requires k < |nodes|
    ensures forall x :: x in PinIds(nodes) && (forall j :: 0 <= j < |nodes[k].pins| ==> nodes[k].pins[j].pinId != x) ==>
              x in PinIds(nodes[..k] + nodes[k + 1..])
  {
    var d := nodes[..k] + nodes[k + 1..];
    forall x | x in PinIds(nodes) && (forall j :: 0 <= j < |nodes[k].pins| ==> nodes[k].pins[j].pinId != x) ensures x in PinIds(d) {
      var i, j :| 0 <= i < |nodes| && 0 <= j < |nodes[i].pins| && nodes[i].pins[j].pinId == x;
      var i' := if i < k then i else i - 1;
      assert d[i'] == nodes[i];
      assert d[i'].pins[j].pinId == x;
    }
  }

  /** The node-id cache stays right about every id still carried: an entry
      for such an id never named the dropped node, which carries another. */
  lemma DropNodeCache(g: Graph, k: nat)
    requires g.GraphImpl? && k < |g.nodes| && Coherent(g) && IdsDistinct(g.nodes)
    ensures NodeCacheCoherent(Drop(g, k), {})
  {
    var d := Drop(g, k);
    DropNodeIds(g.nodes, k);
    assert OidsUnique(g.nodes) && NodeCacheCoherent(g, {});
    hide Coherent, CoherentOff, IdsDistinct, PinCacheCoherent, OwnerCacheCoherent;
    forall key | key in d.nodeIdCache && key >= 0 && key !in {} && key in NodeIds(d.nodes)
      ensures NodeOf(d.nodes, d.nodeIdCache[key]).NodeId() == key
    {
      var o := g.nodeIdCache[key];
      assert key in NodeIds(g.nodes) && key != g.nodes[k].nodeId;
      assert NodeOf(g.nodes, o).NodeId() == key;
      assert IndexOfOid(g.nodes, o) != k;
      DropNodeOf(g.nodes, k, o);
    }
  }

  /** The pin-id cache stays right about every pin id still carried: an
      entry for such an id never named a pin of the dropped node. */
  lemma DropPinCache(g: Graph, k: nat)
    requires g.GraphImpl? && k < |g.nodes| && Coherent(g) && IdsDistinct(g.nodes)
    ensures PinCacheCoherent(Drop(g, k), {})
  {
    var d := Drop(g, k);
    DropPinIds(g.nodes, k);
    assert OidsUnique(g.nodes) && PinCacheCoherent(g, {});
    hide Coherent, CoherentOff, IdsDistinct, NodeCacheCoherent, OwnerCacheCoherent;
    forall key | key in d.pinIdCache && key >= 0 && key !in {} && key in PinIds(d.nodes)
      ensures PinOf(d.nodes, d.pinIdCache[key]).pin.PinId() == key
    {
      var ref := g.pinIdCache[key];
      assert key in PinIds(g.nodes);
      var at := PinOf(g.nodes, ref);
      assert at.pin.PinId() == key;
      assert at.loc.k != k;
      DropPinOf(g.nodes, k, ref);
    }
  }

  /** With distinct identities, a cache entry naming a pin of a node other
      than the one at `k` names the same pin once that one has left the list. */
  lemma DropPinOf(nodes: seq<LiveNode>, k: nat, ref: PinRef)
    requires OidsUnique(nodes) && k < |nodes|
    requires PinOf(nodes, ref).loc.At? && PinOf(nodes, ref).loc.k != k
    ensures PinOf(nodes[..k] + nodes[k + 1..], ref).pin == PinOf(nodes, ref).pin
  {
    DropNodeOf(nodes, k, ref.owner);
  }

  /** The pin-to-node cache stays right about every pin id still carried. */
  lemma DropOwnerCache(g: Graph, k: nat)
    requires g.GraphImpl? && k < |g.nodes| && Coherent(g) && IdsDistinct(g.nodes)
    ensures OwnerCacheCoherent(Drop(g, k), {})
  {
    var d := Drop(g, k);
    DropPinIds(g.nodes, k);
    assert OidsUnique(g.nodes) && OwnerCacheCoherent(g, {});
    hide Coherent, CoherentOff, IdsDistinct, NodeCacheCoherent, PinCacheCoherent;
    forall key | key in d.pinNodeCache && key >= 0 && key !in {} && key in PinIds(d.nodes)
      ensures var m := NodeOf(d.nodes, d.pinNodeCache[key]);
              m.NodeAdapter? && exists j :: 0 <= j < |m.pins| && m.pins[j].pinId == key
    {
      var o := g.pinNodeCache[key];
      var m := NodeOf(g.nodes, o);
      assert key in PinIds(g.nodes);
      var j :| 0 <= j < |m.pins| && m.pins[j].pinId == key;
      var i := IndexOfOid(g.nodes, o);
      assert m == g.nodes[i];
      assert i != k;
      DropNodeOf(g.nodes, k, o);
    }
  }

  /** With distinct identities, a node object other than the one at `k` is
      found the same way once that one has left the list. */
  lemma DropNodeOf(nodes: seq<LiveNode>, k: nat, o: nat)
    requires OidsUnique(nodes) && k < |nodes| && IndexOfOid(nodes, o) != k
    ensures NodeOf(nodes[..k] + nodes[k + 1..], o) == NodeOf(nodes, o)
  {
    var d := nodes[..k] + nodes[k + 1..];
    DropIndexOf(nodes, k, o);
    var i := IndexOfOid(nodes, o);
    var i' := if i == -1 then -1 else if i < k then i else i - 1;
    assert IndexOfOid(d, o) == i';
    hide OidsUnique, IndexOfOid;
    assert NodeOf(d, o) == if i' == -1 then EmptyNode else d[i'];
    assert NodeOf(nodes, o) == if i == -1 then EmptyNode else nodes[i];
    if i != -1 {
      assert d[i'] == nodes[Kept(i', k)];
    }
  }

  /** Dropping a node keeps the caches right. */
  lemma DropCoherent(g: Graph, k: nat)
    requires g.GraphImpl? && k < |g.nodes| && Coherent(g) && IdsDistinct(g.nodes)
    ensures Coherent(Drop(g, k))
  {
    DropIndexOfOid(g.nodes, k);
    DropPinAt(g, k);
    DropNodeCache(g, k);
    DropPinCache(g, k);
    DropOwnerCache(g, k);
  }

  /** A well-formed graph stays well formed when a node none of whose pins
      any list names leaves it; every remaining pin is the pin at the shifted
      location. */
  lemma DropWF(g: Graph, k: nat)
    requires WF(g) && k < |g.nodes|
    requires forall j :: 0 <= j < |g.nodes[k].pins| ==> Isolated(g, g.nodes[k].pins[j].pinId)
    ensures WF(Drop(g, k))
    ensures forall l :: PinAtLoc(Drop(g, k), l) == PinAtLoc(g, Shift(l, k))
  {
    var d := Drop(g, k);
    DropPinAt(g, k);
    DropIdsDistinct(g.nodes, k);
    DropCoherent(g, k);
    DropPinIds(g.nodes, k);
    assert d.Nodes() == d.nodes == g.nodes[..k] + g.nodes[k + 1..] && g.Nodes() == g.nodes;
    forall l, x | x in ToIds(PinAtLoc(d, l)) ensures x in PinIds(d.nodes) {
      assert x in ToIds(PinAtLoc(g, Shift(l, k)));
      assert x in PinIds(g.nodes);
      forall j | 0 <= j < |g.nodes[k].pins| ensures g.nodes[k].pins[j].pinId != x {
        assert Isolated(g, g.nodes[k].pins[j].pinId);
        assert g.nodes[k].pins[j].pinId !in ToIds(PinAtLoc(g, Shift(l, k)));
      }
    }
    forall l, x | x in FromIds(PinAtLoc(d, l)) ensures x in PinIds(d.nodes) {
      assert x in FromIds(PinAtLoc(g, Shift(l, k)));
      assert x in PinIds(g.nodes);
      forall j | 0 <= j < |g.nodes[k].pins| ensures g.nodes[k].pins[j].pinId != x {
        assert Isolated(g, g.nodes[k].pins[j].pinId);
        assert g.nodes[k].pins[j].pinId !in FromIds(PinAtLoc(g, Shift(l, k)));
      }
    }
    forall a, b | PinAtLoc(d, a).PinAdapter? && PinAtLoc(d, b).PinAdapter? ensures Out(d, a, b) == In(d, a, b) {
      assert Out(d, a, b) == Out(g, Shift(a, k), Shift(b, k));
      assert In(d, a, b) == In(g, Shift(a, k), Shift(b, k));
    }
  }

  // ------------------------------------------------- removeNode, end to end

  /** `removeNode` on a node of a well-formed graph that does not veto, in
      its two stages: the pin loop and forgetting the node id give `f`, which
      is well formed, with the node's pins named by no list and every other
      link kept; dropping the node from `f` gives the result. */
  lemma RemoveListedStages(g: Graph, n: Node) returns (f: Graph)
    requires WF(g) && Listed(g, n) && OnRemove(Live(g, n))
    ensures var k := IndexOfOid(g.nodes, n.oid);
      && WF(f) && Relinked(g, f) && k < |f.nodes|
      && RemoveNode(g, n).graph == Drop(f, k) && RemoveNode(g, n).yes
      && f.nodes[k].nodeId == g.nodes[k].nodeId
      && (forall j :: 0 <= j < |g.nodes[k].pins| ==>
            f.nodes[k].pins[j].pinId == g.nodes[k].pins[j].pinId && Isolated(f, g.nodes[k].pins[j].pinId))
      && (forall a, b :: !FromOn(a, k, 0) && !FromOn(b, k, 0) && PinAtLoc(g, a).PinAdapter? && PinAtLoc(g, b).PinAdapter? ==>
            Out(f, a, b) == Out(g, a, b))
  {
    hide ClearTurn, ClearLinks;
    var k := IndexOfOid(g.nodes, n.oid);
    var h := ClearHeldPins(g, k, 0);
    ClearHeldPinsWF(g, k, 0);
    ClearHeldPinsBares(g, k, 0);
    ClearHeldPinsKeeps(g, k, 0);
    RelinkedIds(g, h);
    f := Forget(h, g.nodes[k].nodeId);
    ForgetWF(h, g.nodes[k].nodeId);
    RelinkedTrans(g, h, f);
    forall j | 0 <= j < |g.nodes[k].pins|
      ensures f.nodes[k].pins[j].pinId == g.nodes[k].pins[j].pinId
    {
      assert PinAtLoc(h, At(k, j)).PinId() == PinAtLoc(g, At(k, j)).PinId();
    }
  }

  /** `removeNode` on a node of a well-formed graph that does not veto: the
      answer is true and the graph stays well formed; the node's id and its
      pins' ids are no longer carried, no remaining link names a removed pin,
      and the caches have forgotten the removed pins: `activeIdCache` and
      `pinIdToNodeCache` hold none of their ids, `pinIdCache` none but -1
      (which a later pin's lookup that misses caches), and `hasPin` answers
      false for each. */
  lemma RemoveNodeWF(g: Graph, n: Node)
    requires WF(g) && Listed(g, n) && OnRemove(Live(g, n))
    ensures var r := RemoveNode(g, n);
      var k := IndexOfOid(g.nodes, n.oid);
      && r.yes && WF(r.graph)
      && g.nodes[k].nodeId !in NodeIds(r.graph.nodes)
      && (forall j :: 0 <= j < |g.nodes[k].pins| ==>
            g.nodes[k].pins[j].pinId !in PinIds(r.graph.nodes) && Isolated(r.graph, g.nodes[k].pins[j].pinId))
      && (forall j :: 0 <= j < |g.nodes[k].pins| ==>
            var x := g.nodes[k].pins[j].pinId;
            && x !in r.graph.activeIds && x !in r.graph.pinNodeCache
            && (x != -1 ==> x !in r.graph.pinIdCache)
            && !HasPin(r.graph, x).yes)
  {
    hide ClearTurn, ClearLinks, ClearHeldPins, RemoveNode, WF, Isolated;
    var k := IndexOfOid(g.nodes, n.oid);
    RemoveNodeKeepsWF(g, n);
    RemovedPinsUncached(g, n);
    var d := RemoveNode(g, n).graph;
    forall j | 0 <= j < |g.nodes[k].pins| ensures !HasPin(d, g.nodes[k].pins[j].pinId).yes {
      UnheldPinNotFound(d, g.nodes[k].pins[j].pinId);
    }
  }

  /** The list half of `RemoveNodeWF`. */
  lemma RemoveNodeKeepsWF(g: Graph, n: Node)
    requires WF(g) && Listed(g, n) && OnRemove(Live(g, n))
    ensures var r := RemoveNode(g, n);
      var k := IndexOfOid(g.nodes, n.oid);
      && r.yes && WF(r.graph)
      && g.nodes[k].nodeId !in NodeIds(r.graph.nodes)
      && (forall j :: 0 <= j < |g.nodes[k].pins| ==>
            g.nodes[k].pins[j].pinId !in PinIds(r.graph.nodes) && Isolated(r.graph, g.nodes[k].pins[j].pinId))
  {
    hide ClearTurn, ClearLinks, ClearHeldPins, RemoveNode, WF;
    var k := IndexOfOid(g.nodes, n.oid);
    var f := RemoveListedStages(g, n);
    WFDistinct(f);
    RelinkedIds(g, f);
    DropWF(f, k);
    DropNodeIds(f.nodes, k);
    DropPinIds(f.nodes, k);
    RemovedPinsGone(g, f, Drop(f, k), k);
  }

  /** In a well-formed graph, `hasPin` answers false for an id no pin
      carries and the pin-id cache does not hold. */
  lemma UnheldPinNotFound(g: Graph, x: int)
    requires WF(g) && x !in PinIds(g.nodes) && (x != -1 ==> x !in g.pinIdCache)
    ensures !HasPin(g, x).yes
  {
    WFDistinct(g);
    assert NodesCoherent(g.nodes);
  }

  /** The cache half of `RemoveNodeWF`: the pin loop forgets every removed
      pin's id, and forgetting the node's id and dropping the node touch no
      pin cache. */
  lemma RemovedPinsUncached(g: Graph, n: Node)
    requires WF(g) && Listed(g, n) && OnRemove(Live(g, n))
    ensures var r := RemoveNode(g, n);
      var k := IndexOfOid(g.nodes, n.oid);
      forall j :: 0 <= j < |g.nodes[k].pins| ==>
        var x := g.nodes[k].pins[j].pinId;
        x !in r.graph.activeIds && x !in r.graph.pinNodeCache && (x != -1 ==> x !in r.graph.pinIdCache)
  {
    hide ClearTurn, ClearLinks, WF;
    var k := IndexOfOid(g.nodes, n.oid);
    ClearHeldPinsUncaches(g, k, 0);
  }

  /** `removeNode` on a node of a well-formed graph that does not veto keeps
      every link between two remaining pins, as often as before, and leaves
      the remaining pins otherwise unchanged; locations past the node move
      one node up. */
  lemma RemoveNodeKeepsLinks(g: Graph, n: Node)
    requires WF(g) && Listed(g, n) && OnRemove(Live(g, n))
    ensures var r := RemoveNode(g, n);
      var k := IndexOfOid(g.nodes, n.oid);
      && (forall a, b :: PinAtLoc(r.graph, a).PinAdapter? && PinAtLoc(r.graph, b).PinAdapter? ==>
            Out(r.graph, a, b) == Out(g, Shift(a, k), Shift(b, k)))
      && (forall l :: Bare(PinAtLoc(r.graph, l)) == Bare(PinAtLoc(g, Shift(l, k))))
  {
    hide ClearTurn, ClearLinks;
    var k := IndexOfOid(g.nodes, n.oid);
    var f := RemoveListedStages(g, n);
    var d := Drop(f, k);
    DropPinAt(f, k);
    RelinkedIds(g, f);
    forall a, b | PinAtLoc(d, a).PinAdapter? && PinAtLoc(d, b).PinAdapter?
      ensures Out(d, a, b) == Out(g, Shift(a, k), Shift(b, k))
    {
      assert Out(d, a, b) == Out(f, Shift(a, k), Shift(b, k));
      assert !FromOn(Shift(a, k), k, 0) && !FromOn(Shift(b, k), k, 0);
    }
  }

  /** The removed pins' ids, as `g` had them, are gone from the shortened list
      and named by none of its lists. */
  lemma RemovedPinsGone(g: Graph, f: Graph, d: Graph, k: nat)
    requires g.GraphImpl? && f.GraphImpl? && IdsDistinct(f.nodes) && k < |g.nodes| && k < |f.nodes|
    requires |f.nodes[k].pins| == |g.nodes[k].pins|
    requires forall j :: 0 <= j < |g.nodes[k].pins| ==>
               f.nodes[k].pins[j].pinId == g.nodes[k].pins[j].pinId && Isolated(f, g.nodes[k].pins[j].pinId)
    requires d == Drop(f, k)
    requires forall x :: x in PinIds(d.nodes) <==>
               x in PinIds(f.nodes) && forall j :: 0 <= j < |f.nodes[k].pins| ==> f.nodes[k].pins[j].pinId != x
    requires forall l :: PinAtLoc(d, l) == PinAtLoc(f, Shift(l, k))
    ensures forall j :: 0 <= j < |g.nodes[k].pins| ==>
              g.nodes[k].pins[j].pinId !in PinIds(d.nodes) && Isolated(d, g.nodes[k].pins[j].pinId)
  {
    forall j | 0 <= j < |g.nodes[k].pins|
      ensures g.nodes[k].pins[j].pinId !in PinIds(d.nodes) && Isolated(d, g.nodes[k].pins[j].pinId)
    {
      var x := g.nodes[k].pins[j].pinId;
      assert f.nodes[k].pins[j].pinId == x;
      forall l ensures x !in ToIds(PinAtLoc(d, l)) && x !in FromIds(PinAtLoc(d, l)) {
        assert PinAtLoc(d, l) == PinAtLoc(f, Shift(l, k));
      }
    }
  }

  /** Clearing a loose pin with no links changes no pin of the list. */
  lemma ClearUnlinkedLoose(g: Graph, p: LivePin)
    requires g.GraphImpl? && p.toLinks == [] && p.fromLinks == []
    ensures ClearLinks(g, Loose(p)).graph == g
  {
    assert DropAll(g, [], p.pinId, true) == g;
    assert DropAll(g, [], p.pinId, false) == g;
  }

  /** The pin loop over pins with no links only forgets their ids. */
  lemma {:induction false} ClearLoosePinsUnlinked(g: Graph, ps: seq<LivePin>)
    requires WF(g) && forall j :: 0 <= j < |ps| ==> ps[j].toLinks == [] && ps[j].fromLinks == []
    ensures WF(ClearLoosePins(g, ps)) && ClearLoosePins(g, ps).nodes == g.nodes
    decreases |ps|
  {
    hide ClearTurn, ClearLinks;
    if |ps| > 0 {
      ClearUnlinkedLoose(g, ps[0]);
      UncacheWF(g, ps[0].pinId);
      ClearLoosePinsUnlinked(Uncache(g, ps[0].pinId), ps[1..]);
    }
  }

  /** `removeNode` on a node the list does not hold, whose pins have no
      links (`INode.Empty` included), answers false and leaves the list as it
      was; a well-formed graph stays well formed. */
  lemma RemoveNodeUnlisted(g: Graph, n: Node)
    requires WF(g) && !Listed(g, n)
    requires forall j :: 0 <= j < |n.Pins()| ==> n.Pins()[j].toLinks == [] && n.Pins()[j].fromLinks == []
    ensures var r := RemoveNode(g, n);
      !r.yes && WF(r.graph) && r.graph.nodes == g.nodes
  {
    hide ClearTurn, ClearLinks;
    if OnRemove(Live(g, n)) {
      if n.EmptyNode? {
        ForgetWF(g, -1);
      } else {
        assert n.Pins() == n.pins;
        ClearLoosePinsUnlinked(g, n.pins);
        ForgetWF(ClearLoosePins(g, n.pins), n.nodeId);
      }
    }
  }
}
