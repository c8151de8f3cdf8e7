/** Links: the pin operations that resolve a pin id through a graph
    (`getTo(i, graph)`, `forEachTo(graph)`, `addLink(otherId, graph)`,
    `removeLink(otherId, graph)`, `isLinkedTo(otherId, graph)`,
    `clearLinks(graph)`, ...). The pin such a call is made on is a `Subject`:
    the sentinel, a pin the node list holds, or a pin object outside it. When
    the id resolves to the subject itself, both ends of the link are the same
    object, and the model updates that one object. */
module Links {
  import opened Base
  import opened Pins
  import opened Nodes
  import opened Graphs

  /** The pin a graph-resolving call is made on: `IPin.Empty`, pin `j` of the
      node at position `k` of the list, or a pin object the list does not hold. */
  datatype Subject = Sentinel | Held(k: nat, j: nat) | Loose(pin: LivePin)

  /** A held subject names a pin of the list. */
  predicate Valid(g: Graph, s: Subject)
  {
    s.Held? ==> g.GraphImpl? && s.k < |g.nodes| && s.j < |g.nodes[s.k].pins|
  }

  /** The pin at a location of the list; `IPin.Empty` for `Nowhere` or for a
      location the list does not have. */
  function PinAtLoc(g: Graph, l: Loc): (p: Pin)
    ensures p.PinAdapter? <==> l.At? && g.GraphImpl? && l.k < |g.nodes| && l.j < |g.nodes[l.k].pins|
  {
    if l.At? && g.GraphImpl? && l.k < |g.nodes| && l.j < |g.nodes[l.k].pins| then g.nodes[l.k].pins[l.j]
    else EmptyPin
  }

  /** Where a subject sits in the list: `Nowhere` unless it is held. */
  function LocOf(s: Subject): Loc
  {
    if s.Held? then At(s.k, s.j) else Nowhere
  }

  /** The subject's pin object in its current state. */
  function Current(g: Graph, s: Subject): (p: Pin)
    ensures Valid(g, s) ==> (p.EmptyPin? <==> s.Sentinel?)
  {
    match s
    case Sentinel => EmptyPin
    case Held(k, j) => PinAtLoc(g, At(k, j))
    case Loose(p) => p
  }

  /** The same nodes and pins exist in both graphs, at the same places. */
  predicate SameShape(g: Graph, h: Graph)
  {
    && g.GraphImpl? == h.GraphImpl?
    && (g.GraphImpl? ==>
          && |h.nodes| == |g.nodes|
          && forall k :: 0 <= k < |g.nodes| ==> |h.nodes[k].pins| == |g.nodes[k].pins|)
  }

  /** A pin with its link lists emptied: what a link edit cannot change. */
  function Bare(p: Pin): Pin
  {
    if p.PinAdapter? then p.(toLinks := [], fromLinks := []) else p
  }

  /** `h` is `g` with at most its pins replaced: the graph's other fields and
      every node's other fields are kept, and so is the shape. */
  ghost predicate PinsOnly(g: Graph, h: Graph)
  {
    && SameShape(g, h)
    && (g.GraphImpl? ==>
          && h == g.(nodes := h.nodes)
          && forall k :: 0 <= k < |g.nodes| ==> h.nodes[k].(pins := g.nodes[k].pins) == g.nodes[k])
  }

  /** `h` is `g` with only the link lists of the pins at `locs` changed:
      every other field of the graph, of every node and of every pin is kept. */
  ghost predicate LinksEditedAt(g: Graph, h: Graph, locs: set<Loc>)
  {
    && PinsOnly(g, h)
    && (forall l :: Bare(PinAtLoc(h, l)) == Bare(PinAtLoc(g, l)))
    && (forall l :: l !in locs ==> PinAtLoc(h, l) == PinAtLoc(g, l))
  }

  /** Editing links composes. */
  lemma LinksEditedTrans(a: Graph, b: Graph, c: Graph, l1: set<Loc>, l2: set<Loc>)
    requires LinksEditedAt(a, b, l1) && LinksEditedAt(b, c, l2)
    ensures LinksEditedAt(a, c, l1 + l2)
  {
  }

  /** A lookup keeps the shape of the list. */
  lemma FindPinShape(g: Graph, id: int)
    ensures SameShape(g, FindPin(g, id).graph)
    ensures forall l :: PinAtLoc(FindPin(g, id).graph, l).PinId() == PinAtLoc(g, l).PinId()
    ensures forall l :: ToIds(PinAtLoc(FindPin(g, id).graph, l)) == ToIds(PinAtLoc(g, l))
    ensures forall l :: FromIds(PinAtLoc(FindPin(g, id).graph, l)) == FromIds(PinAtLoc(g, l))
  {
    var f := FindPin(g, id);
    if g.GraphImpl? {
      forall k | 0 <= k < |g.nodes| ensures |f.graph.nodes[k].pins| == |g.nodes[k].pins| {
        assert Restamped(g.nodes[k], f.graph.nodes[k]);
      }
      forall l ensures PinAtLoc(f.graph, l).PinId() == PinAtLoc(g, l).PinId() &&
                       ToIds(PinAtLoc(f.graph, l)) == ToIds(PinAtLoc(g, l)) &&
                       FromIds(PinAtLoc(f.graph, l)) == FromIds(PinAtLoc(g, l)) {
        if l.At? && l.k < |g.nodes| && l.j < |g.nodes[l.k].pins| {
          RestampedKeepsLinks(g.nodes, f.graph.nodes, l.k, l.j);
        }
      }
    }
  }

  /** Restamping composes over whole lists. */
  lemma NodesRestampedTrans(a: seq<LiveNode>, b: seq<LiveNode>, c: seq<LiveNode>)
    requires NodesRestamped(a, b) && NodesRestamped(b, c)
    ensures NodesRestamped(a, c)
  {
    forall i | 0 <= i < |a| ensures Restamped(a[i], c[i]) {
      RestampedTrans(a[i], b[i], c[i]);
    }
  }

  /** Restamping never touches link lists. */
  lemma RestampedKeepsLinks(a: seq<LiveNode>, b: seq<LiveNode>, k: nat, j: nat)
    requires NodesRestamped(a, b) && k < |a| && j < |a[k].pins|
    ensures |b[k].pins| == |a[k].pins|
    ensures b[k].pins[j].toLinks == a[k].pins[j].toLinks && b[k].pins[j].fromLinks == a[k].pins[j].fromLinks
    ensures b[k].pins[j].pinId == a[k].pins[j].pinId
  {
    assert Restamped(a[k], b[k]);
    assert PinRestamped(a[k].pins[j], b[k].pins[j], a[k].nodeId);
  }

  /** The graph with pin `j` of the node at position `k` replaced by `p`. */
  function PutPin(g: Graph, k: nat, j: nat, p: LivePin): (h: Graph)
    requires g.GraphImpl? && k < |g.nodes| && j < |g.nodes[k].pins|
    ensures PinsOnly(g, h)
    ensures forall l :: PinAtLoc(h, l) == if l == At(k, j) then p else PinAtLoc(g, l)
  {
    g.(nodes := g.nodes[k := g.nodes[k].(pins := g.nodes[k].pins[j := p])])
  }

  /** A graph and a subject after a call that may have changed both. */
  datatype Placed = Placed(graph: Graph, subject: Subject)

  /** Writes the subject's new state back: into the list for a held pin, into
      the subject for a loose one. */
  function Store(g: Graph, s: Subject, p: LivePin): (r: Placed)
    requires Valid(g, s) && !s.Sentinel?
    ensures Valid(r.graph, r.subject) && Current(r.graph, r.subject) == p
    ensures LocOf(r.subject) == LocOf(s) && r.subject.Loose? == s.Loose?
  {
    match s
    case Held(k, j) => Placed(PutPin(g, k, j, p), s)
    case Loose(_) => Placed(g, Loose(p))
  }

  // ------------------------------------------------------------- resolving

  /** `getTo(i, graph)`: `graph.findPin(getTo(i))`, so an index out of range
      resolves -1, which is `IPin.Empty` with nothing looked up. */
  function GetToIn(g: Graph, p: Pin, i: int): (r: PinFound)
    ensures !(p.PinAdapter? && 0 <= i < |p.toLinks|) ==> r == PinFound(g, EmptyPin, Nowhere)
    ensures p.PinAdapter? && 0 <= i < |p.toLinks| ==> r == FindPin(g, p.toLinks[i])
    ensures Coherent(g) && p.PinAdapter? && 0 <= i < |p.toLinks| && p.toLinks[i] >= 0 &&
              p.toLinks[i] in PinIds(g.Nodes()) ==>
              r.pin.PinId() == p.toLinks[i]
  {
    FindPin(g, GetTo(p, i))
  }

  /** `getFrom(i, graph)`: `graph.findPin(getFrom(i))`. */
  function GetFromIn(g: Graph, p: Pin, i: int): (r: PinFound)
    ensures !(p.PinAdapter? && 0 <= i < |p.fromLinks|) ==> r == PinFound(g, EmptyPin, Nowhere)
    ensures p.PinAdapter? && 0 <= i < |p.fromLinks| ==> r == FindPin(g, p.fromLinks[i])
    ensures Coherent(g) && p.PinAdapter? && 0 <= i < |p.fromLinks| && p.fromLinks[i] >= 0 &&
              p.fromLinks[i] in PinIds(g.Nodes()) ==>
              r.pin.PinId() == p.fromLinks[i]
  {
    FindPin(g, GetFrom(p, i))
  }

  /** A graph after a run of lookups, and the pins they answered, in order. */
  datatype Visit = Visit(graph: Graph, pins: seq<Pin>)

  /** `forEach { iterator(graph.findPin(it)) }` over a list of ids: each id is
      looked up in turn, each lookup seeing the caches the earlier ones left.
      A negative id visits `IPin.Empty`; in a coherent graph an id some pin
      carries visits a pin carrying it. */
  function Resolve(g: Graph, ids: seq<int>): (r: Visit)
    ensures |r.pins| == |ids|
    ensures SameShape(g, r.graph)
    ensures g.GraphImpl? ==>
      && r.graph == g.(nodes := r.graph.nodes, pinIdCache := r.graph.pinIdCache)
      && NodesRestamped(g.nodes, r.graph.nodes)
    ensures g.EmptyGraph? ==> r.graph == g
    ensures forall i :: 0 <= i < |ids| && ids[i] < 0 ==> r.pins[i].EmptyPin?
    decreases |ids|
  {
    if |ids| == 0 then Visit(g, [])
    else
      var f := FindPin(g, ids[0]);
      var rest := Resolve(f.graph, ids[1..]);
      FindPinShape(g, ids[0]);
      assert g.GraphImpl? ==> NodesRestamped(g.nodes, rest.graph.nodes) by {
        if g.GraphImpl? {
          NodesRestampedTrans(g.nodes, f.graph.nodes, rest.graph.nodes);
        }
      }
      assert forall i :: 1 <= i < |ids| ==> ids[i] == ids[1..][i - 1];
      Visit(rest.graph, [f.pin] + rest.pins)
  }

  /** In a coherent graph every lookup of a run answers a pin carrying the id
      it was asked for, whenever some pin carries it, and the caches stay right. */
  lemma {:induction false} ResolveFinds(g: Graph, ids: seq<int>)
    ensures var r := Resolve(g, ids);
      Coherent(g) ==>
      && Coherent(r.graph)
      && forall i :: 0 <= i < |ids| && ids[i] >= 0 && ids[i] in PinIds(g.Nodes()) ==> r.pins[i].PinId() == ids[i]
    decreases |ids|
  {
    if |ids| > 0 && Coherent(g) {
      var f := FindPin(g, ids[0]);
      if g.GraphImpl? {
        RestampedKeepsIds(g.nodes, f.graph.nodes);
      }
      ResolveFinds(f.graph, ids[1..]);
      var r := Resolve(g, ids);
      var rest := Resolve(f.graph, ids[1..]);
      assert r.pins == [f.pin] + rest.pins;
      forall i | 0 <= i < |ids| && ids[i] >= 0 && ids[i] in PinIds(g.Nodes()) ensures r.pins[i].PinId() == ids[i] {
        if i > 0 {
          assert ids[i] == ids[1..][i - 1];
          assert r.pins[i] == rest.pins[i - 1];
        }
      }
    }
  }

  /** `forEachTo(graph) { }`: the pins `toLinks` names, looked up in list
      order; nothing on the sentinel. */
  function ForEachTo(g: Graph, p: Pin): (r: Visit)
    ensures p.EmptyPin? ==> r == Visit(g, [])
    ensures p.PinAdapter? ==> |r.pins| == |p.toLinks|
    ensures Coherent(g) && p.PinAdapter? ==>
      forall i :: 0 <= i < |p.toLinks| && p.toLinks[i] >= 0 && p.toLinks[i] in PinIds(g.Nodes()) ==>
        r.pins[i].PinId() == p.toLinks[i]
  {
    ResolveFinds(g, ToIds(p));
    Resolve(g, ToIds(p))
  }

  /** `forEachFrom(graph) { }`: the pins `fromLinks` names, looked up in list
      order; nothing on the sentinel. */
  function ForEachFrom(g: Graph, p: Pin): (r: Visit)
    ensures p.EmptyPin? ==> r == Visit(g, [])
    ensures p.PinAdapter? ==> |r.pins| == |p.fromLinks|
    ensures Coherent(g) && p.PinAdapter? ==>
      forall i :: 0 <= i < |p.fromLinks| && p.fromLinks[i] >= 0 && p.fromLinks[i] in PinIds(g.Nodes()) ==>
        r.pins[i].PinId() == p.fromLinks[i]
  {
    ResolveFinds(g, FromIds(p));
    Resolve(g, FromIds(p))
  }

  // ---------------------------------------------------------------- linking

  /** The graph and subject after a link call, and its integer result. */
  datatype Linking = Linking(graph: Graph, subject: Subject, index: int)

  /** `addLink(other)` on the subject, for the pin `other` found at `l`. When
      that pin is the subject itself, the one object gains its own id in both
      lists. */
  function LinkAt(g: Graph, s: Subject, l: Loc): (r: Linking)
    requires Valid(g, s) && !s.Sentinel? && PinAtLoc(g, l).PinAdapter?
    ensures Valid(r.graph, r.subject) && SameShape(g, r.graph)
    ensures LocOf(r.subject) == LocOf(s) && r.subject.Loose? == s.Loose? && !r.subject.Sentinel?
    ensures r.index == |Current(g, s).toLinks|
  {
    var self := Current(g, s);
    var other := PinAtLoc(g, l);
    if l == LocOf(s) then
      Linking(PutPin(g, l.k, l.j, self.(toLinks := self.toLinks + [self.pinId], fromLinks := self.fromLinks + [self.pinId])),
              s, |self.toLinks|)
    else
      var a := AddLink(self, other);
      var st := Store(PutPin(g, l.k, l.j, a.other), s, a.self);
      Linking(st.graph, st.subject, a.index)
  }

  /** `addLink(otherId, graph)`: resolve the id with `findPin`; when that gives
      `IPin.Empty` the answer is -1 and no link is recorded, otherwise it is
      `addLink(other)` on the resolved pin. The sentinel answers 0 without
      looking anything up. */
  function AddLinkById(g: Graph, s: Subject, otherId: int): (r: Linking)
    requires Valid(g, s)
    ensures Valid(r.graph, r.subject) && SameShape(g, r.graph)
    ensures LocOf(r.subject) == LocOf(s) && r.subject.Loose? == s.Loose? && r.subject.Sentinel? == s.Sentinel?
    ensures s.Sentinel? ==> r == Linking(g, s, 0)
    ensures !s.Sentinel? ==>
      var f := FindPin(g, otherId);
      && (r.index == -1 <==> f.pin.EmptyPin?)
      && (f.pin.EmptyPin? ==> r == Linking(f.graph, s, -1))
      && (f.pin.PinAdapter? ==> r == LinkAt(f.graph, s, f.loc))
  {
    if s.Sentinel? then Linking(g, s, 0)
    else
      var f := FindPin(g, otherId);
      FindPinShape(g, otherId);
      if f.loc.Nowhere? then Linking(f.graph, s, -1)
      else LinkAt(f.graph, s, f.loc)
  }

  /** Replacing pins composes. */
  lemma PinsOnlyTrans(a: Graph, b: Graph, c: Graph)
    requires PinsOnly(a, b) && PinsOnly(b, c)
    ensures PinsOnly(a, c)
  {
  }

  /** What `addLink(other)` does at `l`: the subject's `toLinks` gain the other
      pin's id and the other pin's `fromLinks` gain the subject's id, both at
      the end; no other list and no other field changes. */
  lemma LinkAtAppends(g: Graph, s: Subject, l: Loc)
    requires Valid(g, s) && !s.Sentinel? && PinAtLoc(g, l).PinAdapter?
    ensures var r := LinkAt(g, s, l);
      var self, other, now := Current(g, s), PinAtLoc(g, l), Current(r.graph, r.subject);
      && LinksEditedAt(g, r.graph, {l, LocOf(s)})
      && Bare(now) == Bare(self)
      && now.toLinks == self.toLinks + [other.pinId]
      && PinAtLoc(r.graph, l).fromLinks == other.fromLinks + [self.pinId]
      && (l != LocOf(s) ==> now.fromLinks == self.fromLinks && PinAtLoc(r.graph, l).toLinks == other.toLinks)
  {
    var self, other := Current(g, s), PinAtLoc(g, l);
    if l != LocOf(s) {
      var a := AddLink(self, other);
      var g1 := PutPin(g, l.k, l.j, a.other);
      var st := Store(g1, s, a.self);
      if s.Held? {
        PinsOnlyTrans(g, g1, st.graph);
      }
    }
  }

  /** The graph and subject after an unlink call, and its result. */
  datatype Unlinking = Unlinking(graph: Graph, subject: Subject, removed: bool)

  /** `removeLink(other)` on the subject, for the pin `other` found at `l`.
      When that pin is the subject itself, both removals apply to the one
      object. */
  function UnlinkAt(g: Graph, s: Subject, l: Loc): (r: Unlinking)
    requires Valid(g, s) && !s.Sentinel? && PinAtLoc(g, l).PinAdapter?
    ensures Valid(r.graph, r.subject) && SameShape(g, r.graph)
    ensures LocOf(r.subject) == LocOf(s) && r.subject.Loose? == s.Loose? && !r.subject.Sentinel?
  {
    var self := Current(g, s);
    var other := PinAtLoc(g, l);
    if l == LocOf(s) then
      var t := RemoveFirst(self.toLinks, self.pinId);
      var b := if t.removed then RemoveFirst(self.fromLinks, self.pinId) else Removal(self.fromLinks, false);
      Unlinking(PutPin(g, l.k, l.j, self.(toLinks := t.rest, fromLinks := b.rest)), s, b.removed)
    else
      var u := RemoveLink(self, other);
      var st := Store(PutPin(g, l.k, l.j, u.other), s, u.self);
      Unlinking(st.graph, st.subject, u.removed)
  }

  /** What `removeLink(other)` does at `l`: the first copy of the other pin's
      id leaves the subject's `toLinks`; only if there was one, the first copy
      of the subject's id leaves the other pin's `fromLinks`; the answer says
      whether both removals happened; no other list and no other field changes. */
  lemma UnlinkAtRemoves(g: Graph, s: Subject, l: Loc)
    requires Valid(g, s) && !s.Sentinel? && PinAtLoc(g, l).PinAdapter?
    ensures var r := UnlinkAt(g, s, l);
      var self, other, now := Current(g, s), PinAtLoc(g, l), Current(r.graph, r.subject);
      var there := other.pinId in self.toLinks;
      && LinksEditedAt(g, r.graph, {l, LocOf(s)})
      && Bare(now) == Bare(self)
      && (r.removed <==> there && self.pinId in other.fromLinks)
      && now.toLinks == RemoveFirst(self.toLinks, other.pinId).rest
      && PinAtLoc(r.graph, l).fromLinks == (if there then RemoveFirst(other.fromLinks, self.pinId).rest else other.fromLinks)
      && (l != LocOf(s) ==> now.fromLinks == self.fromLinks && PinAtLoc(r.graph, l).toLinks == other.toLinks)
  {
    if l == LocOf(s) {
      UnlinkSelf(g, s, l);
    } else {
      UnlinkOther(g, s, l);
      UnlinkOtherEdits(g, s, l);
    }
  }

  /** `UnlinkAtRemoves` when the pin found is the subject itself. */
  lemma UnlinkSelf(g: Graph, s: Subject, l: Loc)
    requires Valid(g, s) && !s.Sentinel? && PinAtLoc(g, l).PinAdapter? && l == LocOf(s)
    ensures var r := UnlinkAt(g, s, l);
      var self, now := Current(g, s), Current(r.graph, r.subject);
      var there := self.pinId in self.toLinks;
      && LinksEditedAt(g, r.graph, {l, LocOf(s)})
      && Bare(now) == Bare(self)
      && (r.removed <==> there && self.pinId in self.fromLinks)
      && now.toLinks == RemoveFirst(self.toLinks, self.pinId).rest
      && now.fromLinks == (if there then RemoveFirst(self.fromLinks, self.pinId).rest else self.fromLinks)
  {
  }

  /** The lists `UnlinkAtRemoves` promises when the pin found is another one. */
  lemma UnlinkOther(g: Graph, s: Subject, l: Loc)
    requires Valid(g, s) && !s.Sentinel? && PinAtLoc(g, l).PinAdapter? && l != LocOf(s)
    ensures var r := UnlinkAt(g, s, l);
      var self, other, now := Current(g, s), PinAtLoc(g, l), Current(r.graph, r.subject);
      var there := other.pinId in self.toLinks;
      && Bare(now) == Bare(self)
      && (r.removed <==> there && self.pinId in other.fromLinks)
      && now.toLinks == RemoveFirst(self.toLinks, other.pinId).rest
      && PinAtLoc(r.graph, l).fromLinks == (if there then RemoveFirst(other.fromLinks, self.pinId).rest else other.fromLinks)
      && now.fromLinks == self.fromLinks && PinAtLoc(r.graph, l).toLinks == other.toLinks
  {
  }

  /** The edit `UnlinkAtRemoves` promises when the pin found is another one. */
  lemma UnlinkOtherEdits(g: Graph, s: Subject, l: Loc)
    requires Valid(g, s) && !s.Sentinel? && PinAtLoc(g, l).PinAdapter? && l != LocOf(s)
    ensures LinksEditedAt(g, UnlinkAt(g, s, l).graph, {l, LocOf(s)})
  {
    var u := RemoveLink(Current(g, s), PinAtLoc(g, l));
    var g1 := PutPin(g, l.k, l.j, u.other);
    PutPinEdits(g, l.k, l.j, u.other);
    var st := Store(g1, s, u.self);
    assert UnlinkAt(g, s, l).graph == st.graph;
    if s.Held? {
      PutPinEdits(g1, s.k, s.j, u.self);
      LinksEditedTrans(g, g1, st.graph, {l}, {LocOf(s)});
    }
  }

  /** Replacing a pin by one that differs only in its links is a link edit there. */
  lemma PutPinEdits(g: Graph, k: nat, j: nat, p: LivePin)
    requires g.GraphImpl? && k < |g.nodes| && j < |g.nodes[k].pins| && Bare(p) == Bare(g.nodes[k].pins[j])
    ensures LinksEditedAt(g, PutPin(g, k, j, p), {At(k, j)})
  {
  }

  /** `removeLink(otherId, graph)`: resolve the id with `findPin`; false when
      that gives `IPin.Empty`, otherwise `removeLink(other)` on the resolved
      pin: drop the first copy of its id from `toLinks` and, only if there was
      one, the first copy of the subject's id from its `fromLinks`; true when
      both removals happened. The sentinel answers false. */
  function RemoveLinkById(g: Graph, s: Subject, otherId: int): (r: Unlinking)
    requires Valid(g, s)
    ensures Valid(r.graph, r.subject) && SameShape(g, r.graph)
    ensures LocOf(r.subject) == LocOf(s) && r.subject.Loose? == s.Loose? && r.subject.Sentinel? == s.Sentinel?
    ensures s.Sentinel? ==> r == Unlinking(g, s, false)
    ensures !s.Sentinel? ==>
      var f := FindPin(g, otherId);
      && (f.pin.EmptyPin? ==> r == Unlinking(f.graph, s, false))
      && (f.pin.PinAdapter? ==> r == UnlinkAt(f.graph, s, f.loc))
  {
    if s.Sentinel? then Unlinking(g, s, false)
    else
      var f := FindPin(g, otherId);
      FindPinShape(g, otherId);
      if f.loc.Nowhere? then Unlinking(f.graph, s, false)
      else UnlinkAt(f.graph, s, f.loc)
  }

  /** `isLinkedTo(otherId, graph)`: false when the id resolves to `IPin.Empty`,
      otherwise whether the resolved pin's id is among the subject's `toLinks`. */
  function IsLinkedToById(g: Graph, s: Subject, otherId: int): (r: Answer)
    requires Valid(g, s)
    ensures s.Sentinel? ==> r == Answer(g, false)
    ensures !s.Sentinel? ==> r.graph == FindPin(g, otherId).graph
    ensures r.yes ==> !s.Sentinel? && FindPin(g, otherId).pin.PinAdapter?
    ensures Coherent(g) && Valid(g, s) && otherId >= 0 && otherId in PinIds(g.Nodes()) ==>
      (r.yes <==> !s.Sentinel? && otherId in Current(g, s).toLinks)
  {
    if s.Sentinel? then Answer(g, false)
    else
      var f := FindPin(g, otherId);
      FindPinShape(g, otherId);
      if f.pin.EmptyPin? then Answer(f.graph, false)
      else Answer(f.graph, IsLinkedTo(Current(f.graph, s), f.pin))
  }

  /** `isLinkedFrom(otherId, graph)`: false when the id resolves to
      `IPin.Empty`, otherwise whether the resolved pin's `fromLinks` hold the
      subject's id. */
  function IsLinkedFromById(g: Graph, s: Subject, otherId: int): (r: Answer)
    requires Valid(g, s)
    ensures s.Sentinel? ==> r == Answer(g, false)
    ensures !s.Sentinel? ==> r.graph == FindPin(g, otherId).graph
    ensures r.yes ==> !s.Sentinel? && FindPin(g, otherId).pin.PinAdapter?
    ensures Coherent(g) && otherId >= 0 && otherId in PinIds(g.Nodes()) ==>
      var f := FindPin(g, otherId);
      && PinAtLoc(g, f.loc).PinId() == otherId
      && (r.yes <==> !s.Sentinel? && Current(g, s).pinId in PinAtLoc(g, f.loc).fromLinks)
  {
    var f := FindPin(g, otherId);
    FindPinShape(g, otherId);
    if s.Sentinel? then Answer(g, false)
    else if f.pin.EmptyPin? then Answer(f.graph, false)
    else Answer(f.graph, IsLinkedFrom(Current(f.graph, s), f.pin))
  }

  // --------------------------------------------------------------- clearing

  /** `fromLinks.remove(id)` (`back`) or `toLinks.remove(id)` on one pin. */
  function Dropped(p: Pin, id: int, back: bool): (q: Pin)
    ensures Bare(q) == Bare(p)
  {
    if p.EmptyPin? then p
    else if back then p.(fromLinks := RemoveFirst(p.fromLinks, id).rest)
    else p.(toLinks := RemoveFirst(p.toLinks, id).rest)
  }

  /** One step of `clearLinks`: `it.fromLinks.remove(id)` (`back`) or
      `it.toLinks.remove(id)` on the pin at `l`; nothing when `l` is `Nowhere`,
      which is where `IPin.Empty` comes from. */
  function DropAt(g: Graph, l: Loc, id: int, back: bool): (h: Graph)
    ensures PinsOnly(g, h)
    ensures forall l' :: PinAtLoc(h, l') == if l' == l then Dropped(PinAtLoc(g, l), id, back) else PinAtLoc(g, l')
  {
    var p := PinAtLoc(g, l);
    if p.EmptyPin? then g else PutPin(g, l.k, l.j, Dropped(p, id, back))
  }

  /** A loop of `clearLinks`: over `forEachTo(graph)` (`back`, dropping one
      copy of `id` from each resolved pin's `fromLinks`) or over
      `forEachFrom(graph)` (dropping it from their `toLinks`). */
  function DropAll(g: Graph, ids: seq<int>, id: int, back: bool): (h: Graph)
    ensures SameShape(g, h)
    ensures g.GraphImpl? ==> h == g.(nodes := h.nodes, pinIdCache := h.pinIdCache)
    ensures forall l :: PinAtLoc(h, l).PinId() == PinAtLoc(g, l).PinId()
    decreases |ids|
  {
    if |ids| == 0 then g
    else
      var f := FindPin(g, ids[0]);
      FindPinShape(g, ids[0]);
      DropAll(DropAt(f.graph, f.loc, id, back), ids[1..], id, back)
  }

  /** `clearLinks(graph)`: first drop the subject's id from the `fromLinks` of
      every pin its `toLinks` resolve to, then from the `toLinks` of every pin
      its `fromLinks` (as they are by then) resolve to, then empty both of its
      lists. A no-op on the sentinel. */
  function ClearLinks(g: Graph, s: Subject): (r: Placed)
    requires Valid(g, s)
    ensures Valid(r.graph, r.subject) && SameShape(g, r.graph)
    ensures LocOf(r.subject) == LocOf(s) && r.subject.Loose? == s.Loose? && r.subject.Sentinel? == s.Sentinel?
    ensures s.Sentinel? ==> r == Placed(g, s)
    ensures !s.Sentinel? ==>
      && Current(r.graph, r.subject).PinAdapter?
      && Current(r.graph, r.subject).pinId == Current(g, s).pinId
      && Current(r.graph, r.subject).toLinks == [] && Current(r.graph, r.subject).fromLinks == []
      && !HasToLinks(Current(r.graph, r.subject)) && !HasFromLinks(Current(r.graph, r.subject))
    ensures g.GraphImpl? ==> r.graph == g.(nodes := r.graph.nodes, pinIdCache := r.graph.pinIdCache)
  {
    if s.Sentinel? then Placed(g, s)
    else
      var self := Current(g, s);
      var g1 := DropAll(g, self.toLinks, self.pinId, true);
      var from := Current(g1, s).fromLinks;
      var g2 := DropAll(g1, from, self.pinId, false);
      var p := Current(g2, s);
      Store(g2, s, p.(toLinks := [], fromLinks := []))
  }
}
