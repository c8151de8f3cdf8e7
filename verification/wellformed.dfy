/** Well-formed graphs: the state the graph's operations are meant to keep.
    Ids are distinct and non-negative, the caches agree with the list, every
    link names a pin of the graph, and every link is recorded at both ends
    the same number of times. Under it, a lookup changes no pin, and the link
    operations change exactly the links they name. */
module Wellformed {
  import opened Base
  import opened Pins
  import opened Nodes
  import opened Graphs
  import opened Lifecycle
  import opened Links

  /** How many times the pin at `b` is named among the `toLinks` of the pin at `a`. */
  ghost function Out(g: Graph, a: Loc, b: Loc): nat
  {
    multiset(ToIds(PinAtLoc(g, a)))[PinAtLoc(g, b).PinId()]
  }

  /** How many times the pin at `a` is named among the `fromLinks` of the pin at `b`. */
  ghost function In(g: Graph, a: Loc, b: Loc): nat
  {
    multiset(FromIds(PinAtLoc(g, b)))[PinAtLoc(g, a).PinId()]
  }

  /** Every id in a link list is the id of a pin of the graph. */
  ghost predicate LinksClosed(g: Graph)
  {
    && (forall l, x :: x in ToIds(PinAtLoc(g, l)) ==> x in PinIds(g.Nodes()))
    && (forall l, x :: x in FromIds(PinAtLoc(g, l)) ==> x in PinIds(g.Nodes()))
  }

  /** Every link from `a` to `b` is recorded at `b` as often as at `a`. */
  ghost predicate LinksSymmetric(g: Graph)
  {
    forall a, b :: PinAtLoc(g, a).PinAdapter? && PinAtLoc(g, b).PinAdapter? ==> Out(g, a, b) == In(g, a, b)
  }

  /** A well-formed graph. */
  ghost predicate WF(g: Graph)
  {
    && g.GraphImpl? && g.hint >= 0
    && IdsDistinct(g.nodes) && Coherent(g)
    && LinksClosed(g) && LinksSymmetric(g)
  }

  /** `h` is `g` after lookups and link edits: the same node objects at the
      same places with the same ids and the same hint, and pins that differ
      at most in their links. */
  ghost predicate Relinked(g: Graph, h: Graph)
  {
    && SameShape(g, h)
    && (g.GraphImpl? ==>
          && h.hint == g.hint
          && forall k :: 0 <= k < |g.nodes| ==> h.nodes[k].oid == g.nodes[k].oid && h.nodes[k].nodeId == g.nodes[k].nodeId)
    && forall l :: Bare(PinAtLoc(h, l)) == Bare(PinAtLoc(g, l))
  }

  /** What a proof that keeps `WF` folded may need of it. */
  lemma WFDistinct(g: Graph)
    requires WF(g)
    ensures g.GraphImpl? && IdsDistinct(g.nodes) && Coherent(g)
  {
  }

  /** A new graph is well formed. */
  lemma NewGraphWF()
    ensures WF(NewGraph())
  {
  }

  /** With distinct ids, an id names at most one location. */
  lemma UniqueLoc(g: Graph, a: Loc, b: Loc)
    requires g.GraphImpl? && IdsDistinct(g.nodes)
    requires PinAtLoc(g, a).PinAdapter? && PinAtLoc(g, b).PinAdapter? && PinAtLoc(g, a).pinId == PinAtLoc(g, b).pinId
    ensures a == b
  {
    assert g.nodes[a.k].pins[a.j].pinId == g.nodes[b.k].pins[b.j].pinId;
  }

  /** The pin at a location carries an id of the graph. */
  lemma PinIdAt(g: Graph, l: Loc)
    requires PinAtLoc(g, l).PinAdapter?
    ensures PinAtLoc(g, l).pinId in PinIds(g.nodes)
  {
    assert g.nodes[l.k].pins[l.j].pinId in PinIds(g.nodes);
  }

  /** Every id of the graph sits at some location. */
  lemma LocOfIdExists(g: Graph, x: int)
    requires x in PinIds(g.Nodes())
    ensures exists l :: PinAtLoc(g, l).PinAdapter? && PinAtLoc(g, l).pinId == x
  {
    var k, j :| 0 <= k < |g.nodes| && 0 <= j < |g.nodes[k].pins| && g.nodes[k].pins[j].pinId == x;
    assert PinAtLoc(g, At(k, j)).pinId == x;
  }

  /** Where the pin carrying `x` sits; `Nowhere` when no pin carries it. */
  ghost function Where(g: Graph, x: int): (l: Loc)
    ensures x in PinIds(g.Nodes()) <==> PinAtLoc(g, l).PinAdapter?
    ensures x in PinIds(g.Nodes()) ==> PinAtLoc(g, l).pinId == x
  {
    if x in PinIds(g.Nodes()) then
      LocOfIdExists(g, x);
      var l :| PinAtLoc(g, l).PinAdapter? && PinAtLoc(g, l).pinId == x; l
    else Nowhere
  }

  /** With distinct ids, the pin at `a` is found at `a`. */
  lemma WhereAt(g: Graph, a: Loc)
    requires g.GraphImpl? && IdsDistinct(g.nodes) && PinAtLoc(g, a).PinAdapter?
    ensures Where(g, PinAtLoc(g, a).pinId) == a
  {
    PinIdAt(g, a);
    UniqueLoc(g, a, Where(g, PinAtLoc(g, a).pinId));
  }

  /** Relinking keeps every id and keeps ids distinct. */
  lemma RelinkedIds(g: Graph, h: Graph)
    requires g.GraphImpl? && Relinked(g, h)
    ensures NodeIds(h.nodes) == NodeIds(g.nodes) && PinIds(h.nodes) == PinIds(g.nodes)
    ensures IdsDistinct(g.nodes) ==> IdsDistinct(h.nodes)
    ensures forall l :: PinAtLoc(h, l).PinId() == PinAtLoc(g, l).PinId()
    ensures forall l :: PinAtLoc(h, l).PinAdapter? == PinAtLoc(g, l).PinAdapter?
  {
    forall k, j | 0 <= k < |g.nodes| && 0 <= j < |g.nodes[k].pins|
      ensures h.nodes[k].pins[j].pinId == g.nodes[k].pins[j].pinId && h.nodes[k].pins[j].nodeId == g.nodes[k].pins[j].nodeId
    {
      assert Bare(PinAtLoc(h, At(k, j))) == Bare(PinAtLoc(g, At(k, j)));
    }
    forall l ensures PinAtLoc(h, l).PinId() == PinAtLoc(g, l).PinId() {
      assert Bare(PinAtLoc(h, l)) == Bare(PinAtLoc(g, l));
    }
    forall x | x in PinIds(h.nodes) ensures x in PinIds(g.nodes) {
      var k, j :| 0 <= k < |h.nodes| && 0 <= j < |h.nodes[k].pins| && h.nodes[k].pins[j].pinId == x;
      assert g.nodes[k].pins[j].pinId == x;
    }
    forall x | x in PinIds(g.nodes) ensures x in PinIds(h.nodes) {
      var k, j :| 0 <= k < |g.nodes| && 0 <= j < |g.nodes[k].pins| && g.nodes[k].pins[j].pinId == x;
      assert h.nodes[k].pins[j].pinId == x;
    }
    forall x | x in NodeIds(h.nodes) ensures x in NodeIds(g.nodes) {
      var k :| 0 <= k < |h.nodes| && h.nodes[k].nodeId == x;
      assert g.nodes[k].nodeId == x;
    }
    forall x | x in NodeIds(g.nodes) ensures x in NodeIds(h.nodes) {
      var k :| 0 <= k < |g.nodes| && g.nodes[k].nodeId == x;
      assert h.nodes[k].nodeId == x;
    }
  }

  /** Relinking composes. */
  lemma RelinkedTrans(a: Graph, b: Graph, c: Graph)
    requires Relinked(a, b) && Relinked(b, c)
    ensures Relinked(a, c)
  {
  }

  /** A link edit is a relinking. */
  lemma EditRelinks(g: Graph, h: Graph, locs: set<Loc>)
    requires LinksEditedAt(g, h, locs)
    ensures Relinked(g, h)
  {
    if g.GraphImpl? {
      forall k | 0 <= k < |g.nodes| ensures h.nodes[k].oid == g.nodes[k].oid && h.nodes[k].nodeId == g.nodes[k].nodeId {
        assert h.nodes[k].(pins := g.nodes[k].pins) == g.nodes[k];
      }
    }
  }

  /** With distinct ids a lookup restamps nothing: every pin already carries
      its owner's id. */
  lemma RestampIdentity(a: seq<LiveNode>, b: seq<LiveNode>)
    requires IdsDistinct(a) && NodesRestamped(a, b)
    ensures forall k :: 0 <= k < |a| ==> b[k].pins == a[k].pins
  {
    forall k | 0 <= k < |a| ensures b[k].pins == a[k].pins {
      assert Restamped(a[k], b[k]);
      forall j | 0 <= j < |a[k].pins| ensures b[k].pins[j] == a[k].pins[j] {
        assert PinRestamped(a[k].pins[j], b[k].pins[j], a[k].nodeId);
      }
    }
  }

  /** In a well-formed graph `findPin` changes no pin and keeps the graph well
      formed; the pin it answers is the one at the location it reports, and
      for an id some pin carries, it is that pin. */
  lemma FindPinWF(g: Graph, id: int)
    requires WF(g)
    ensures var f := FindPin(g, id);
      && WF(f.graph) && Relinked(g, f.graph)
      && f.graph == g.(nodes := f.graph.nodes, pinIdCache := f.graph.pinIdCache)
      && (forall l :: PinAtLoc(f.graph, l) == PinAtLoc(g, l))
      && f.pin == PinAtLoc(g, f.loc)
      && (id in PinIds(g.nodes) ==> f.loc == Where(g, id))
  {
    var f := FindPin(g, id);
    FindPinSamePins(g, id);
    RelinkedIds(g, f.graph);
    SamePinsWF(g, f.graph);
    if id in PinIds(g.nodes) {
      var w := Where(g, id);
      assert f.pin.PinId() == id;
      UniqueLoc(g, f.loc, w);
    }
  }

  /** With distinct ids, a lookup leaves every pin as it was. */
  lemma FindPinSamePins(g: Graph, id: int)
    requires g.GraphImpl? && IdsDistinct(g.nodes)
    ensures var f := FindPin(g, id);
      && Relinked(g, f.graph)
      && (forall l :: PinAtLoc(f.graph, l) == PinAtLoc(g, l))
      && f.pin == PinAtLoc(g, f.loc)
  {
    var f := FindPin(g, id);
    RestampIdentity(g.nodes, f.graph.nodes);
    forall l ensures PinAtLoc(f.graph, l) == PinAtLoc(g, l) {
      if l.At? && l.k < |g.nodes| {
        assert f.graph.nodes[l.k].pins == g.nodes[l.k].pins;
      }
    }
    forall k | 0 <= k < |g.nodes| ensures f.graph.nodes[k].oid == g.nodes[k].oid && f.graph.nodes[k].nodeId == g.nodes[k].nodeId {
      assert Restamped(g.nodes[k], f.graph.nodes[k]);
    }
  }

  /** Well-formedness looks at the pins, the ids and the caches only. */
  lemma SamePinsWF(g: Graph, h: Graph)
    requires WF(g) && h.GraphImpl? && h.hint == g.hint && Coherent(h) && IdsDistinct(h.nodes)
    requires PinIds(h.nodes) == PinIds(g.nodes) && forall l :: PinAtLoc(h, l) == PinAtLoc(g, l)
    ensures WF(h)
  {
    forall a, b ensures Out(h, a, b) == Out(g, a, b) && In(h, a, b) == In(g, a, b) {
    }
    assert h.Nodes() == h.nodes && g.Nodes() == g.nodes;
    forall l, x | x in ToIds(PinAtLoc(h, l)) ensures x in PinIds(h.Nodes()) {
      assert x in ToIds(PinAtLoc(g, l));
    }
    forall l, x | x in FromIds(PinAtLoc(h, l)) ensures x in PinIds(h.Nodes()) {
      assert x in FromIds(PinAtLoc(g, l));
    }
  }

  /** A link edit keeps the caches right. */
  lemma EditKeepsCoherent(g: Graph, h: Graph, locs: set<Loc>)
    requires g.GraphImpl? && LinksEditedAt(g, h, locs) && Coherent(g)
    ensures Coherent(h) && Relinked(g, h)
  {
    EditRelinks(g, h, locs);
    RelinkedIds(g, h);
    assert SameOids(g.nodes, h.nodes);
    forall o ensures IndexOfOid(h.nodes, o) == IndexOfOid(g.nodes, o) {
      IndexOfOidSameOids(g.nodes, h.nodes, o);
    }
    forall k, j | 0 <= k < |g.nodes| && 0 <= j < |g.nodes[k].pins|
      ensures h.nodes[k].pins[j].pinId == g.nodes[k].pins[j].pinId && h.nodes[k].pins[j].name == g.nodes[k].pins[j].name
    {
      assert Bare(PinAtLoc(h, At(k, j))) == Bare(PinAtLoc(g, At(k, j)));
    }
    forall k | 0 <= k < |h.nodes| ensures NodeCoherent(h.nodes[k]) {
      assert h.nodes[k].(pins := g.nodes[k].pins) == g.nodes[k];
      assert NodeCoherent(g.nodes[k]);
    }
    EditKeepsCaches(g, h, locs);
  }

  lemma EditKeepsCaches(g: Graph, h: Graph, locs: set<Loc>)
    requires g.GraphImpl? && LinksEditedAt(g, h, locs) && Coherent(g)
    requires forall o :: IndexOfOid(h.nodes, o) == IndexOfOid(g.nodes, o)
    requires NodeIds(h.nodes) == NodeIds(g.nodes) && PinIds(h.nodes) == PinIds(g.nodes)
    requires forall k, j :: 0 <= k < |g.nodes| && 0 <= j < |g.nodes[k].pins| ==> h.nodes[k].pins[j].pinId == g.nodes[k].pins[j].pinId
    ensures NodeCacheCoherent(h, {}) && PinCacheCoherent(h, {}) && OwnerCacheCoherent(h, {})
  {
    forall o ensures NodeOf(h.nodes, o).NodeId() == NodeOf(g.nodes, o).NodeId() {
      var k := IndexOfOid(g.nodes, o);
      if k != -1 {
        assert h.nodes[k].(pins := g.nodes[k].pins) == g.nodes[k];
      }
    }
    forall ref ensures PinOf(h.nodes, ref).pin.PinId() == PinOf(g.nodes, ref).pin.PinId() {
    }
    forall key | key in h.pinNodeCache && key >= 0 && key in PinIds(h.nodes)
      ensures var n := NodeOf(h.nodes, h.pinNodeCache[key]);
              n.NodeAdapter? && exists j :: 0 <= j < |n.pins| && n.pins[j].pinId == key
    {
      var o := g.pinNodeCache[key];
      var k := IndexOfOid(g.nodes, o);
      assert k != -1;
      var j :| 0 <= j < |g.nodes[k].pins| && g.nodes[k].pins[j].pinId == key;
      assert h.nodes[k].pins[j].pinId == key;
    }
  }

  // ------------------------------------------------------------ link edits

  /** Appending a link from the pin at `a0` to the pin at `b0` at both ends
      keeps a graph well formed and adds exactly that one link. */
  lemma AppendKeepsWF(g: Graph, h: Graph, a0: Loc, b0: Loc)
    requires WF(g) && LinksEditedAt(g, h, {a0, b0})
    requires PinAtLoc(g, a0).PinAdapter? && PinAtLoc(g, b0).PinAdapter?
    requires ToIds(PinAtLoc(h, a0)) == ToIds(PinAtLoc(g, a0)) + [PinAtLoc(g, b0).pinId]
    requires FromIds(PinAtLoc(h, b0)) == FromIds(PinAtLoc(g, b0)) + [PinAtLoc(g, a0).pinId]
    requires a0 != b0 ==> FromIds(PinAtLoc(h, a0)) == FromIds(PinAtLoc(g, a0)) && ToIds(PinAtLoc(h, b0)) == ToIds(PinAtLoc(g, b0))
    ensures WF(h) && Relinked(g, h)
    ensures forall a, b :: PinAtLoc(g, a).PinAdapter? && PinAtLoc(g, b).PinAdapter? ==>
      Out(h, a, b) == Out(g, a, b) + (if a == a0 && b == b0 then 1 else 0)
  {
    EditKeepsCoherent(g, h, {a0, b0});
    RelinkedIds(g, h);
    AppendCounts(g, h, a0, b0);
    PinIdAt(g, a0);
    PinIdAt(g, b0);
    AppendClosed(g, h, a0, b0);
  }

  /** After an append the counts of every pair are as before, except one
      more from `a0` to `b0` at both ends. */
  lemma AppendCounts(g: Graph, h: Graph, a0: Loc, b0: Loc)
    requires g.GraphImpl? && IdsDistinct(g.nodes) && LinksSymmetric(g)
    requires forall l :: PinAtLoc(h, l).PinId() == PinAtLoc(g, l).PinId()
    requires forall l :: PinAtLoc(h, l).PinAdapter? == PinAtLoc(g, l).PinAdapter?
    requires forall l :: l != a0 && l != b0 ==> PinAtLoc(h, l) == PinAtLoc(g, l)
    requires PinAtLoc(g, a0).PinAdapter? && PinAtLoc(g, b0).PinAdapter?
    requires ToIds(PinAtLoc(h, a0)) == ToIds(PinAtLoc(g, a0)) + [PinAtLoc(g, b0).pinId]
    requires FromIds(PinAtLoc(h, b0)) == FromIds(PinAtLoc(g, b0)) + [PinAtLoc(g, a0).pinId]
    requires a0 != b0 ==> FromIds(PinAtLoc(h, a0)) == FromIds(PinAtLoc(g, a0)) && ToIds(PinAtLoc(h, b0)) == ToIds(PinAtLoc(g, b0))
    ensures LinksSymmetric(h)
    ensures forall a, b :: PinAtLoc(g, a).PinAdapter? && PinAtLoc(g, b).PinAdapter? ==>
      Out(h, a, b) == Out(g, a, b) + (if a == a0 && b == b0 then 1 else 0)
  {
    forall a, b | PinAtLoc(g, a).PinAdapter? && PinAtLoc(g, b).PinAdapter?
      ensures Out(h, a, b) == Out(g, a, b) + (if a == a0 && b == b0 then 1 else 0)
      ensures In(h, a, b) == In(g, a, b) + (if a == a0 && b == b0 then 1 else 0)
    {
      AppendCount(g, h, a0, b0, a, b);
    }
  }

  /** The counts of one pair of pins after an append. */
  lemma AppendCount(g: Graph, h: Graph, a0: Loc, b0: Loc, a: Loc, b: Loc)
    requires g.GraphImpl? && IdsDistinct(g.nodes)
    requires forall l :: PinAtLoc(h, l).PinId() == PinAtLoc(g, l).PinId()
    requires forall l :: l != a0 && l != b0 ==> PinAtLoc(h, l) == PinAtLoc(g, l)
    requires PinAtLoc(g, a0).PinAdapter? && PinAtLoc(g, b0).PinAdapter?
    requires PinAtLoc(g, a).PinAdapter? && PinAtLoc(g, b).PinAdapter?
    requires ToIds(PinAtLoc(h, a0)) == ToIds(PinAtLoc(g, a0)) + [PinAtLoc(g, b0).pinId]
    requires FromIds(PinAtLoc(h, b0)) == FromIds(PinAtLoc(g, b0)) + [PinAtLoc(g, a0).pinId]
    requires a0 != b0 ==> FromIds(PinAtLoc(h, a0)) == FromIds(PinAtLoc(g, a0)) && ToIds(PinAtLoc(h, b0)) == ToIds(PinAtLoc(g, b0))
    ensures Out(h, a, b) == Out(g, a, b) + (if a == a0 && b == b0 then 1 else 0)
    ensures In(h, a, b) == In(g, a, b) + (if a == a0 && b == b0 then 1 else 0)
  {
    var ia, ib := PinAtLoc(g, a0).pinId, PinAtLoc(g, b0).pinId;
    var xa, xb := PinAtLoc(g, a).pinId, PinAtLoc(g, b).pinId;
    assert PinAtLoc(h, a).PinId() == xa && PinAtLoc(h, b).PinId() == xb;
    if xb == ib { UniqueLoc(g, b, b0); }
    if xa == ia { UniqueLoc(g, a, a0); }
    if a == a0 {
      assert multiset(ToIds(PinAtLoc(h, a))) == multiset(ToIds(PinAtLoc(g, a))) + multiset{ib};
    } else {
      assert ToIds(PinAtLoc(h, a)) == ToIds(PinAtLoc(g, a));
    }
    if b == b0 {
      assert multiset(FromIds(PinAtLoc(h, b))) == multiset(FromIds(PinAtLoc(g, b))) + multiset{ia};
    } else {
      assert FromIds(PinAtLoc(h, b)) == FromIds(PinAtLoc(g, b));
    }
  }

  /** After an append every link still names a pin of the graph. */
  lemma AppendClosed(g: Graph, h: Graph, a0: Loc, b0: Loc)
    requires g.GraphImpl? && h.GraphImpl? && LinksClosed(g) && PinIds(h.nodes) == PinIds(g.nodes)
    requires forall l :: l != a0 && l != b0 ==> PinAtLoc(h, l) == PinAtLoc(g, l)
    requires PinAtLoc(g, a0).PinAdapter? && PinAtLoc(g, b0).PinAdapter?
    requires PinAtLoc(g, a0).pinId in PinIds(g.nodes) && PinAtLoc(g, b0).pinId in PinIds(g.nodes)
    requires ToIds(PinAtLoc(h, a0)) == ToIds(PinAtLoc(g, a0)) + [PinAtLoc(g, b0).pinId]
    requires FromIds(PinAtLoc(h, b0)) == FromIds(PinAtLoc(g, b0)) + [PinAtLoc(g, a0).pinId]
    requires a0 != b0 ==> FromIds(PinAtLoc(h, a0)) == FromIds(PinAtLoc(g, a0)) && ToIds(PinAtLoc(h, b0)) == ToIds(PinAtLoc(g, b0))
    ensures LinksClosed(h)
  {
    var ia, ib := PinAtLoc(g, a0).pinId, PinAtLoc(g, b0).pinId;
    assert h.Nodes() == h.nodes && g.Nodes() == g.nodes;
    forall l, x | x in ToIds(PinAtLoc(h, l)) ensures x in PinIds(h.Nodes()) {
      if x != ib || l != a0 {
        assert x in ToIds(PinAtLoc(g, l));
      }
    }
    forall l, x | x in FromIds(PinAtLoc(h, l)) ensures x in PinIds(h.Nodes()) {
      if x != ia || l != b0 {
        assert x in FromIds(PinAtLoc(g, l));
      }
    }
  }

  /** Removing one copy of the link from the pin at `a0` to the pin at `b0`,
      at the `toLinks` end and, only if it was there, at the `fromLinks` end,
      keeps a graph well formed and removes exactly one such link if there
      was one. */
  lemma RemoveKeepsWF(g: Graph, h: Graph, a0: Loc, b0: Loc)
    requires WF(g) && LinksEditedAt(g, h, {a0, b0})
    requires PinAtLoc(g, a0).PinAdapter? && PinAtLoc(g, b0).PinAdapter?
    requires ToIds(PinAtLoc(h, a0)) == RemoveFirst(ToIds(PinAtLoc(g, a0)), PinAtLoc(g, b0).pinId).rest
    requires FromIds(PinAtLoc(h, b0)) ==
      if PinAtLoc(g, b0).pinId in ToIds(PinAtLoc(g, a0))
      then RemoveFirst(FromIds(PinAtLoc(g, b0)), PinAtLoc(g, a0).pinId).rest
      else FromIds(PinAtLoc(g, b0))
    requires a0 != b0 ==> FromIds(PinAtLoc(h, a0)) == FromIds(PinAtLoc(g, a0)) && ToIds(PinAtLoc(h, b0)) == ToIds(PinAtLoc(g, b0))
    ensures WF(h) && Relinked(g, h)
    ensures forall a, b :: PinAtLoc(g, a).PinAdapter? && PinAtLoc(g, b).PinAdapter? ==>
      Out(h, a, b) == if a == a0 && b == b0 && Out(g, a, b) > 0 then Out(g, a, b) - 1 else Out(g, a, b)
  {
    EditKeepsCoherent(g, h, {a0, b0});
    RelinkedIds(g, h);
    var ia, ib := PinAtLoc(g, a0).pinId, PinAtLoc(g, b0).pinId;
    assert multiset(ToIds(PinAtLoc(h, a0))) == multiset(ToIds(PinAtLoc(g, a0))) - multiset{ib};
    if ib in ToIds(PinAtLoc(g, a0)) {
      assert multiset(FromIds(PinAtLoc(h, b0))) == multiset(FromIds(PinAtLoc(g, b0))) - multiset{ia};
    }
    RemoveCounts(g, h, a0, b0);
    RemoveShrinks(g, h, a0, b0);
    ShrinkClosed(g, h);
  }

  /** After a removal the counts of every pair are as before, except one
      fewer from `a0` to `b0` at both ends if there was one. */
  lemma RemoveCounts(g: Graph, h: Graph, a0: Loc, b0: Loc)
    requires g.GraphImpl? && IdsDistinct(g.nodes) && LinksSymmetric(g)
    requires forall l :: PinAtLoc(h, l).PinId() == PinAtLoc(g, l).PinId()
    requires forall l :: PinAtLoc(h, l).PinAdapter? == PinAtLoc(g, l).PinAdapter?
    requires forall l :: l != a0 && l != b0 ==> PinAtLoc(h, l) == PinAtLoc(g, l)
    requires PinAtLoc(g, a0).PinAdapter? && PinAtLoc(g, b0).PinAdapter?
    requires multiset(ToIds(PinAtLoc(h, a0))) == multiset(ToIds(PinAtLoc(g, a0))) - multiset{PinAtLoc(g, b0).pinId}
    requires multiset(FromIds(PinAtLoc(h, b0))) ==
      if PinAtLoc(g, b0).pinId in ToIds(PinAtLoc(g, a0))
      then multiset(FromIds(PinAtLoc(g, b0))) - multiset{PinAtLoc(g, a0).pinId}
      else multiset(FromIds(PinAtLoc(g, b0)))
    requires a0 != b0 ==> FromIds(PinAtLoc(h, a0)) == FromIds(PinAtLoc(g, a0)) && ToIds(PinAtLoc(h, b0)) == ToIds(PinAtLoc(g, b0))
    ensures LinksSymmetric(h)
    ensures forall a, b :: PinAtLoc(g, a).PinAdapter? && PinAtLoc(g, b).PinAdapter? ==>
      Out(h, a, b) == if a == a0 && b == b0 && Out(g, a, b) > 0 then Out(g, a, b) - 1 else Out(g, a, b)
  {
    hide Out, In;
    assert Out(g, a0, b0) == In(g, a0, b0);
    forall a, b | PinAtLoc(g, a).PinAdapter? && PinAtLoc(g, b).PinAdapter?
      ensures Out(h, a, b) == if a == a0 && b == b0 && Out(g, a, b) > 0 then Out(g, a, b) - 1 else Out(g, a, b)
      ensures In(h, a, b) == if a == a0 && b == b0 && In(g, a, b) > 0 then In(g, a, b) - 1 else In(g, a, b)
    {
      RemoveCount(g, h, a0, b0, a, b);
      RemoveCountIn(g, h, a0, b0, a, b);
    }
  }

  /** A removal only shrinks link lists. */
  lemma RemoveShrinks(g: Graph, h: Graph, a0: Loc, b0: Loc)
    requires forall l :: l != a0 && l != b0 ==> PinAtLoc(h, l) == PinAtLoc(g, l)
    requires PinAtLoc(g, a0).PinAdapter? && PinAtLoc(g, b0).PinAdapter?
    requires multiset(ToIds(PinAtLoc(h, a0))) == multiset(ToIds(PinAtLoc(g, a0))) - multiset{PinAtLoc(g, b0).pinId}
    requires multiset(FromIds(PinAtLoc(h, b0))) <= multiset(FromIds(PinAtLoc(g, b0)))
    requires a0 != b0 ==> FromIds(PinAtLoc(h, a0)) == FromIds(PinAtLoc(g, a0)) && ToIds(PinAtLoc(h, b0)) == ToIds(PinAtLoc(g, b0))
    ensures forall l :: multiset(ToIds(PinAtLoc(h, l))) <= multiset(ToIds(PinAtLoc(g, l)))
    ensures forall l :: multiset(FromIds(PinAtLoc(h, l))) <= multiset(FromIds(PinAtLoc(g, l)))
  {
    forall l ensures multiset(ToIds(PinAtLoc(h, l))) <= multiset(ToIds(PinAtLoc(g, l))) {
      ToShrinks(g, h, a0, b0, l);
    }
    forall l ensures multiset(FromIds(PinAtLoc(h, l))) <= multiset(FromIds(PinAtLoc(g, l))) {
      FromShrinks(g, h, a0, b0, l);
    }
  }

  lemma ToShrinks(g: Graph, h: Graph, a0: Loc, b0: Loc, l: Loc)
    requires PinAtLoc(g, b0).PinAdapter?
    requires l != a0 && l != b0 ==> PinAtLoc(h, l) == PinAtLoc(g, l)
    requires multiset(ToIds(PinAtLoc(h, a0))) == multiset(ToIds(PinAtLoc(g, a0))) - multiset{PinAtLoc(g, b0).pinId}
    requires a0 != b0 ==> ToIds(PinAtLoc(h, b0)) == ToIds(PinAtLoc(g, b0))
    ensures multiset(ToIds(PinAtLoc(h, l))) <= multiset(ToIds(PinAtLoc(g, l)))
  {
  }

  lemma FromShrinks(g: Graph, h: Graph, a0: Loc, b0: Loc, l: Loc)
    requires l != a0 && l != b0 ==> PinAtLoc(h, l) == PinAtLoc(g, l)
    requires multiset(FromIds(PinAtLoc(h, b0))) <= multiset(FromIds(PinAtLoc(g, b0)))
    requires a0 != b0 ==> FromIds(PinAtLoc(h, a0)) == FromIds(PinAtLoc(g, a0))
    ensures multiset(FromIds(PinAtLoc(h, l))) <= multiset(FromIds(PinAtLoc(g, l)))
  {
  }

  /** The `toLinks` count of one pair of pins after a removal. */
  lemma RemoveCount(g: Graph, h: Graph, a0: Loc, b0: Loc, a: Loc, b: Loc)
    requires g.GraphImpl? && IdsDistinct(g.nodes)
    requires forall l :: PinAtLoc(h, l).PinId() == PinAtLoc(g, l).PinId()
    requires forall l :: l != a0 && l != b0 ==> PinAtLoc(h, l) == PinAtLoc(g, l)
    requires PinAtLoc(g, a0).PinAdapter? && PinAtLoc(g, b0).PinAdapter?
    requires PinAtLoc(g, a).PinAdapter? && PinAtLoc(g, b).PinAdapter?
    requires multiset(ToIds(PinAtLoc(h, a0))) == multiset(ToIds(PinAtLoc(g, a0))) - multiset{PinAtLoc(g, b0).pinId}
    requires a0 != b0 ==> ToIds(PinAtLoc(h, b0)) == ToIds(PinAtLoc(g, b0))
    ensures Out(h, a, b) == if a == a0 && b == b0 && Out(g, a, b) > 0 then Out(g, a, b) - 1 else Out(g, a, b)
  {
    var ib, xb := PinAtLoc(g, b0).pinId, PinAtLoc(g, b).pinId;
    assert PinAtLoc(h, b).PinId() == xb;
    if xb == ib { UniqueLoc(g, b, b0); }
    if a != a0 {
      assert ToIds(PinAtLoc(h, a)) == ToIds(PinAtLoc(g, a));
    }
  }

  /** The `fromLinks` count of one pair of pins after a removal. */
  lemma RemoveCountIn(g: Graph, h: Graph, a0: Loc, b0: Loc, a: Loc, b: Loc)
    requires g.GraphImpl? && IdsDistinct(g.nodes)
    requires forall l :: PinAtLoc(h, l).PinId() == PinAtLoc(g, l).PinId()
    requires forall l :: l != a0 && l != b0 ==> PinAtLoc(h, l) == PinAtLoc(g, l)
    requires PinAtLoc(g, a0).PinAdapter? && PinAtLoc(g, b0).PinAdapter?
    requires PinAtLoc(g, a).PinAdapter? && PinAtLoc(g, b).PinAdapter?
    requires Out(g, a0, b0) == In(g, a0, b0)
    requires multiset(FromIds(PinAtLoc(h, b0))) ==
      if PinAtLoc(g, b0).pinId in ToIds(PinAtLoc(g, a0))
      then multiset(FromIds(PinAtLoc(g, b0))) - multiset{PinAtLoc(g, a0).pinId}
      else multiset(FromIds(PinAtLoc(g, b0)))
    requires a0 != b0 ==> FromIds(PinAtLoc(h, a0)) == FromIds(PinAtLoc(g, a0))
    ensures In(h, a, b) == if a == a0 && b == b0 && In(g, a, b) > 0 then In(g, a, b) - 1 else In(g, a, b)
  {
    var ia, xa := PinAtLoc(g, a0).pinId, PinAtLoc(g, a).pinId;
    assert PinAtLoc(h, a).PinId() == xa;
    if xa == ia { UniqueLoc(g, a, a0); }
    assert PinAtLoc(g, b0).pinId in ToIds(PinAtLoc(g, a0)) <==> Out(g, a0, b0) > 0;
    if b != b0 {
      assert FromIds(PinAtLoc(h, b)) == FromIds(PinAtLoc(g, b));
    }
  }

  /** Link lists that only lost entries still name pins of the graph. */
  lemma ShrinkClosed(g: Graph, h: Graph)
    requires g.GraphImpl? && h.GraphImpl? && LinksClosed(g) && PinIds(h.nodes) == PinIds(g.nodes)
    requires forall l :: multiset(ToIds(PinAtLoc(h, l))) <= multiset(ToIds(PinAtLoc(g, l)))
    requires forall l :: multiset(FromIds(PinAtLoc(h, l))) <= multiset(FromIds(PinAtLoc(g, l)))
    ensures LinksClosed(h)
  {
    assert h.Nodes() == h.nodes && g.Nodes() == g.nodes;
    forall l, x | x in ToIds(PinAtLoc(h, l)) ensures x in PinIds(h.Nodes()) {
      assert x in multiset(ToIds(PinAtLoc(h, l)));
      assert x in ToIds(PinAtLoc(g, l));
    }
    forall l, x | x in FromIds(PinAtLoc(h, l)) ensures x in PinIds(h.Nodes()) {
      assert x in multiset(FromIds(PinAtLoc(h, l)));
      assert x in FromIds(PinAtLoc(g, l));
    }
  }

  // ------------------------------------------------------ link operations

  /** With distinct ids, a relinked graph keeps every pin where it was. */
  lemma WhereRelinked(g: Graph, h: Graph, x: int)
    requires g.GraphImpl? && IdsDistinct(g.nodes) && Relinked(g, h)
    ensures Where(h, x) == Where(g, x)
  {
    RelinkedIds(g, h);
    assert h.Nodes() == h.nodes && g.Nodes() == g.nodes;
    if x in PinIds(g.nodes) {
      UniqueLoc(g, Where(h, x), Where(g, x));
    }
  }

  /** `addLink(otherId, graph)` on a pin of a well-formed graph keeps it well
      formed and changes nothing but links; for an id some pin carries it
      records exactly one more link from the subject to that pin, and
      answers the position of the new entry in the subject's `toLinks`. */
  lemma AddLinkByIdWF(g: Graph, s: Subject, otherId: int)
    requires WF(g) && Valid(g, s) && !s.Loose?
    ensures var r := AddLinkById(g, s, otherId);
      && WF(r.graph) && Relinked(g, r.graph) && r.subject == s
      && (s.Held? && otherId in PinIds(g.nodes) ==>
            && r.index == |Current(g, s).toLinks|
            && forall a, b :: PinAtLoc(g, a).PinAdapter? && PinAtLoc(g, b).PinAdapter? ==>
                 Out(r.graph, a, b) == Out(g, a, b) + (if a == LocOf(s) && b == Where(g, otherId) then 1 else 0))
  {
    if s.Held? {
      var f := FindPin(g, otherId);
      FindPinWF(g, otherId);
      if f.pin.PinAdapter? {
        LinkAtAppends(f.graph, s, f.loc);
        var r := LinkAt(f.graph, s, f.loc);
        assert r.subject == s;
        AppendKeepsWF(f.graph, r.graph, LocOf(s), f.loc);
        RelinkedTrans(g, f.graph, r.graph);
      }
    }
  }

  /** `removeLink(otherId, graph)` on a pin of a well-formed graph keeps it
      well formed and changes nothing but links; for an id some pin carries
      it answers whether a link from the subject to that pin existed, and
      removes exactly one such link if so. Both ends agree, so the half
      removal the code allows cannot happen here. */
  lemma RemoveLinkByIdWF(g: Graph, s: Subject, otherId: int)
    requires WF(g) && Valid(g, s) && !s.Loose?
    ensures var r := RemoveLinkById(g, s, otherId);
      && WF(r.graph) && Relinked(g, r.graph) && r.subject == s
      && (s.Held? && otherId in PinIds(g.nodes) ==>
            var w := Where(g, otherId);
            && (r.removed <==> Out(g, LocOf(s), w) > 0)
            && forall a, b :: PinAtLoc(g, a).PinAdapter? && PinAtLoc(g, b).PinAdapter? ==>
                 Out(r.graph, a, b) == if a == LocOf(s) && b == w && Out(g, a, b) > 0 then Out(g, a, b) - 1 else Out(g, a, b))
  {
    if s.Held? {
      var f := FindPin(g, otherId);
      FindPinWF(g, otherId);
      if f.pin.PinAdapter? {
        UnlinkAtWF(f.graph, s, f.loc);
        RelinkedTrans(g, f.graph, UnlinkAt(f.graph, s, f.loc).graph);
        forall a, b ensures Out(f.graph, a, b) == Out(g, a, b) {
        }
      }
    }
  }

  /** `removeLink(other)` between two pins of a well-formed graph. */
  lemma UnlinkAtWF(g: Graph, s: Subject, l: Loc)
    requires WF(g) && Valid(g, s) && s.Held? && PinAtLoc(g, l).PinAdapter?
    ensures var r := UnlinkAt(g, s, l);
      && WF(r.graph) && Relinked(g, r.graph) && r.subject == s
      && (r.removed <==> Out(g, LocOf(s), l) > 0)
      && forall a, b :: PinAtLoc(g, a).PinAdapter? && PinAtLoc(g, b).PinAdapter? ==>
           Out(r.graph, a, b) == if a == LocOf(s) && b == l && Out(g, a, b) > 0 then Out(g, a, b) - 1 else Out(g, a, b)
  {
    UnlinkAtRemoves(g, s, l);
    var r := UnlinkAt(g, s, l);
    assert r.subject == s;
    var a0 := LocOf(s);
    assert Out(g, a0, l) == In(g, a0, l);
    RemoveKeepsWF(g, r.graph, a0, l);
  }

  /** Removing a link undoes adding it: `removeLink(x)` right after
      `addLink(x)` answers true and leaves every link count as it was. */
  lemma RemoveLinkUndoesAddLinkById(g: Graph, s: Subject, x: int)
    requires WF(g) && Valid(g, s) && s.Held? && x in PinIds(g.nodes)
    ensures var r1 := AddLinkById(g, s, x);
      var r2 := RemoveLinkById(r1.graph, r1.subject, x);
      && WF(r2.graph) && r2.removed
      && forall a, b :: PinAtLoc(g, a).PinAdapter? && PinAtLoc(g, b).PinAdapter? ==> Out(r2.graph, a, b) == Out(g, a, b)
  {
    var r1 := AddLinkById(g, s, x);
    AddLinkByIdWF(g, s, x);
    var g1 := r1.graph;
    assert r1.subject == s && WF(g1) && Relinked(g, g1);
    var w := Where(g, x);
    assert forall a, b :: PinAtLoc(g, a).PinAdapter? && PinAtLoc(g, b).PinAdapter? ==>
      Out(g1, a, b) == Out(g, a, b) + (if a == LocOf(s) && b == w then 1 else 0);
    RelinkedIds(g, g1);
    WhereRelinked(g, g1, x);
    RemoveLinkByIdWF(g1, s, x);
    var r2 := RemoveLinkById(g1, s, x);
    assert forall a, b :: PinAtLoc(g1, a).PinAdapter? && PinAtLoc(g1, b).PinAdapter? ==>
      Out(r2.graph, a, b) == if a == LocOf(s) && b == w && Out(g1, a, b) > 0 then Out(g1, a, b) - 1 else Out(g1, a, b);
    CountsCancel(g, g1, r2.graph, LocOf(s), w);
  }

  /** One more link, then one fewer of the same, leaves every count as it was. */
  lemma CountsCancel(g: Graph, g1: Graph, g2: Graph, a0: Loc, b0: Loc)
    requires forall l :: PinAtLoc(g1, l).PinAdapter? == PinAtLoc(g, l).PinAdapter?
    requires forall a, b :: PinAtLoc(g, a).PinAdapter? && PinAtLoc(g, b).PinAdapter? ==>
      Out(g1, a, b) == Out(g, a, b) + (if a == a0 && b == b0 then 1 else 0)
    requires forall a, b :: PinAtLoc(g1, a).PinAdapter? && PinAtLoc(g1, b).PinAdapter? ==>
      Out(g2, a, b) == if a == a0 && b == b0 && Out(g1, a, b) > 0 then Out(g1, a, b) - 1 else Out(g1, a, b)
    ensures forall a, b :: PinAtLoc(g, a).PinAdapter? && PinAtLoc(g, b).PinAdapter? ==> Out(g2, a, b) == Out(g, a, b)
  {
    forall a, b | PinAtLoc(g, a).PinAdapter? && PinAtLoc(g, b).PinAdapter? ensures Out(g2, a, b) == Out(g, a, b) {
      assert PinAtLoc(g1, a).PinAdapter? && PinAtLoc(g1, b).PinAdapter?;
    }
  }

  /** In a well-formed graph both ends agree: `isLinkedTo(x, graph)` and
      `isLinkedFrom(x, graph)` give the same answer, which is whether a link
      from the subject to the pin carrying `x` exists. */
  lemma IsLinkedBothEnds(g: Graph, s: Subject, x: int)
    requires WF(g) && Valid(g, s) && s.Held? && x in PinIds(g.nodes)
    ensures IsLinkedToById(g, s, x).yes == IsLinkedFromById(g, s, x).yes
    ensures IsLinkedToById(g, s, x).yes <==> Out(g, LocOf(s), Where(g, x)) > 0
  {
    var w := Where(g, x);
    FindPinWF(g, x);
    assert Out(g, LocOf(s), w) == In(g, LocOf(s), w);
    assert g.Nodes() == g.nodes;
    assert x == PinAtLoc(g, w).pinId;
  }

  /** After `addLink(x)` on a pin of a well-formed graph, both ends report
      the link. */
  lemma AddLinkByIdLinks(g: Graph, s: Subject, x: int)
    requires WF(g) && Valid(g, s) && s.Held? && x in PinIds(g.nodes)
    ensures var r := AddLinkById(g, s, x);
      IsLinkedToById(r.graph, r.subject, x).yes && IsLinkedFromById(r.graph, r.subject, x).yes
  {
    var r := AddLinkById(g, s, x);
    AddLinkByIdWF(g, s, x);
    RelinkedIds(g, r.graph);
    WhereRelinked(g, r.graph, x);
    IsLinkedBothEnds(r.graph, s, x);
    var w := Where(g, x);
    assert Out(r.graph, LocOf(s), w) == Out(g, LocOf(s), w) + 1;
  }

  // ------------------------------------------------------------ clearLinks

  /** `Dropped` applied `n` times: `n` removals of `id` from one list. */
  function DroppedN(p: Pin, id: int, n: nat, back: bool): (q: Pin)
    ensures Bare(q) == Bare(p)
  {
    if p.EmptyPin? then p
    else if back then p.(fromLinks := RemoveN(p.fromLinks, id, n))
    else p.(toLinks := RemoveN(p.toLinks, id, n))
  }

  /** One more removal before `n` of them is `n + 1` of them. */
  lemma DroppedNStep(p: Pin, id: int, n: nat, back: bool)
    ensures DroppedN(Dropped(p, id, back), id, n, back) == DroppedN(p, id, n + 1, back)
  {
  }

  /** A loop of `clearLinks` over ids that pins carry, in a graph with
      distinct ids and right caches: each pin loses as many copies of `id`
      as the loop names it, and nothing else changes but caches. */
  lemma {:induction false} DropAllExact(g: Graph, ids: seq<int>, id: int, back: bool)
    requires g.GraphImpl? && IdsDistinct(g.nodes) && Coherent(g)
    requires forall t :: t in ids ==> t in PinIds(g.nodes)
    ensures var h := DropAll(g, ids, id, back);
      && Coherent(h) && Relinked(g, h)
      && forall l :: PinAtLoc(h, l) == DroppedN(PinAtLoc(g, l), id, multiset(ids)[PinAtLoc(g, l).PinId()], back)
    decreases |ids|
  {
    var h := DropAll(g, ids, id, back);
    if |ids| == 0 {
      forall l ensures PinAtLoc(h, l) == DroppedN(PinAtLoc(g, l), id, 0, back) {
      }
    } else {
      var g1, at := DropAllFirst(g, ids, id, back);
      DropAllExact(g1, ids[1..], id, back);
      RelinkedTrans(g, g1, h);
      forall l ensures PinAtLoc(h, l) == DroppedN(PinAtLoc(g, l), id, multiset(ids)[PinAtLoc(g, l).PinId()], back) {
        DropAllComposeAt(g, g1, h, ids, id, back, at, l);
      }
    }
  }

  /** The same loop adds to the pin-id cache only ids it looks up, or -1. */
  lemma {:induction false} DropAllKeys(g: Graph, ids: seq<int>, id: int, back: bool)
    requires g.GraphImpl? && IdsDistinct(g.nodes) && Coherent(g)
    requires forall t :: t in ids ==> t in PinIds(g.nodes)
    ensures forall key :: key in DropAll(g, ids, id, back).pinIdCache ==> key in g.pinIdCache || key in ids || key == -1
    decreases |ids|
  {
    if |ids| > 0 {
      var g1, at := DropAllFirst(g, ids, id, back);
      hide DropAll, Coherent, IdsDistinct;
      DropAllKeys(g1, ids[1..], id, back);
      forall key | key in ids[1..] ensures key in ids {
      }
    }
  }

  /** The first turn of a `clearLinks` loop: the pin carrying the first id
      loses one copy of `id`; the caches stay right. */
  lemma DropAllFirst(g: Graph, ids: seq<int>, id: int, back: bool) returns (g1: Graph, at: Loc)
    requires g.GraphImpl? && IdsDistinct(g.nodes) && Coherent(g) && |ids| > 0
    requires forall t :: t in ids ==> t in PinIds(g.nodes)
    ensures DropAll(g, ids, id, back) == DropAll(g1, ids[1..], id, back)
    ensures g1.GraphImpl? && Coherent(g1) && Relinked(g, g1) && IdsDistinct(g1.nodes)
    ensures forall u :: u in ids[1..] ==> u in PinIds(g1.nodes)
    ensures ids[0] >= 0 && PinAtLoc(g, at).PinId() == ids[0]
    ensures forall l :: PinAtLoc(g1, l) == if l == at then Dropped(PinAtLoc(g, l), id, back) else PinAtLoc(g, l)
    ensures forall l :: PinAtLoc(g1, l).PinId() == PinAtLoc(g, l).PinId()
    ensures g1.pinIdCache.Keys <= g.pinIdCache.Keys + {ids[0], -1}
  {
    var t := ids[0];
    var f := FindPin(g, t);
    FindPinSamePins(g, t);
    FindPinKeys(g, t);
    RelinkedIds(g, f.graph);
    var w := Where(g, t);
    assert g.nodes[w.k].pins[w.j].pinId == t;
    assert t >= 0 && f.pin.PinId() == t;
    g1, at := DropAt(f.graph, f.loc, id, back), f.loc;
    assert LinksEditedAt(f.graph, g1, {f.loc});
    EditKeepsCoherent(f.graph, g1, {f.loc});
    RelinkedTrans(g, f.graph, g1);
    RelinkedIds(g, g1);
    forall u | u in ids[1..] ensures u in PinIds(g1.nodes) {
      assert u in ids;
    }
  }

  /** The step of `DropAllExact` at one location. */
  lemma DropAllComposeAt(g: Graph, g1: Graph, h: Graph, ids: seq<int>, id: int, back: bool, at: Loc, l: Loc)
    requires g.GraphImpl? && IdsDistinct(g.nodes) && |ids| > 0 && ids[0] >= 0
    requires PinAtLoc(g, at).PinId() == ids[0]
    requires PinAtLoc(g1, l) == if l == at then Dropped(PinAtLoc(g, l), id, back) else PinAtLoc(g, l)
    requires PinAtLoc(g1, l).PinId() == PinAtLoc(g, l).PinId()
    requires PinAtLoc(h, l) == DroppedN(PinAtLoc(g1, l), id, multiset(ids[1..])[PinAtLoc(g1, l).PinId()], back)
    ensures PinAtLoc(h, l) == DroppedN(PinAtLoc(g, l), id, multiset(ids)[PinAtLoc(g, l).PinId()], back)
  {
    var x := PinAtLoc(g, l).PinId();
    assert ids == [ids[0]] + ids[1..];
    assert multiset(ids)[x] == multiset(ids[1..])[x] + (if x == ids[0] then 1 else 0);
    if l == at {
      DroppedNStep(PinAtLoc(g, l), id, multiset(ids[1..])[x], back);
    } else if x == ids[0] {
      UniqueLoc(g, l, at);
    }
  }

  /** A pin with every copy of `x` gone from its `fromLinks`. */
  function StripFrom(p: Pin, x: int): (q: Pin)
    ensures Bare(q) == Bare(p) && ToIds(q) == ToIds(p) && x !in FromIds(q)
  {
    if p.PinAdapter? then p.(fromLinks := Without(p.fromLinks, x)) else p
  }

  /** A pin with every copy of `x` gone from both of its link lists. */
  function Stripped(p: Pin, x: int): (q: Pin)
    ensures Bare(q) == Bare(p) && x !in ToIds(q) && x !in FromIds(q)
  {
    if p.PinAdapter? then p.(toLinks := Without(p.toLinks, x), fromLinks := Without(p.fromLinks, x)) else p
  }

  /** No link list of the graph names `x`. */
  ghost predicate Isolated(g: Graph, x: int)
  {
    forall l :: x !in ToIds(PinAtLoc(g, l)) && x !in FromIds(PinAtLoc(g, l))
  }

  /** Removing all copies of `x` leaves every other element's count alone
      and keeps only elements that were there. */
  lemma WithoutSub(s: seq<int>, x: int)
    ensures forall y :: y in Without(s, x) ==> y in s
  {
    forall y | y in Without(s, x) ensures y in s {
      WithoutKeeps(s, x, y);
      assert multiset(Without(s, x))[y] > 0;
    }
  }

  /** The first loop of `clearLinks` on a pin of a well-formed graph drops
      every copy of the pin's id from every `fromLinks`: each pin names the
      subject there exactly as often as the subject's `toLinks` name it. */
  lemma ClearFirstLoop(g: Graph, s: Subject)
    requires WF(g) && Valid(g, s) && s.Held?
    ensures var self := Current(g, s);
      var g1 := DropAll(g, self.toLinks, self.pinId, true);
      && g1.GraphImpl? && Coherent(g1) && Relinked(g, g1)
      && forall l :: PinAtLoc(g1, l) == StripFrom(PinAtLoc(g, l), self.pinId)
  {
    var self, a0 := Current(g, s), LocOf(s);
    assert g.Nodes() == g.nodes;
    forall t | t in self.toLinks ensures t in PinIds(g.nodes) {
      assert t in ToIds(PinAtLoc(g, a0));
    }
    DropAllExact(g, self.toLinks, self.pinId, true);
    var g1 := DropAll(g, self.toLinks, self.pinId, true);
    forall l ensures PinAtLoc(g1, l) == StripFrom(PinAtLoc(g, l), self.pinId) {
      var p := PinAtLoc(g, l);
      if p.PinAdapter? {
        assert multiset(self.toLinks)[p.pinId] == Out(g, a0, l) == In(g, a0, l);
        RemoveNCount(p.fromLinks, self.pinId, multiset(self.toLinks)[p.pinId]);
      }
    }
  }

  /** The second loop of `clearLinks`, over what is left of the subject's
      `fromLinks`: every other pin loses every copy of the subject's id from
      its `toLinks`; the subject itself is not touched, since its id has
      already left its `fromLinks`. */
  lemma ClearSecondLoop(g: Graph, s: Subject, g1: Graph)
    requires WF(g) && Valid(g, s) && s.Held?
    requires g1.GraphImpl? && Coherent(g1) && Relinked(g, g1)
    requires forall l :: PinAtLoc(g1, l) == StripFrom(PinAtLoc(g, l), Current(g, s).pinId)
    ensures var self := Current(g, s);
      var g2 := DropAll(g1, Current(g1, s).fromLinks, self.pinId, false);
      && g2.GraphImpl? && Coherent(g2) && Relinked(g, g2)
      && PinAtLoc(g2, LocOf(s)) == StripFrom(self, self.pinId)
      && forall l :: l != LocOf(s) ==> PinAtLoc(g2, l) == Stripped(PinAtLoc(g, l), self.pinId)
  {
    var self, a0 := Current(g, s), LocOf(s);
    var sid := self.pinId;
    var from := Current(g1, s).fromLinks;
    assert from == Without(self.fromLinks, sid);
    RelinkedIds(g, g1);
    WithoutSub(self.fromLinks, sid);
    assert g.Nodes() == g.nodes;
    forall t | t in from ensures t in PinIds(g1.nodes) {
      assert t in FromIds(PinAtLoc(g, a0));
    }
    DropAllExact(g1, from, sid, false);
    var g2 := DropAll(g1, from, sid, false);
    RelinkedTrans(g, g1, g2);
    forall l | l != a0 ensures PinAtLoc(g2, l) == Stripped(PinAtLoc(g, l), sid) {
      var p := PinAtLoc(g, l);
      if p.PinAdapter? {
        if p.pinId == sid { UniqueLoc(g, l, a0); }
        WithoutKeeps(self.fromLinks, sid, p.pinId);
        assert multiset(from)[p.pinId] == In(g, l, a0) == Out(g, l, a0);
        RemoveNCount(p.toLinks, sid, multiset(from)[p.pinId]);
      }
    }
    assert multiset(from)[sid] == 0;
  }

  /** `clearLinks(graph)` on a pin of a well-formed graph: the pin's own
      lists end empty, every other pin loses every copy of the pin's id from
      both of its lists, nothing else changes but caches, and the graph stays
      well formed. */
  lemma ClearLinksWF(g: Graph, s: Subject)
    requires WF(g) && Valid(g, s) && s.Held?
    ensures var r := ClearLinks(g, s);
      var self := Current(g, s);
      && WF(r.graph) && Relinked(g, r.graph) && r.subject == s
      && forall l :: PinAtLoc(r.graph, l) == if l == LocOf(s) then Bare(self) else Stripped(PinAtLoc(g, l), self.pinId)
  {
    var self, a0 := Current(g, s), LocOf(s);
    var sid := self.pinId;
    ClearFirstLoop(g, s);
    var g1 := DropAll(g, self.toLinks, sid, true);
    ClearSecondLoop(g, s, g1);
    var g2 := DropAll(g1, Current(g1, s).fromLinks, sid, false);
    var p := Current(g2, s);
    var r := ClearLinks(g, s);
    assert r == Store(g2, s, p.(toLinks := [], fromLinks := []));
    assert r.graph == PutPin(g2, s.k, s.j, p.(toLinks := [], fromLinks := []));
    PutPinEdits(g2, s.k, s.j, p.(toLinks := [], fromLinks := []));
    EditKeepsCoherent(g2, r.graph, {a0});
    RelinkedTrans(g, g2, r.graph);
    forall l ensures PinAtLoc(r.graph, l) == if l == a0 then Bare(self) else Stripped(PinAtLoc(g, l), sid) {
    }
    ClearedWF(g, r.graph, a0);
  }

  /** A graph whose pin at `a0` has empty lists and whose other pins no
      longer name it is well formed if the graph it came from was. */
  lemma ClearedWF(g: Graph, h: Graph, a0: Loc)
    requires WF(g) && h.GraphImpl? && Coherent(h) && Relinked(g, h) && PinAtLoc(g, a0).PinAdapter?
    requires forall l :: PinAtLoc(h, l) == if l == a0 then Bare(PinAtLoc(g, a0)) else Stripped(PinAtLoc(g, l), PinAtLoc(g, a0).pinId)
    ensures WF(h)
  {
    RelinkedIds(g, h);
    forall a, b | PinAtLoc(h, a).PinAdapter? && PinAtLoc(h, b).PinAdapter? ensures Out(h, a, b) == In(h, a, b) {
      ClearedCount(g, h, a0, a, b);
    }
    forall l ensures multiset(ToIds(PinAtLoc(h, l))) <= multiset(ToIds(PinAtLoc(g, l)))
                  && multiset(FromIds(PinAtLoc(h, l))) <= multiset(FromIds(PinAtLoc(g, l)))
    {
      var sid := PinAtLoc(g, a0).pinId;
      if l != a0 && PinAtLoc(g, l).PinAdapter? {
        forall y ensures multiset(ToIds(PinAtLoc(h, l)))[y] <= multiset(ToIds(PinAtLoc(g, l)))[y]
                      && multiset(FromIds(PinAtLoc(h, l)))[y] <= multiset(FromIds(PinAtLoc(g, l)))[y]
        {
          if y != sid {
            WithoutKeeps(PinAtLoc(g, l).toLinks, sid, y);
            WithoutKeeps(PinAtLoc(g, l).fromLinks, sid, y);
          }
        }
      }
    }
    ShrinkClosed(g, h);
  }

  /** Both ends of one pair of pins agree after clearing. */
  lemma ClearedCount(g: Graph, h: Graph, a0: Loc, a: Loc, b: Loc)
    requires WF(g) && PinAtLoc(g, a0).PinAdapter?
    requires forall l :: PinAtLoc(h, l) == if l == a0 then Bare(PinAtLoc(g, a0)) else Stripped(PinAtLoc(g, l), PinAtLoc(g, a0).pinId)
    requires PinAtLoc(g, a).PinAdapter? && PinAtLoc(g, b).PinAdapter?
    ensures Out(h, a, b) == In(h, a, b)
  {
    var sid := PinAtLoc(g, a0).pinId;
    var pa, pb := PinAtLoc(g, a), PinAtLoc(g, b);
    if a != a0 && b != a0 {
      if pa.pinId == sid { UniqueLoc(g, a, a0); }
      if pb.pinId == sid { UniqueLoc(g, b, a0); }
      WithoutKeeps(pa.toLinks, sid, pb.pinId);
      WithoutKeeps(pb.fromLinks, sid, pa.pinId);
      assert Out(g, a, b) == In(g, a, b);
    } else if a == a0 && b != a0 {
      assert sid !in FromIds(PinAtLoc(h, b));
    } else if b == a0 && a != a0 {
      assert sid !in ToIds(PinAtLoc(h, a));
    }
  }

  /** `clearLinks(graph)` on a pin of a well-formed graph adds to the pin-id
      cache only ids the pin's own lists name, or -1. */
  lemma ClearLinksKeys(g: Graph, s: Subject)
    requires WF(g) && Valid(g, s) && s.Held?
    ensures var self := Current(g, s);
      forall key :: key in ClearLinks(g, s).graph.pinIdCache ==>
        key in g.pinIdCache || key in self.toLinks || key in self.fromLinks || key == -1
  {
    var self, a0 := Current(g, s), LocOf(s);
    var sid := self.pinId;
    assert g.Nodes() == g.nodes;
    forall t | t in self.toLinks ensures t in PinIds(g.nodes) {
      assert t in ToIds(PinAtLoc(g, a0));
    }
    DropAllKeys(g, self.toLinks, sid, true);
    ClearFirstLoop(g, s);
    var g1 := DropAll(g, self.toLinks, sid, true);
    var from := Current(g1, s).fromLinks;
    assert from == Without(self.fromLinks, sid);
    RelinkedIds(g, g1);
    WithoutSub(self.fromLinks, sid);
    forall t | t in from ensures t in PinIds(g1.nodes) {
      assert t in FromIds(PinAtLoc(g, a0));
    }
    DropAllKeys(g1, from, sid, false);
  }

  /** After `clearLinks(graph)` on a pin of a well-formed graph no pin is
      linked to or from it, and every link between two other pins is still
      there, as often as before. */
  lemma ClearLinksIsolates(g: Graph, s: Subject)
    requires WF(g) && Valid(g, s) && s.Held?
    ensures var r := ClearLinks(g, s);
      && Isolated(r.graph, Current(g, s).pinId)
      && forall a, b :: a != LocOf(s) && b != LocOf(s) && PinAtLoc(g, a).PinAdapter? && PinAtLoc(g, b).PinAdapter? ==>
           Out(r.graph, a, b) == Out(g, a, b)
  {
    ClearLinksWF(g, s);
    var r := ClearLinks(g, s);
    var sid, a0 := Current(g, s).pinId, LocOf(s);
    forall a, b | a != a0 && b != a0 && PinAtLoc(g, a).PinAdapter? && PinAtLoc(g, b).PinAdapter?
      ensures Out(r.graph, a, b) == Out(g, a, b)
    {
      if PinAtLoc(g, b).pinId == sid { UniqueLoc(g, b, a0); }
      WithoutKeeps(PinAtLoc(g, a).toLinks, sid, PinAtLoc(g, b).pinId);
    }
  }
}
