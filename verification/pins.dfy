/** Pins: the `IPin` interface with its `Empty` sentinel and the `PinAdapter`
    implementation every concrete pin of the repository extends. A link from
    pin A to pin B is stored twice, as B's id in A's `toLinks` and as A's id
    in B's `fromLinks`. This module holds the operations that touch one pin
    or a pair of distinct pin objects; the ones that resolve ids through a
    graph live in `Links`. */
module Pins {
  import opened Base

  /** A pin: the shared sentinel `IPin.Empty`, or a `PinAdapter` object. */
  datatype Pin =
    | EmptyPin
    | PinAdapter(nodeId: int, pinId: int, name: string, icon: Icon, io: InputOutput,
                 labelColor: int, baseColor: int, innerColor: int,
                 toLinks: seq<int>, fromLinks: seq<int>)
  {
    /** `isEmpty()`: true only for the sentinel. */
    predicate IsEmpty() { EmptyPin? }

    /** `pinId`; the sentinel's is -1. */
    function PinId(): int { if PinAdapter? then pinId else -1 }

    /** `nodeId`, the denormalised owner id; the sentinel's is -1. */
    function NodeId(): int { if PinAdapter? then nodeId else -1 }

    /** `io`; the sentinel's is `None`. */
    function Io(): InputOutput { if PinAdapter? then io else None }

    /** `label`; the sentinel's is empty. */
    function Label(): string { if PinAdapter? then name else "" }
  }

  /** A pin object that is not the sentinel: what a node's pin list holds. */
  type LivePin = p: Pin | p.PinAdapter?
    witness PinAdapter(-1, 0, "", Square, None, -1, -3355444, -14606047, [], [])

  /** The packed colours `#ffffff`, `#cccccc` and `#212121` (opaque alpha over
      equal channels), the defaults of a new `PinAdapter`. */
  const White: int := -1
  const LightGrey: int := -3355444
  const DarkGrey: int := -14606047

  /** `PinAdapter(label = .., type = .., io = ..)` with the remaining defaults:
      pin id 0, owner id -1, no links and the three default colours, each the
      32-bit word `0xff` alpha over the hex channels read as a signed `Int`. */
  function NewPin(name: string, icon: Icon, io: InputOutput): (p: LivePin)
    ensures p.PinId() == 0 && p.NodeId() == -1 && !p.IsEmpty()
    ensures p.Label() == name && p.Io() == io
    ensures p.toLinks == [] && p.fromLinks == []
    ensures p.labelColor == White == ToInt32(0xFFFF_FFFF)
    ensures p.baseColor == LightGrey == ToInt32(0xFFCC_CCCC)
    ensures p.innerColor == DarkGrey == ToInt32(0xFF21_2121)
  {
    PinAdapter(-1, 0, name, icon, io, White, LightGrey, DarkGrey, [], [])
  }

  /** `getFrom(i)`: the id stored at index `i` of `fromLinks`, or -1 when `i` is
      out of bounds (always -1 on the sentinel). */
  function GetFrom(p: Pin, i: int): (r: int)
    ensures p.PinAdapter? && 0 <= i < |p.fromLinks| ==> r == p.fromLinks[i]
    ensures !(p.PinAdapter? && 0 <= i < |p.fromLinks|) ==> r == -1
  {
    if p.EmptyPin? || i < 0 || i >= |p.fromLinks| then -1 else p.fromLinks[i]
  }

  /** `getTo(i)`: the id stored at index `i` of `toLinks`, or -1 when `i` is out
      of bounds (always -1 on the sentinel). */
  function GetTo(p: Pin, i: int): (r: int)
    ensures p.PinAdapter? && 0 <= i < |p.toLinks| ==> r == p.toLinks[i]
    ensures !(p.PinAdapter? && 0 <= i < |p.toLinks|) ==> r == -1
  {
    if p.EmptyPin? || i < 0 || i >= |p.toLinks| then -1 else p.toLinks[i]
  }

  /** The ids `forEachTo { }` visits, in list order (none on the sentinel). */
  function ToIds(p: Pin): seq<int>
  {
    if p.PinAdapter? then p.toLinks else []
  }

  /** The ids `forEachFrom { }` visits, in list order (none on the sentinel). */
  function FromIds(p: Pin): seq<int>
  {
    if p.PinAdapter? then p.fromLinks else []
  }

  /** `hasToLinks()`. */
  predicate HasToLinks(p: Pin)
  {
    p.PinAdapter? && |p.toLinks| > 0
  }

  /** `hasFromLinks()`. */
  predicate HasFromLinks(p: Pin)
  {
    p.PinAdapter? && |p.fromLinks| > 0
  }

  /** `isLinkedTo(other)`: `other`'s id is among this pin's `toLinks`. */
  predicate IsLinkedTo(p: Pin, other: Pin)
  {
    p.PinAdapter? && other.PinId() in p.toLinks
  }

  /** `isLinkedFrom(other)`: `other` is a `PinAdapter` whose `fromLinks` hold this
      pin's id, that is, the link this pin made to `other` is recorded on
      `other`'s side. */
  predicate IsLinkedFrom(p: Pin, other: Pin)
  {
    p.PinAdapter? && other.PinAdapter? && p.pinId in other.fromLinks
  }

  /** The state of two distinct pin objects after a link call, and its result. */
  datatype Linked = Linked(self: Pin, other: Pin, index: int)

  /** `self.addLink(other)` for two distinct objects: append `other`'s id to
      `self.toLinks` and, when `other` is a `PinAdapter`, `self`'s id to
      `other.fromLinks`; the result is the new last index of `toLinks`. There
      is no duplicate and no role check. The sentinel answers 0 and records
      nothing. */
  function AddLink(self: Pin, other: Pin): (r: Linked)
    ensures self.EmptyPin? ==> r == Linked(self, other, 0)
    ensures self.PinAdapter? ==>
      && r.self.PinAdapter?
      && r.index == |self.toLinks|
      && |r.self.toLinks| == r.index + 1
      && r.self.toLinks[..r.index] == self.toLinks
      && GetTo(r.self, r.index) == other.PinId()
      && GetTo(r.self, r.index + 1) == -1
      && r.self.fromLinks == self.fromLinks
      && r.self.(toLinks := self.toLinks) == self
    ensures self.PinAdapter? && other.PinAdapter? ==>
      && r.other.PinAdapter?
      && r.other.fromLinks == other.fromLinks + [self.pinId]
      && r.other.(fromLinks := other.fromLinks) == other
    ensures other.EmptyPin? ==> r.other == other
    ensures r.index != -1
  {
    match self
    case EmptyPin => Linked(self, other, 0)
    case PinAdapter(_, _, _, _, _, _, _, _, _, _) =>
      var to := self.toLinks + [other.PinId()];
      var other' := if other.PinAdapter? then other.(fromLinks := other.fromLinks + [self.pinId]) else other;
      Linked(self.(toLinks := to), other', |to| - 1)
  }

  /** After `addLink` the link is visible from both ends. */
  lemma AddLinkLinksBothEnds(self: Pin, other: Pin)
    requires self.PinAdapter? && other.PinAdapter?
    ensures IsLinkedTo(AddLink(self, other).self, other)
    ensures IsLinkedFrom(AddLink(self, other).self, AddLink(self, other).other)
    ensures HasToLinks(AddLink(self, other).self) && HasFromLinks(AddLink(self, other).other)
  {
    var r := AddLink(self, other);
    assert r.self.toLinks[r.index] == other.PinId();
    assert r.other.fromLinks[|other.fromLinks|] == self.pinId;
  }

  /** The state of two distinct pin objects after `removeLink`, and its result. */
  datatype Unlinked = Unlinked(self: Pin, other: Pin, removed: bool)

  /** `self.removeLink(other)` for two distinct objects. On a `PinAdapter`
      `other` it is `toLinks.remove(other.pinId) && other.fromLinks.remove(pinId)`:
      the first removal happens whenever the id is present, the second only if
      the first succeeded, and the answer is true only when both did. So a
      link recorded on the source side only loses its `toLinks` entry and the
      call still answers false. On any other `other` only the first removal is
      made. The sentinel answers false. */
  function RemoveLink(self: Pin, other: Pin): (r: Unlinked)
    ensures self.EmptyPin? ==> r == Unlinked(self, other, false)
    ensures r.self.PinAdapter? == self.PinAdapter? && r.other.PinAdapter? == other.PinAdapter?
    ensures self.PinAdapter? && other.PinAdapter? ==>
      (r.removed <==> other.pinId in self.toLinks && self.pinId in other.fromLinks)
    ensures self.PinAdapter? && other.EmptyPin? ==> (r.removed <==> -1 in self.toLinks)
    ensures self.PinAdapter? ==>
      && r.self == self.(toLinks := RemoveFirst(self.toLinks, other.PinId()).rest)
      && (other.PinId() in self.toLinks ==> |r.self.toLinks| == |self.toLinks| - 1)
    ensures self.PinAdapter? && other.PinAdapter? && other.pinId in self.toLinks ==>
      r.other == other.(fromLinks := RemoveFirst(other.fromLinks, self.pinId).rest)
    ensures !(self.PinAdapter? && other.PinAdapter? && other.pinId in self.toLinks) ==>
      r.other == other
  {
    match self
    case EmptyPin => Unlinked(self, other, false)
    case PinAdapter(_, _, _, _, _, _, _, _, _, _) =>
      var t := RemoveFirst(self.toLinks, other.PinId());
      var self' := self.(toLinks := t.rest);
      if other.PinAdapter? then
        if t.removed then
          var f := RemoveFirst(other.fromLinks, self.pinId);
          Unlinked(self', other.(fromLinks := f.rest), f.removed)
        else Unlinked(self', other, false)
      else Unlinked(self', other, t.removed)
  }

  /** `removeLink` undoes an `addLink` between two pins that were not yet linked. */
  lemma RemoveLinkUndoesAddLink(self: Pin, other: Pin)
    requires self.PinAdapter? && other.PinAdapter?
    requires other.pinId !in self.toLinks && self.pinId !in other.fromLinks
    ensures var a := AddLink(self, other);
            RemoveLink(a.self, a.other) == Unlinked(self, other, true)
  {
    var a := AddLink(self, other);
    RemoveFirstAppended(self.toLinks, other.pinId);
    RemoveFirstAppended(other.fromLinks, self.pinId);
  }

  /** Removing the one copy of `x` that was appended to `s` gives `s` back. */
  lemma RemoveFirstAppended(s: seq<int>, x: int)
    requires x !in s
    ensures RemoveFirst(s + [x], x) == Removal(s, true)
  {
    assert IndexOf(s + [x], x) == |s| by {
      assert (s + [x])[..|s|] == s;
    }
    RemoveFirstShape(s + [x], x);
    assert (s + [x])[..|s|] == s;
  }

  /** `removeLink` is not atomic: a link present only on the source side is
      half removed (its `toLinks` entry goes) while the call answers false. */
  lemma RemoveLinkNotAtomic()
    ensures var a := PinAdapter(1, 10, "a", Square, Output, 0, 0, 0, [20], []);
            var b := PinAdapter(2, 20, "b", Square, Input, 0, 0, 0, [], []);
            var r := RemoveLink(a, b);
            !r.removed && r.self.toLinks == [] && !IsLinkedTo(r.self, b)
  {
    var a := PinAdapter(1, 10, "a", Square, Output, 0, 0, 0, [20], []);
    var b := PinAdapter(2, 20, "b", Square, Input, 0, 0, 0, [], []);
    assert IndexOf(a.toLinks, 20) == 0;
    RemoveFirstShape(a.toLinks, 20);
  }

  /** `equals`: the sentinel keeps `Any.equals` (identity), a `PinAdapter`
      compares only `pinId` and `io` with any `IPin`. */
  predicate Equals(a: Pin, b: Pin)
  {
    if a.EmptyPin? then b.EmptyPin? else a.pinId == b.PinId() && a.io == b.Io()
  }

  /** `hashCode()` of a `PinAdapter`: `31 * pinId + io.hashCode()` in 32-bit
      arithmetic. The enum's hash is the runtime's identity hash, so it is a
      parameter. */
  function HashCode(p: LivePin, ioHash: InputOutput -> int): (r: int)
    ensures -0x8000_0000 <= r < 0x8000_0000
    ensures (r - (31 * p.pinId + ioHash(p.io))) % 0x1_0000_0000 == 0
  {
    var h := ToInt32(31 * p.pinId);
    ToInt32(h + ioHash(p.io))
  }

  /** Equality and hash see only the id and the role: label, icon, colours,
      owner and links play no part, and equal pins hash alike. */
  lemma EqualityIgnoresPayload(a: LivePin, b: LivePin, ioHash: InputOutput -> int)
    requires a.pinId == b.pinId && a.io == b.io
    ensures Equals(a, b) && Equals(b, a)
    ensures HashCode(a, ioHash) == HashCode(b, ioHash)
  {
  }

  /** `equals` is not symmetric across the sentinel: an adapter with id -1 and
      role `None` equals `IPin.Empty`, which equals only itself. */
  lemma EqualsAsymmetricAtSentinel()
    ensures var a := PinAdapter(-1, -1, "x", Square, None, 0, 0, 0, [1], []);
            Equals(a, EmptyPin) && !Equals(EmptyPin, a)
  {
  }

  /** What `serializeNBT()` writes for a pin: the `IPin` base fields plus the
      two link lists as int arrays. */
  datatype PinRecord = PinRecord(nodeId: int, pinId: int, name: string, icon: Icon,
                                 labelColor: int, innerColor: int, baseColor: int,
                                 io: InputOutput, toLinks: seq<int>, fromLinks: seq<int>)

  /** `serializeNBT()`. The sentinel uses the interface default, which writes no
      link arrays; reading a missing int array gives an empty one. */
  function SerializePin(p: Pin): (r: PinRecord)
    ensures r.pinId == p.PinId() && r.nodeId == p.NodeId() && r.io == p.Io()
  {
    match p
    case EmptyPin => PinRecord(-1, -1, "", NoIcon, 0, 0, 0, None, [], [])
    case PinAdapter(_, _, _, _, _, _, _, _, _, _) =>
      PinRecord(p.nodeId, p.pinId, p.name, p.icon, p.labelColor, p.innerColor, p.baseColor,
                p.io, p.toLinks, p.fromLinks)
  }

  /** Reading a pin record into a freshly built `PinAdapter`: the `IPin` base
      fields, then both link lists cleared and refilled in order. Every field
      of the adapter is read, so the blank's own values do not survive. */
  function DeserializePin(r: PinRecord): (p: LivePin)
    ensures p.PinId() == r.pinId && p.NodeId() == r.nodeId && p.Io() == r.io
    ensures p.toLinks == r.toLinks && p.fromLinks == r.fromLinks
  {
    PinAdapter(r.nodeId, r.pinId, r.name, r.icon, r.io, r.labelColor, r.baseColor, r.innerColor,
               r.toLinks, r.fromLinks)
  }

  /** Reading back what a `PinAdapter` wrote rebuilds the same pin. */
  lemma PinRoundTrip(p: LivePin)
    ensures DeserializePin(SerializePin(p)) == p
  {
  }

  /** Writing a pin read from a record reproduces the record. */
  lemma PinRecordRoundTrip(r: PinRecord)
    ensures SerializePin(DeserializePin(r)) == r
  {
  }
}
