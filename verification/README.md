# Node graph core, modelled in Dafny

This project models the core of a node-graph editor library. A **graph**
(`GraphImpl`, or the null object `IGraph.Empty`) holds an ordered list of
**nodes** (`NodeAdapter`, or `INode.Empty`). Each node holds an ordered list
of **pins** (`PinAdapter`, or `IPin.Empty`). Each pin records its links as two
integer lists:
- `toLinks`: the ids of the pins it links to;
- `fromLinks`: the ids of the pins that link to it.

The graph hands out node and pin ids from one counter (`nextId`). It keeps
four lookup caches:
- `nodeIdCache`: node id to node;
- `pinIdCache`: pin id to pin;
- `pinIdToNodeCache`: pin id to the node that owns it;
- `activeIdCache`: the ids known to be in use.

Each node keeps two caches of its own: pin id to pin, and label to pin. A
lookup can therefore change the state it reads: it fills caches and
re-stamps a found pin with its owner's id. Every lookup in the model returns
the updated graph or node together with its answer.

The model is a set of immutable values:
- Object identity, which the source gets from Kotlin references, is an `oid`
  carried by each node.
- The graph's caches map keys to an `oid` or to an (`oid`, pin index) pair. A
  cache hit is answered exactly as the source answers it.
- The sentinels are datatype variants, and every operation has a branch for
  them.

The modules follow the program's structure:

| module | what it models |
|---|---|
| `Base` | the `Float` bit patterns, a nullable value, list removal, 32-bit truncation |
| `Pins` | `PinAdapter` and `IPin.Empty`: the link lists, equality, hashing, (de)serialisation |
| `Nodes` | `NodeAdapter` and `INode.Empty`: the pin list, the cached pin lookups by id and by label, the hooks, (de)serialisation |
| `Graphs` | `GraphImpl` and `IGraph.Empty`: `findNode`, `hasNode`, `findPin`, `hasPin`, `findNodeByPin` |
| `Ids` | `isIdUsed` and `nextId` |
| `Lifecycle` | `addNode` |
| `Links` | the pin operations that resolve ids through a graph: `addLink`, `removeLink`, `isLinkedTo`, `isLinkedFrom`, `forEachTo`, `forEachFrom`, `clearLinks` |
| `Wellformed` | the graph invariant `WF`, and proofs that the link operations keep it |
| `Removal` | `removeNode` |
| `Traversal` | `hasLinkedNode` and `getLinkedNode` |
| `Persistence` | `serializeNBT` and `deserializeNBT` of a graph |

`WF(g)` is the invariant the graph is meant to keep:
- node and pin ids are non-negative and pairwise distinct;
- every pin carries its owner's id;
- every cache entry is right about the ids in use;
- every id in a link list is a pin of the graph;
- every link is recorded at both ends equally often.

The lemmas about `addLink`, `removeLink`, `clearLinks`, `removeNode`,
`getLinkedNode` and `hasLinkedNode` are stated for well-formed graphs.

## Model

| member | source | states |
|---|---|---|
| Pins.NewPin | src/api/kotlin/me/jraynor/api/core/impl/PinAdapter.kt:9-19 | A new pin has id 0, owner -1, the label and role it was given, and no links. Its label, base and inner colours are `#ffffff`, `#cccccc` and `#212121` with opaque alpha, packed into a signed 32-bit word (-1, -3355444 and -14606047). |
| Pins.GetFrom | src/api/kotlin/me/jraynor/api/core/impl/PinAdapter.kt:28-31 | The i-th `fromLinks` entry inside the bounds; -1 outside them and on the sentinel. |
| Pins.GetTo | src/api/kotlin/me/jraynor/api/core/impl/PinAdapter.kt:34-37 | The i-th `toLinks` entry inside the bounds; -1 outside them and on the sentinel. |
| Pins.AddLink | src/api/kotlin/me/jraynor/api/core/impl/PinAdapter.kt:49-56 | Appends the other pin's id to `toLinks` and this pin's id to the other's `fromLinks`, and changes nothing else. It answers the new entry's index, which `getTo` then reads back. There is no duplicate check. The sentinel answers 0. |
| Pins.AddLinkLinksBothEnds | src/api/kotlin/me/jraynor/api/core/impl/PinAdapter.kt:49-56 | After `addLink`, `isLinkedTo`, `isLinkedFrom`, `hasToLinks` and `hasFromLinks` all hold. |
| Pins.RemoveLink | src/api/kotlin/me/jraynor/api/core/impl/PinAdapter.kt:59-63 | Answers true iff the link is recorded on both ends. The `toLinks` entry goes whenever it exists. `other`'s `fromLinks` loses its first copy of the caller's id exactly when `other` is a `PinAdapter` and the first removal happened; otherwise `other` is unchanged. |
| Pins.RemoveLinkUndoesAddLink | src/api/kotlin/me/jraynor/api/core/impl/PinAdapter.kt:49-63 | `removeLink` right after `addLink` between two unlinked pins restores both pins and answers true. |
| Pins.RemoveLinkNotAtomic | src/api/kotlin/me/jraynor/api/core/impl/PinAdapter.kt:59-63 | A link recorded only on the source side loses its `toLinks` entry while the call answers false. |
| Pins.HashCode | src/api/kotlin/me/jraynor/api/core/impl/PinAdapter.kt:150-154 | The hash is `31 * pinId + io.hashCode()` reduced to a signed 32-bit value. |
| Pins.EqualityIgnoresPayload | src/api/kotlin/me/jraynor/api/core/impl/PinAdapter.kt:141-154 | Two adapters with the same id and role are equal both ways and hash alike, whatever their labels, colours and links. |
| Pins.EqualsAsymmetricAtSentinel | src/api/kotlin/me/jraynor/api/core/impl/PinAdapter.kt:141-147 | An adapter with id -1 and role `None` equals `IPin.Empty`, but not the other way round. |
| Pins.PinRoundTrip | src/api/kotlin/me/jraynor/api/core/impl/PinAdapter.kt:122-135 | Reading back what a pin wrote rebuilds the same pin. |
| Pins.PinRecordRoundTrip | src/api/kotlin/me/jraynor/api/core/IPin.kt:102-125 | Writing a pin read from a record reproduces the record. |
| Nodes.NewNode | src/api/kotlin/me/jraynor/api/core/impl/NodeAdapter.kt:13-21 | A new node is the given object, of the given class, with the given hooks and title. It is detached, has id 0, an unset position, the title colour `#ffffff` and header colour `#8c8c8c`, no pins and empty caches. |
| Nodes.AddPin | src/api/kotlin/me/jraynor/api/core/impl/NodeAdapter.kt:35-39 | The count grows by one. The new last pin is the given one, stamped with the node's id. Earlier pins and every other field are unchanged. |
| Nodes.AddPins | src/api/kotlin/me/jraynor/api/core/impl/NodeAdapter.kt:35-38 | Adding pins one by one keeps the earlier pins and everything else, and appends the new pins in order, each stamped with the node's id. |
| Nodes.ConstructedNodeUnqueried | src/api/kotlin/me/jraynor/api/core/impl/NodeAdapter.kt:13-38 | A node as its constructor leaves it, a new node plus `addPin` calls, holds exactly the given pins stamped with id 0, and its pin caches are empty and sound. |
| Nodes.Count | src/api/kotlin/me/jraynor/api/core/impl/NodeAdapter.kt:42 | The count is -1 exactly on `INode.Empty`. |
| Nodes.Get | src/api/kotlin/me/jraynor/api/core/impl/NodeAdapter.kt:46-49 | The sentinel pin iff the index is outside `[0, count)`; otherwise the pin at that index. |
| Nodes.HasPinsIffCount | src/api/kotlin/me/jraynor/api/core/impl/NodeAdapter.kt:42-52 | `hasPins()` holds iff `count > 0`, iff `get(0)` is not the sentinel. |
| Nodes.GetPinById | src/api/kotlin/me/jraynor/api/core/impl/NodeAdapter.kt:91-101 | On a cache miss: the first pin with the id, stamped with the node's id, or the sentinel iff no pin has the id. On a sound cache: a pin carrying the id, or the sentinel iff there is none. |
| Nodes.HasPinById | src/api/kotlin/me/jraynor/api/core/impl/NodeAdapter.kt:55-64 | The sentinel answers false. On a cache hit, true with the node unchanged, whatever the cached pin now carries. On a miss, true iff some pin carries the id. With a sound cache, true iff some pin carries the id. |
| Nodes.HasPinByIdStaleHit | src/api/kotlin/me/jraynor/api/core/impl/NodeAdapter.kt:55-64 | A cache entry under an id that its pin no longer carries still answers true, while no pin carries the id. |
| Nodes.HasPinByIdAgrees | src/api/kotlin/me/jraynor/api/core/impl/NodeAdapter.kt:55-64 | `hasPin(id)` answers whether `getPin(id)` is not the sentinel, and leaves the node in the same state. |
| Nodes.GetPinByLabel | src/api/kotlin/me/jraynor/api/core/impl/NodeAdapter.kt:104-114 | Like the lookup by id, with labels: on a miss, the first pin with the label; the sentinel iff none has it. |
| Nodes.HasPinByLabel | src/api/kotlin/me/jraynor/api/core/impl/NodeAdapter.kt:67-76 | The sentinel answers false. On a cache hit, true with the node unchanged. On a miss, true iff some pin has the label. With a sound cache, true iff some pin has the label. |
| Nodes.HasPinByLabelAgrees | src/api/kotlin/me/jraynor/api/core/impl/NodeAdapter.kt:67-76 | `hasPin(name)` answers whether `getPin(name)` is not the sentinel. |
| Nodes.LabelLookupNotFirst | src/api/kotlin/me/jraynor/api/core/impl/NodeAdapter.kt:104-114 | A scan for another label overwrites the cache entry, so a later lookup answers the second of two pins sharing a label. |
| Nodes.DefaultHooksAcceptAll | src/api/kotlin/me/jraynor/api/core/INode.kt:70-88 | Without overrides, `onAdd`, `onRemove` and `canLink` all accept. |
| Nodes.EmptyNodeAnswersNothing | src/api/kotlin/me/jraynor/api/core/INode.kt:108-131 | `INode.Empty` has count -1, id -1 and no pins. Every pin lookup on it answers the sentinel or false. |
| Nodes.DeserializeNode | src/api/kotlin/me/jraynor/api/core/impl/NodeAdapter.kt:186-190 | Reads the id, position and title, and rebuilds one pin per record, into a freshly constructed node. The node's identity, class, hooks, attachment and colours are kept. The fresh node's pin caches are empty and stay empty. |
| Nodes.NodeRoundTrip | src/api/kotlin/me/jraynor/api/core/impl/NodeAdapter.kt:181-190 | Reading back what a node wrote restores its id, position, title and pins. The colours are the receiving object's. |
| Graphs.NewGraph | src/api/kotlin/me/jraynor/api/core/impl/GraphImpl.kt:12-40 | A new graph is not the sentinel and has no nodes. Its id hint is 0, its centre is `Float.MIN_VALUE` on both axes, and all four caches are empty. |
| Graphs.FindNode | src/api/kotlin/me/jraynor/api/core/impl/GraphImpl.kt:45-54 | Negative id or sentinel graph: `INode.Empty`. Cache hit: the cached node, with the graph unchanged. Cache miss: the first node in list order with the id, or `INode.Empty` iff none. Coherent graph: a node carrying the id whenever one exists, with the cache still coherent. Only the node cache changes. |
| Graphs.HasNode | src/api/kotlin/me/jraynor/api/core/impl/GraphImpl.kt:57-66 | False for a negative id or the sentinel graph. On a cache hit, true with the graph unchanged. On a miss, true iff some node carries the id. |
| Graphs.HasNodeAgreesWithFindNode | src/api/kotlin/me/jraynor/api/core/impl/GraphImpl.kt:45-66 | `hasNode` answers whether `findNode` finds a node, and leaves the graph alike, as long as no cached node has left the list. |
| Graphs.FindPin | src/api/kotlin/me/jraynor/api/core/impl/GraphImpl.kt:69-80 | Negative id or sentinel graph: `IPin.Empty`. Cache hit: the cached pin, with the graph unchanged. Cache miss with sound node caches: the sentinel iff no pin has the id; otherwise a pin carrying it, from the first node holding one. A coherent graph stays coherent. |
| Graphs.FindPinKeys | src/api/kotlin/me/jraynor/api/core/impl/GraphImpl.kt:69-80 | With sound node caches, `findPin` adds to `pinIdCache` only the id it was asked for, or -1 for `IPin.Empty` after a node that lacks it. |
| Graphs.HasPin | src/api/kotlin/me/jraynor/api/core/impl/GraphImpl.kt:83-93 | False for a negative id or the sentinel graph. On a cache hit, true with the graph unchanged. On a miss with sound node caches, true iff some pin carries the id. A coherent graph stays coherent. |
| Graphs.HasPinAgreesWithFindPin | src/api/kotlin/me/jraynor/api/core/impl/GraphImpl.kt:69-93 | `hasPin` answers whether `findPin` finds a pin, as long as every cached pin is still reachable. |
| Graphs.FindOwner | src/api/kotlin/me/jraynor/api/core/impl/GraphImpl.kt:98-107 | The lookup for a set of accepted roles. On a cache hit, the cached node whatever the role. On a miss with sound node caches and distinct ids, a node holding the pin with an accepted role, or `INode.Empty` iff no node does. A coherent graph stays coherent. |
| Graphs.FindNodeByPin | src/api/kotlin/me/jraynor/api/core/impl/GraphImpl.kt:98-107 | The code as written, accepting exactly the role `forIo`, `None` included. On a cache hit, the cached node whatever the role. On a miss with sound node caches and distinct ids, a node holding the pin with that role, or `INode.Empty` iff no node does. A coherent graph stays coherent. |
| Graphs.FindNodeByPinDefaultMisses | src/api/kotlin/me/jraynor/api/core/impl/GraphImpl.kt:98-107 | With the default `None`, the lookup of an output pin answers `INode.Empty`, yet records the owner, so the same call answers that owner next time. The documented lookup answers it at once. |
| Graphs.FindNodeByPinAnyRole | src/api/kotlin/me/jraynor/api/core/IGraph.kt:40-43 | The documented lookup: for a role other than `None` it is the code's lookup; for `None` any role is accepted. |
| Graphs.FindNodeByPinAnyRoleFinds | src/api/kotlin/me/jraynor/api/core/IGraph.kt:40-43 | On a miss with sound node caches and distinct ids, the documented lookup with `None` finds a node iff some pin carries the id, and the node it answers holds such a pin. |
| Graphs.FindNodeByPinHitIgnoresRole | src/api/kotlin/me/jraynor/api/core/impl/GraphImpl.kt:98-107 | A lookup that met the pin with the other role still records its owner; the next lookup for the first role answers that owner. |
| Ids.IsIdUsedAnswers | src/api/kotlin/me/jraynor/api/core/impl/GraphImpl.kt:110-132 | True iff the id is in use: a cache key, an active id, or a node or pin id of the list. The set of used ids does not change. |
| Ids.NextIdSmallestFree | src/api/kotlin/me/jraynor/api/core/impl/GraphImpl.kt:135-140 | The answer is the smallest id not in use that is at least the hint. |
| Ids.NextIdFresh | src/api/kotlin/me/jraynor/api/core/impl/GraphImpl.kt:135-140 | The answer is no node id, no pin id and no cache key, and is non-negative when the hint is. |
| Ids.NextIdRemembers | src/api/kotlin/me/jraynor/api/core/impl/GraphImpl.kt:110-140 | After `nextId` every node and pin id of the list is a cache key, and no cache key is lost. |
| Ids.NextIdCoherent | src/api/kotlin/me/jraynor/api/core/impl/GraphImpl.kt:110-140 | `nextId`'s scans keep the caches coherent. |
| Ids.NextId | src/api/kotlin/me/jraynor/api/core/impl/GraphImpl.kt:135-140 | -1 on `IGraph.Empty`. On a `GraphImpl`, only the caches, the pin stamps and the hint change. |
| Ids.NextIdStable | src/api/kotlin/me/jraynor/api/core/impl/GraphImpl.kt:135-140 | Calling `nextId` again, with nothing added in between, answers the same id. |
| Lifecycle.AddNode | src/api/kotlin/me/jraynor/api/core/impl/GraphImpl.kt:145-160 | Refused by the sentinel graph, for the sentinel node, or on an `onAdd` veto, with nothing changed. Otherwise it answers true, the list grows by one, and the centre stays. |
| Lifecycle.AddNodeNumbers | src/api/kotlin/me/jraynor/api/core/impl/GraphImpl.kt:145-160 | The appended node is the given one, attached, with the same pins in order, each stamped with the node's new id. The earlier nodes keep their identity. |
| Lifecycle.AddNodeFresh | src/api/kotlin/me/jraynor/api/core/impl/GraphImpl.kt:145-160 | The new node id and pin ids are pairwise distinct. None of them was in use or carried by the node before, and none is below the hint. |
| Lifecycle.AddNodeKeepsIdsDistinct | src/api/kotlin/me/jraynor/api/core/impl/GraphImpl.kt:145-160 | Adding a node keeps all node and pin ids distinct and non-negative. |
| Lifecycle.AddNodeKeepsCoherent | src/api/kotlin/me/jraynor/api/core/impl/GraphImpl.kt:145-160 | Adding a node whose carried ids are unused keeps the caches coherent. |
| Lifecycle.AddNodeLeavesStaleKey | src/api/kotlin/me/jraynor/api/core/impl/GraphImpl.kt:145-160 | A fresh node added to a fresh graph is cached under its default id 0 and then renumbered 1, so `findNode(0)` answers a node whose id is 1. |
| Lifecycle.AddNodeUnnumbered | src/api/kotlin/me/jraynor/api/core/impl/GraphImpl.kt:145-160 | The corrected `addNode` clears the node's and pins' ids first. It answers true iff the source's `addNode` would, and changes nothing otherwise. |
| Lifecycle.AddNodeUnnumberedKeysLive | src/api/kotlin/me/jraynor/api/core/impl/GraphImpl.kt:145-160 | After the corrected `addNode`, every non-negative cache key is still a current id. |
| Lifecycle.AddNodeUnnumberedFindsOwnId | src/api/kotlin/me/jraynor/api/core/impl/GraphImpl.kt:45-54 | After the corrected `addNode`, the caches stay coherent and `findNode(id)` answers a node carrying `id`, or `INode.Empty`. |
| Lifecycle.FindNodeAnswersOwnId | src/api/kotlin/me/jraynor/api/core/impl/GraphImpl.kt:45-54 | When every cache key is a current id, `findNode(id)` never answers a node carrying another id. |
| Links.ResolveFinds | src/api/kotlin/me/jraynor/api/core/IPin.kt:90-96 | In a coherent graph, each lookup of a run answers a pin carrying the id asked for, whenever one exists, and the caches stay coherent. |
| Links.ForEachTo | src/api/kotlin/me/jraynor/api/core/IPin.kt:90 | Visits one pin per `toLinks` entry, in order. In a coherent graph each visited pin carries its entry's id. The sentinel visits nothing. |
| Links.ForEachFrom | src/api/kotlin/me/jraynor/api/core/IPin.kt:96 | The same for `fromLinks`. |
| Links.AddLinkById | src/api/kotlin/me/jraynor/api/core/impl/PinAdapter.kt:41-45 | -1 with no link recorded iff `findPin` answers the sentinel; otherwise `addLink` on the resolved pin. The sentinel pin answers 0. |
| Links.RemoveLinkById | src/api/kotlin/me/jraynor/api/core/impl/PinAdapter.kt:66-70 | False iff the id resolves to the sentinel; otherwise `removeLink` on the resolved pin. |
| Links.UnlinkAtRemoves | src/api/kotlin/me/jraynor/api/core/impl/PinAdapter.kt:59-63 | Only the two link lists change, and the answer says whether both removals happened. This holds also when a pin unlinks itself. |
| Links.IsLinkedToById | src/api/kotlin/me/jraynor/api/core/impl/PinAdapter.kt:96-100 | In a coherent graph, for an id some pin carries: true iff the id is in the subject's `toLinks`. |
| Links.IsLinkedFromById | src/api/kotlin/me/jraynor/api/core/impl/PinAdapter.kt:109-113 | In a coherent graph: true iff the resolved pin's `fromLinks` hold the subject's id. |
| Links.ClearLinks | src/api/kotlin/me/jraynor/api/core/impl/PinAdapter.kt:73-84 | The subject ends with both lists empty and keeps its id. Only pins and the pin cache change. |
| Wellformed.NewGraphWF | src/api/kotlin/me/jraynor/api/core/impl/GraphImpl.kt:12-40 | A new graph is well formed. |
| Wellformed.FindPinWF | src/api/kotlin/me/jraynor/api/core/impl/GraphImpl.kt:69-80 | `findPin` keeps a well-formed graph well formed and leaves every pin as it was; for an id in the graph it answers the one pin carrying it. |
| Wellformed.AddLinkByIdWF | src/api/kotlin/me/jraynor/api/core/impl/PinAdapter.kt:41-56 | On a well-formed graph, the graph stays well formed. For an id in the graph, exactly one more link from the subject to that pin is counted, at both ends; every other count is unchanged. |
| Wellformed.RemoveLinkByIdWF | src/api/kotlin/me/jraynor/api/core/impl/PinAdapter.kt:59-70 | On a well-formed graph, the graph stays well formed. It answers true iff a link from the subject to that pin existed, which then has one fewer copy; every other count is unchanged. |
| Wellformed.RemoveLinkUndoesAddLinkById | src/api/kotlin/me/jraynor/api/core/impl/PinAdapter.kt:41-70 | `removeLink(x)` right after `addLink(x)` answers true and restores every link count. |
| Wellformed.IsLinkedBothEnds | src/api/kotlin/me/jraynor/api/core/impl/PinAdapter.kt:96-113 | In a well-formed graph, `isLinkedTo(x)` and `isLinkedFrom(x)` agree, and hold iff a link to that pin exists. |
| Wellformed.AddLinkByIdLinks | src/api/kotlin/me/jraynor/api/core/impl/PinAdapter.kt:41-56 | After `addLink(x)`, both `isLinkedTo(x)` and `isLinkedFrom(x)` hold. |
| Wellformed.ClearLinksWF | src/api/kotlin/me/jraynor/api/core/impl/PinAdapter.kt:73-84 | On a well-formed graph, the graph stays well formed. The subject keeps everything but its links, and every other pin loses exactly the entries naming the subject. |
| Wellformed.ClearLinksIsolates | src/api/kotlin/me/jraynor/api/core/impl/PinAdapter.kt:73-84 | Afterwards no list names the subject, and links between other pins are counted as before. |
| Wellformed.ClearLinksKeys | src/api/kotlin/me/jraynor/api/core/impl/PinAdapter.kt:73-84 | On a well-formed graph, `clearLinks` adds to `pinIdCache` only ids the subject's own lists name, or -1. |
| Removal.RemoveNode | src/api/kotlin/me/jraynor/api/core/impl/GraphImpl.kt:164-175 | True iff the list holds the node and it does not veto. The sentinel graph and a veto change nothing, the node object included. The node object the caller passed in is returned in its final state, listed or not. |
| Removal.RemoveNodeClearsNode | src/api/kotlin/me/jraynor/api/core/impl/GraphImpl.kt:165-167 | Unless the node vetoes, the node object comes back with the same identity, id and pin ids, and every pin's `toLinks` and `fromLinks` empty, whether or not the list held it. For an unlisted node, or in a well-formed graph, each pin is otherwise as it was. |
| Removal.RemovedNodeFindsNothing | src/api/kotlin/me/jraynor/api/core/impl/GraphImpl.kt:165-167 | Afterwards that node object finds no linked node in any graph: `getLinkedNode` answers null and `hasLinkedNode` false. |
| Removal.ClearHeldPinsUncaches | src/api/kotlin/me/jraynor/api/core/impl/GraphImpl.kt:166-170 | On a well-formed graph, the pin loop leaves every walked pin's id out of `activeIdCache` and `pinIdToNodeCache`, and out of `pinIdCache` unless the id is -1. |
| Removal.RemoveNodeShape | src/api/kotlin/me/jraynor/api/core/impl/GraphImpl.kt:164-175 | The node's id leaves the node caches. A removal takes exactly that node out, the others keeping their order. A false answer keeps the same node objects. |
| Removal.RemoveNodeWF | src/api/kotlin/me/jraynor/api/core/impl/GraphImpl.kt:164-175 | On a well-formed graph, the graph stays well formed. The node's id and its pins' ids are no longer carried, and no list names a removed pin. No removed pin id is left in `activeIdCache` or `pinIdToNodeCache`, none but -1 in `pinIdCache` (a later pin's lookup that misses caches `IPin.Empty` under -1, as in the source), and `hasPin` answers false for each. |
| Removal.RemoveNodeKeepsLinks | src/api/kotlin/me/jraynor/api/core/impl/GraphImpl.kt:164-175 | Every link between two remaining pins survives, as often as before, and the remaining pins are otherwise unchanged. |
| Removal.RemoveNodeUnlisted | src/api/kotlin/me/jraynor/api/core/impl/GraphImpl.kt:164-175 | A node the list does not hold, with link-free pins, is refused with the list unchanged and the graph well formed. |
| Traversal.GetLinkedNode | src/api/kotlin/me/jraynor/api/core/impl/NodeAdapter.kt:145-158 | `INode.Empty` answers null. A detached node leaves the graph unchanged. |
| Traversal.HasLinkedNode | src/api/kotlin/me/jraynor/api/core/impl/NodeAdapter.kt:129-142 | `INode.Empty` answers false. A detached node leaves the graph unchanged. |
| Traversal.HasLinkedNodeIffGetLinkedNode | src/api/kotlin/me/jraynor/api/core/impl/NodeAdapter.kt:129-158 | `hasLinkedNode` is true iff `getLinkedNode` is not null. Both leave the graph in the same state. |
| Traversal.DetachedFindsNothing | src/api/kotlin/me/jraynor/api/core/IGraph.kt:62-79 | A node never added to a graph finds no linked node, whatever its links say. |
| Traversal.UnlinkedFindsNothing | src/api/kotlin/me/jraynor/api/core/impl/NodeAdapter.kt:129-158 | A node none of whose pins links anywhere finds no linked node, and asking leaves the graph as it was. |
| Traversal.GetLinkedNodeFinds | src/api/kotlin/me/jraynor/api/core/impl/NodeAdapter.kt:145-158 | On an attached node of a well-formed graph: non-null iff some output pin links to a node of the type. The answer is then the last such link of the first such pin. |
| Traversal.HasLinkedNodeFinds | src/api/kotlin/me/jraynor/api/core/impl/NodeAdapter.kt:129-142 | True iff some output pin of the node links to a pin whose owner is of the type. The graph stays well formed. |
| Persistence.Write | src/api/kotlin/me/jraynor/api/core/impl/GraphImpl.kt:178-182 | The empty compound exactly for `IGraph.Empty`; otherwise one record per node in list order, and the centre. |
| Persistence.Read | src/api/kotlin/me/jraynor/api/core/impl/GraphImpl.kt:185-191 | Replaces the node list with the rebuilt nodes and reads the centre. The id hint and all four caches are left as they were. `IGraph.Empty` ignores the tag. |
| Persistence.GraphRoundTrip | src/api/kotlin/me/jraynor/api/core/impl/GraphImpl.kt:178-191 | Reading back what a graph wrote restores the centre and, node by node, each id, position, title and pin list. The rebuilt nodes' pin caches are empty. |
| Persistence.TagRoundTrip | src/api/kotlin/me/jraynor/api/core/impl/GraphImpl.kt:178-191 | Writing a graph read from a tag reproduces the tag. |
| Persistence.ReadNodesDetached | src/api/kotlin/me/jraynor/api/core/impl/GraphImpl.kt:185-191 | Nodes rebuilt from fresh objects stay detached: reading never sets a node's graph. |
| Persistence.ReadKeepsStaleNodeCache | src/api/kotlin/me/jraynor/api/core/impl/GraphImpl.kt:185-191 | After reading a graph's own tag back, `findNode` by a cached id misses the rebuilt node. |
| Persistence.ReadFresh | src/api/kotlin/me/jraynor/api/core/impl/GraphImpl.kt:185-191 | The corrected read: the source's read with all four caches emptied. |
| Persistence.ReadFreshFindsReadNode | src/api/kotlin/me/jraynor/api/core/impl/GraphImpl.kt:45-54 | After the corrected read, `findNode` by an id some record carries answers the first rebuilt node with that id. |

## Left out

- Node equality: `NodeAdapter.equals`/`hashCode` are structural. `removeNode`'s `nodes.remove(node)` is modelled by object identity (`oid`) instead, so a distinct but equal node object is not removed in the model.
- Stale cache hits: a cache hit naming an object that has left the list answers the sentinel in the model. The source answers that detached object.
- The shared mutable `IPin.Empty`: `findPin` writes the sentinel's `nodeId` (GraphImpl.kt line 74). The model's sentinel is immutable.
- Floats: `Float` values are opaque bit patterns; no arithmetic is done on them.
- KClass overloads: `getPin(type)` and `hasPin(type)` of `NodeAdapter` are left out, because pins carry no class tag here. `getLinkedNode(type)` and `hasLinkedNode(type)` take the set of classes that are the type or extend it.
- NBT: the encoding is abstract records. Reading the empty compound into a `GraphImpl` depends on NBT defaults and is `Unknown` in the model.
- Networking: `pushUpdate`, the logical `side`, the capability `parent` and `GraphTileEntity` touch the network and the game, and are left out.
- `postProcess` is a no-op hook with no effect on the graph.
- `removeLink` when the link is recorded on one side only: the model follows the code, where the `toLinks` entry is removed and the call answers false (see `Pins.RemoveLinkNotAtomic`).
- Removal.RemoveNodeClearsNode: for a listed node of a graph that is not well formed, states only that each pin ends with empty lists and keeps its id, not that the rest of the pin is unchanged: lookups through stale caches may re-stamp pins there.
- Removal.RemoveNodeUnlisted: is stated only for nodes whose pins have no links. Clearing the links of a pin the list does not hold edits the listed pins it names.
- The id hint: `serializeNBT` neither writes nor reads `nextId`'s hint, although its comment (GraphImpl.kt line 177) says it does. The model follows the code.
- Ids.NextIdFresh, Ids.NextIdSmallestFree: ids are unbounded integers. The source's counter is a Kotlin `Int`, so `nextId++` (GraphImpl.kt lines 30 and 137) would wrap from 2147483647 to -2147483648; the model never wraps and does not state what happens after 2^31 increments.
- Fresh node objects: `deserializeNBT` is modelled on objects whose pin caches are empty (`Nodes.Unqueried`). A constructor only calls `addPin`, which leaves them empty; a subclass constructor that ran a pin lookup is not modelled.
- Lifecycle.AddNode: adding a node object the list already holds is modelled as appending an independent copy with the same `oid`. In the source both entries are one object, so renumbering it changes both and the list then carries its ids twice. Aliasing inside the list is not modelled, since the only caller adds a freshly built node.
- Lifecycle.AddNodeNumbers: is stated only for a node object the list does not hold yet (see `Lifecycle.AddNode`).
- Lifecycle.AddNodeFresh: is stated only for a node object the list does not hold yet.
- Lifecycle.AddNodeKeepsIdsDistinct: is stated only for a node object the list does not hold yet. Re-adding a listed object leaves duplicate ids in the source.
- Reattachment: `deserializeNBT` does not attach the rebuilt nodes to the graph (see `Persistence.ReadNodesDetached`).
- `GraphImpl.equals`, `hashCode`, `toString` and `iterator` are left out. The iteration order is the list order, which every scan in the model follows.
- Graphs.FindNode, Graphs.FindPin, Graphs.FindNodeByPin and the other lookups: the answers are stated under cache coherence (for `findNodeByPin`, sound node caches and distinct ids). For arbitrary caches only the cache-hit and cache-miss shapes are stated.
- Graphs.FindNodeByPin: the default argument `forIo = InputOutput.None` is not modelled; callers pass the role explicitly, and `None` is what a default call passes.
- Traversal.GetLinkedNodeFinds and Traversal.HasLinkedNodeFinds: are stated for nodes whose links all name pins of the graph, and for attached nodes of a well-formed graph. A detached node is covered by `Traversal.DetachedFindsNothing`.

## Findings

| source | as written | input that shows it | evidently intended | confidence | as-written member | corrected member |
|---|---|---|---|---|---|---|
| src/api/kotlin/me/jraynor/api/core/impl/GraphImpl.kt:145-160 | `addNode` appends the node with its default id 0, then calls `nextId()`, whose scan caches the node under 0; the node is renumbered and the key 0 stays in `nodeIdCache` | a new `GraphImpl` and a new `NodeAdapter`: the node gets id 1, and `findNode(0)` answers it | a node is found only under its own id | not executed | Lifecycle.AddNode (witness Lifecycle.AddNodeLeavesStaleKey) | Lifecycle.AddNodeUnnumbered (Lifecycle.AddNodeUnnumberedFindsOwnId, Lifecycle.AddNodeUnnumberedKeysLive) |
| src/api/kotlin/me/jraynor/api/core/impl/GraphImpl.kt:185-191 | `deserializeNBT` replaces the node objects but keeps the caches, which still name the old objects | a graph with one node, id 5, cached; its own tag read back into it | `findNode(5)` answers the rebuilt node | not executed | Persistence.Read (witness Persistence.ReadKeepsStaleNodeCache) | Persistence.ReadFresh (Persistence.ReadFreshFindsReadNode, Persistence.ReadFreshFindsCachedId) |
| src/api/kotlin/me/jraynor/api/core/impl/GraphImpl.kt:98-107 | the role test is `pin.io == forIo` for every role, although `findNodeByPin` documents `None`, its default, as "do not check the role" | one node with an output pin, id 2, nothing cached; `findNodeByPin(2)` with the default `None` | the owner of pin 2 is answered | not executed | Graphs.FindNodeByPin (witness Graphs.FindNodeByPinDefaultMisses) | Graphs.FindNodeByPinAnyRole (Graphs.FindNodeByPinAnyRoleFinds) |
