# Graph store of the admin canvas, modelled in Dafny

The admin tool arranges device nodes (tablets, monitors) on a canvas and connects their
handles with edges. Its per-session store, built by `createNodeStore`, owns three lists:
`nodes`, `edges` and `customs` (custom key/value entries). An operation that changes state
replaces one of the lists with a new one derived from the old one. Connect and disconnect
commit their new edge list first and then call a caller-supplied callback (persistence)
with the committed list. The position operation does it the other way round: it calls back
with the change and the nodes from before the batch, then commits the batch. A refused
`addCustom` or refused connect or disconnect changes no list, and `getNode` only reads.

The model:

- `wrappers.dfy`: `Option`, the `undefined` of a lookup.
- `handles.dfy` (`Handles`): the handle-name rule `handle.split("-").at(-1)`. `Split` and
  `Join` are proved inverse to each other. The last segment is proved to be the dash-free
  tail of the name. It is empty exactly when the name is empty or ends with `-`.
- `keyed_lists.dfy` (`KeyedLists`): the `.some`, `.filter`, `.map` and `.find` expressions
  the store applies, over any list whose elements carry a string key.
- `graph.dfy` (`Graph`): the entities and the pure rules of the store:
  - patching a node's data;
  - validating a connect or disconnect gesture and deriving its edge id (`Resolve`);
  - the edge list after connect (`Connect`) and after disconnect (`Disconnect`);
  - their idempotence, counting and undo lemmas.
- `node_store.dfy` (`NodeStore`): the store as a class `Store` whose methods reassign the
  three list fields. Each method states the new state in terms of the old one and of the
  `Graph` rules. A ghost `effects` log records each callback invocation and each toast.
  Each callback entry carries the arguments and a snapshot of the list the store held at
  that moment. Connect and disconnect commit first and call back with exactly the committed
  list. The position-change callback runs before the batch is committed and sees the old
  nodes.

The helpers the store imports but that are not part of this model are the function fields of
`Graph.Helpers`. Nothing is assumed about them beyond determinism. In particular the edge id
function is not assumed injective, and nothing is assumed about which directions exist:
`getEdgeDirection` is uninterpreted and directions are only compared for equality. These helpers are
`createEdgeId`, `getEdgeDirection`, `sessionToNode`, `sessionToEdge`, the graph library's
`applyNodeChanges` and `applyEdgeChanges`, and the `EDGE_TYPE` constant.

Custom keys are unique when `addCustom` is the only way entries arrive, and `deleteCustom`
keeps them unique. `updateCustom` keeps them unique only when the new entry keeps the key, or
carries a key not in use, or the key is absent. `KeyedLists.ReplaceKeyUnique` proves this
as an if-and-only-if, and `Graph.UpdateCanDuplicateKey` exhibits two entries left with one
key. The code does not say whether renaming a key through an update is meant to be allowed,
so the model keeps the code's behaviour.

Three behaviours of the code worth knowing:
- `updateCustom` replaces every entry with the key, not just one (lines 245-249).
- `onDisconnectEdge` calls back even when no edge had the id (lines 196-218).
- `onNodesPositionChange` calls the callback without awaiting it, before the batch is committed (lines 102-106).

## Model

| member | source | states |
|---|---|---|
| `NodeStore.Store.constructor` | src/features/admin/store/index.ts:62-68 | nodes (line 68) and edges (line 116) are the session mappings of the initial sessions, customs are the initial customs (line 222), no effects yet |
| `NodeStore.Store.OnNodesChange` | src/features/admin/store/index.ts:69-73 | nodes become the library's application of the batch; edges, customs and effects unchanged |
| `NodeStore.Store.UpdateNode` | src/features/admin/store/index.ts:74-88 | same length; each node with the id gets its data merged with the patch, every other node is unchanged; an absent id changes nothing; nothing else changes |
| `NodeStore.Store.SetNodes` | src/features/admin/store/index.ts:89-97 | nodes become the caller's function of the old nodes; nothing else changes |
| `NodeStore.Store.OnNodesPositionChange` | src/features/admin/store/index.ts:98-107 | the callback is logged iff the first change is a position change, with that change and the pre-batch nodes, while the store still holds them; then the batch is committed |
| `NodeStore.Store.GetNode` | src/features/admin/store/index.ts:109-113 | none iff no node has the id; otherwise a node with the id at an index before which no node has it (the first match); reads only |
| `NodeStore.Store.OnEdgesChange` | src/features/admin/store/index.ts:117-121 | edges become the library's application of the batch; nothing else changes |
| `NodeStore.Store.OnConnectEdge` | src/features/admin/store/index.ts:122-172 | edges become `Connect` of the old edges; a refusal leaves edges and effects unchanged; on success exactly one new edge with a fresh id is appended and the callback gets it and the list already committed |
| `NodeStore.Store.OnDisconnectEdge` | src/features/admin/store/index.ts:173-219 | edges become `Disconnect` of the old edges; a refused gesture logs nothing; otherwise the callback gets the rebuilt edge and the list already committed |
| `NodeStore.Store.AddCustom` | src/features/admin/store/index.ts:223-235 | a present key leaves customs unchanged and logs one toast; a fresh key appends exactly the entry; unique keys stay unique |
| `NodeStore.Store.DeleteCustom` | src/features/admin/store/index.ts:236-242 | customs become the filter by key; no entry with the key is left; an absent key changes nothing; deleting again changes nothing; unique keys stay unique |
| `NodeStore.Store.UpdateCustom` | src/features/admin/store/index.ts:244-254 | same length; exactly the positions with the key become the new entry; an absent key changes nothing; from unique keys, keys stay unique iff no collision is possible |
| `Handles.Split` | src/features/admin/store/index.ts:131-132 | at least one piece, and no piece contains `-` |
| `Handles.JoinSplit` | src/features/admin/store/index.ts:131-132 | joining the pieces with `-` gives back the handle name |
| `Handles.SplitJoin` | src/features/admin/store/index.ts:131-132 | splitting dash-free pieces joined with `-` gives back the pieces |
| `Handles.LastSegmentIsTail` | src/features/admin/store/index.ts:131-132 | the last segment ends the name, has no `-`, and is the whole name or follows a `-` |
| `Handles.LastSegmentEmpty` | src/features/admin/store/index.ts:131-133 | the last segment is empty iff the name is empty or ends with `-` |
| `KeyedLists.HasKey` | src/features/admin/store/index.ts:145 | true iff some element carries the key |
| `KeyedLists.CountKey` | src/features/admin/store/index.ts:145 | at most the length, and positive iff some element carries the key |
| `KeyedLists.WithoutKey` | src/features/admin/store/index.ts:237 | the filtered list is never longer than the input |
| `KeyedLists.WithoutKeyContents` | src/features/admin/store/index.ts:237 | no element with the key is left; every kept element is from the input and every element with another key is kept |
| `KeyedLists.FindByKey` | src/features/admin/store/index.ts:112 | none iff no element carries the key; otherwise the element at the first index that carries it |
| `KeyedLists.WithoutKeyAppend` | src/features/admin/store/index.ts:237 | filtering distributes over concatenation, so the kept elements keep their order |
| `KeyedLists.WithoutKeyUnchanged` | src/features/admin/store/index.ts:237 | the filter leaves the list unchanged iff no element carries the key |
| `KeyedLists.WithoutKeyIdempotent` | src/features/admin/store/index.ts:237 | filtering twice by a key equals filtering once |
| `KeyedLists.WithoutKeyUnique` | src/features/admin/store/index.ts:237 | filtering keeps unique keys unique |
| `KeyedLists.CountKeyAppend` | src/features/admin/store/index.ts:165 | the count over a concatenation is the sum of the counts |
| `KeyedLists.ReplaceKeyAt` | src/features/admin/store/index.ts:245-249 | replacing keeps the length and replaces exactly the positions carrying the key |
| `KeyedLists.ReplaceKeyAbsent` | src/features/admin/store/index.ts:245-249 | replacing an absent key changes nothing |
| `KeyedLists.ReplaceKeyIdempotent` | src/features/admin/store/index.ts:245-249 | replacing twice with the same entry equals replacing once, whether or not the entry keeps the key |
| `KeyedLists.ReplaceKeyUnique` | src/features/admin/store/index.ts:245-249 | from unique keys, the result has unique keys iff the entry keeps the key, or its key is unused, or the key is absent |
| `Graph.UpdateCanDuplicateKey` | src/features/admin/store/index.ts:244-253 | a concrete update that turns two unique keys into a duplicate |
| `Graph.Merge` | src/features/admin/store/index.ts:81-84 | the merged record has the fields of both; a patch field wins, other fields keep the data's value |
| `Graph.PatchNodesAt` | src/features/admin/store/index.ts:76-86 | patching keeps length, ids and positions; nodes with another id are untouched; a node with the id gets its data overridden field by field |
| `Graph.PatchNodesAbsent` | src/features/admin/store/index.ts:76-86 | patching an id no node has changes nothing |
| `Graph.PatchNodesIdempotent` | src/features/admin/store/index.ts:76-86 | applying the same patch twice equals applying it once |
| `Graph.FindAfterPatch` | src/features/admin/store/index.ts:74-113 | looking up an id after patching it gives the patched version of the first match, or none |
| `Graph.ResolveAccepts` | src/features/admin/store/index.ts:123-143 | a gesture is accepted iff both ids are non-empty and both handles are present and do not end with `-`; the endpoints are the inputs, the directions of the last words, and the id derived from them |
| `Graph.ConnectAppendsEdge` | src/features/admin/store/index.ts:131-169 | a connect that changes the list appends one edge and keeps the old ones; the edge's id is derived from the node ids and the directions of the handles' last words and was not in the list; it carries the gesture's ids and handles, the edge type, and data with both directions and both node ids |
| `Graph.ConnectCount` | src/features/admin/store/index.ts:138-165 | a refused gesture changes nothing; an accepted one leaves exactly one edge with its id if there was none and the count unchanged otherwise |
| `Graph.ConnectIdempotent` | src/features/admin/store/index.ts:145-165 | connecting the same gesture twice equals connecting it once |
| `Graph.ConnectTwiceOneEdge` | src/features/admin/store/index.ts:145-165 | from no edge with the id, two identical connects leave exactly one edge with it |
| `Graph.DisconnectRemoves` | src/features/admin/store/index.ts:196 | after an accepted disconnect no edge carries the id |
| `Graph.DisconnectAbsent` | src/features/admin/store/index.ts:174-196 | a refused disconnect, or one whose id no edge carries, changes nothing |
| `Graph.MakeEdgeResolves` | src/features/admin/store/index.ts:149-216 | the edge connect builds resolves on disconnect to the same endpoints, so disconnect rebuilds that same edge |
| `Graph.DisconnectUndoesConnect` | src/features/admin/store/index.ts:145-196 | disconnecting the edge an accepted connect just added restores the previous list |

## Left out

- Callbacks are not run. Their invocation is recorded in a ghost log. Awaiting them, what they do, and the fact that a rejected callback is not rolled back are not modelled.
- The toast at line 226 is recorded as a log entry with its message; nothing is rendered.
- `createEdgeId`, `getEdgeDirection`, `sessionToNode`, `sessionToEdge`, `applyNodeChanges`, `applyEdgeChanges` and `EDGE_TYPE` are defined elsewhere and are not part of this model. They are uninterpreted fields of `Graph.Helpers`.
- NodeStore.Store.OnConnectEdge: the graph library's `addEdge` is modelled as an append. The library also drops a new edge whose source, target and handles equal those of an existing edge under another id; the model does not capture that refusal.
- NodeStore.Store.OnNodesPositionChange: requires a non-empty batch. The code reads `changes[0].type` and throws on an empty batch.
- Nodes keep only their id, position and data, and edges only the seven fields the store writes. The graph library's other node and edge fields are not modelled, for example type, selected, measured and style. The spreads at lines 80 and 150 would carry them through unchanged.
- Node positions are integers here; the canvas uses floating point.
- The node data (a user session) is a record of named `Value` fields. The patch is a partial record of the same kind, so a patch field set to `undefined` is not distinguished from an absent one.
- A custom entry is a `key` and a string `value`. The schema module that defines it is not part of this model.
- The interaction atom (line 26) and the `Monitor`/`Tablet` components are presentation only: a style chosen by comparing an id with the atom's value.
