/**
 * The per-session graph store built by `createNodeStore`: three collections (`nodes`,
 * `edges`, `customs`) that every operation replaces with a list derived from the old one.
 *
 * The callbacks the operations receive (persistence, mostly) are recorded in the ghost
 * `effects` log, together with a snapshot of the collection the store held at the moment
 * the callback was invoked; the toast shown on a duplicate custom key is recorded there too.
 */
module NodeStore {
  import opened Wrappers
  import opened KeyedLists
  import opened Graph

  /** The message of the toast shown when a custom key already exists. */
  const DuplicateCustomMessage: string := "すでに存在するカスタムデータです"

  /** A side effect the store performed, in the order it performed them. */
  datatype Effect =
    | EdgeConnected(edge: Edge, newEdges: seq<Edge>, storeEdges: seq<Edge>)
    | EdgeDisconnected(edge: Edge, newEdges: seq<Edge>, storeEdges: seq<Edge>)
    | PositionChanged(change: NodeChange, nodesArg: seq<Node>, storeNodes: seq<Node>)
    | Toast(message: string)

  class Store {
    var nodes: seq<Node>
    var edges: seq<Edge>
    var customs: seq<Custom>
    const helpers: Helpers
    ghost var effects: seq<Effect>

    /** `createNodeStore(initialProps, initialCustoms)`. */
    constructor (h: Helpers, sessions: seq<Record>, initialCustoms: seq<Custom>)
      ensures helpers == h
      ensures nodes == h.sessionToNode(sessions)
      ensures edges == h.sessionToEdge(sessions)
      ensures customs == initialCustoms
      ensures effects == []
    {
      helpers := h;
      nodes := h.sessionToNode(sessions);
      edges := h.sessionToEdge(sessions);
      customs := initialCustoms;
      effects := [];
    }

    // ---- nodes ----

    /** `onNodesChange`: hands the batch to the graph library. */
    method OnNodesChange(changes: seq<NodeChange>)
      modifies this
      ensures nodes == helpers.applyNodeChanges(changes, old(nodes))
      ensures edges == old(edges) && customs == old(customs) && effects == old(effects)
    {
      nodes := helpers.applyNodeChanges(changes, nodes);
    }

    /** `updateNode`: merges `patch` into the data of every node with that id. */
    method UpdateNode(id: string, patch: Record)
      modifies this
      ensures |nodes| == |old(nodes)|
      ensures forall i :: 0 <= i < |nodes| ==>
        nodes[i] == if old(nodes)[i].id == id then PatchNode(old(nodes)[i], patch) else old(nodes)[i]
      ensures !HasKey(old(nodes), NodeId, id) ==> nodes == old(nodes)
      ensures edges == old(edges) && customs == old(customs) && effects == old(effects)
    {
      PatchNodesAt(nodes, id, patch);
      if !HasKey(nodes, NodeId, id) {
        PatchNodesAbsent(nodes, id, patch);
      }
      nodes := PatchNodes(nodes, id, patch);
    }

    /** `setNodes`: replaces the nodes by the caller's function of them. */
    method SetNodes(f: seq<Node> -> seq<Node>)
      modifies this
      ensures nodes == f(old(nodes))
      ensures edges == old(edges) && customs == old(customs) && effects == old(effects)
    {
      nodes := f(nodes);
    }

    /**
     * `onNodesPositionChange`: when the first change of the batch moves a node, the callback
     * gets that change and the nodes as they were before the batch; the batch is committed
     * only after the callback has been invoked.
     */
    method OnNodesPositionChange(changes: seq<NodeChange>)
      requires |changes| > 0
      modifies this
      ensures nodes == helpers.applyNodeChanges(changes, old(nodes))
      ensures changes[0].PositionChange? ==>
        effects == old(effects) + [PositionChanged(changes[0], old(nodes), old(nodes))]
      ensures !changes[0].PositionChange? ==> effects == old(effects)
      ensures edges == old(edges) && customs == old(customs)
    {
      var ch := changes[0];
      var current := nodes;
      if ch.PositionChange? {
        effects := effects + [PositionChanged(ch, current, nodes)];
      }
      nodes := helpers.applyNodeChanges(changes, nodes);
    }

    /** `getNode`: the first node with that id, if any. */
    function GetNode(id: string): (r: Option<Node>)
      reads this
      ensures r.None? <==> forall i :: 0 <= i < |nodes| ==> nodes[i].id != id
      ensures r.Some? ==> exists i :: 0 <= i < |nodes| && nodes[i] == r.value && r.value.id == id
                                      && forall j :: 0 <= j < i ==> nodes[j].id != id
    {
      FindByKey(nodes, NodeId, id)
    }

    // ---- edges ----

    /** `onEdgesChange`: hands the batch to the graph library. */
    method OnEdgesChange(changes: seq<EdgeChange>)
      modifies this
      ensures edges == helpers.applyEdgeChanges(changes, old(edges))
      ensures nodes == old(nodes) && customs == old(customs) && effects == old(effects)
    {
      edges := helpers.applyEdgeChanges(changes, edges);
    }

    /**
     * `onConnectEdge`: silently refuses a gesture with a missing field, a handle whose last
     * word is empty, or an id already connected; otherwise appends the new edge, commits,
     * and then invokes the callback with that edge and the committed list.
     */
    method OnConnectEdge(c: Connection)
      modifies this
      ensures edges == Connect(helpers, old(edges), c)
      ensures edges == old(edges) ==> effects == old(effects)
      ensures edges != old(edges) ==>
        && ResolveConnection(helpers, c).Some?
        && var e := MakeEdge(helpers, ResolveConnection(helpers, c).value);
           && !HasKey(old(edges), EdgeId, e.id)
           && edges == old(edges) + [e]
           && effects == old(effects) + [EdgeConnected(e, edges, edges)]
      ensures nodes == old(nodes) && customs == old(customs)
    {
      // The guards and derivations below are `Graph.ResolveConnection` unrolled into the early returns.
      if c.source == [] || c.target == [] || Missing(c.sourceHandle) || Missing(c.targetHandle) {
        return;
      }
      var sourceWord := Handles.LastSegment(c.sourceHandle.value);
      var targetWord := Handles.LastSegment(c.targetHandle.value);
      if sourceWord == [] || targetWord == [] {
        return;
      }
      var from := helpers.getEdgeDirection(sourceWord);
      var to := helpers.getEdgeDirection(targetWord);
      var id := helpers.createEdgeId(c.source, c.target, from, to);
      if HasKey(edges, EdgeId, id) {
        return;
      }
      var p := Endpoints(c.source, c.target, c.sourceHandle.value, c.targetHandle.value, from, to, id);
      var newEdge := MakeEdge(helpers, p);
      var newEdges := edges + [newEdge];
      edges := newEdges;
      effects := effects + [EdgeConnected(newEdge, newEdges, edges)];
    }

    /**
     * `onDisconnectEdge`: with the same guards as connect, filters out every edge with the
     * derived id, commits, and then invokes the callback with the edge rebuilt from the
     * gesture and the committed list (also when no edge had that id).
     */
    method OnDisconnectEdge(e: Edge)
      modifies this
      ensures edges == Disconnect(helpers, old(edges), e)
      ensures ResolveEdge(helpers, e).None? ==> effects == old(effects)
      ensures ResolveEdge(helpers, e).Some? ==>
        effects == old(effects) + [EdgeDisconnected(MakeEdge(helpers, ResolveEdge(helpers, e).value), edges, edges)]
      ensures nodes == old(nodes) && customs == old(customs)
    {
      // The guards and derivations below are `Graph.ResolveEdge` unrolled into the early returns.
      if e.source == [] || e.target == [] || Missing(e.sourceHandle) || Missing(e.targetHandle) {
        return;
      }
      var sourceWord := Handles.LastSegment(e.sourceHandle.value);
      var targetWord := Handles.LastSegment(e.targetHandle.value);
      if sourceWord == [] || targetWord == [] {
        return;
      }
      var from := helpers.getEdgeDirection(sourceWord);
      var to := helpers.getEdgeDirection(targetWord);
      var id := helpers.createEdgeId(e.source, e.target, from, to);
      var newEdges := WithoutKey(edges, EdgeId, id);
      edges := newEdges;
      var deleted := MakeEdge(helpers, Endpoints(e.source, e.target, e.sourceHandle.value,
                                                 e.targetHandle.value, from, to, id));
      effects := effects + [EdgeDisconnected(deleted, newEdges, edges)];
    }

    // ---- customs ----

    /**
     * `addCustom`: a key already present is refused with a toast and the entries stay;
     * otherwise the entry is appended, and keys that were unique stay unique.
     */
    method AddCustom(c: Custom)
      modifies this
      ensures HasKey(old(customs), CustomKey, c.key) ==>
        customs == old(customs) && effects == old(effects) + [Toast(DuplicateCustomMessage)]
      ensures !HasKey(old(customs), CustomKey, c.key) ==>
        customs == old(customs) + [c] && effects == old(effects)
      ensures UniqueKeys(old(customs), CustomKey) ==> UniqueKeys(customs, CustomKey)
      ensures nodes == old(nodes) && edges == old(edges)
    {
      if HasKey(customs, CustomKey, c.key) {
        effects := effects + [Toast(DuplicateCustomMessage)];
        return;
      }
      customs := customs + [c];
    }

    /**
     * `deleteCustom`: keeps every entry with another key, in order; none with `key` is left;
     * an absent key changes nothing, and deleting twice is deleting once.
     */
    method DeleteCustom(key: string)
      modifies this
      ensures customs == WithoutKey(old(customs), CustomKey, key)
      ensures !HasKey(customs, CustomKey, key)
      ensures !HasKey(old(customs), CustomKey, key) ==> customs == old(customs)
      ensures WithoutKey(customs, CustomKey, key) == customs
      ensures UniqueKeys(old(customs), CustomKey) ==> UniqueKeys(customs, CustomKey)
      ensures nodes == old(nodes) && edges == old(edges) && effects == old(effects)
    {
      WithoutKeyContents(customs, CustomKey, key);
      WithoutKeyUnchanged(customs, CustomKey, key);
      WithoutKeyIdempotent(customs, CustomKey, key);
      if UniqueKeys(customs, CustomKey) {
        WithoutKeyUnique(customs, CustomKey, key);
      }
      customs := WithoutKey(customs, CustomKey, key);
    }

    /**
     * `updateCustom`: every entry with `key` becomes `c`, the others and the length stay;
     * an absent key changes nothing. Unique keys stay unique only when `c` keeps the key or
     * brings a key not yet in use.
     */
    method UpdateCustom(key: string, c: Custom)
      modifies this
      ensures |customs| == |old(customs)|
      ensures forall i :: 0 <= i < |customs| ==>
        customs[i] == if old(customs)[i].key == key then c else old(customs)[i]
      ensures !HasKey(old(customs), CustomKey, key) ==> customs == old(customs)
      ensures UniqueKeys(old(customs), CustomKey) ==>
        (UniqueKeys(customs, CustomKey) <==>
           c.key == key || !HasKey(old(customs), CustomKey, c.key) || !HasKey(old(customs), CustomKey, key))
      ensures nodes == old(nodes) && edges == old(edges) && effects == old(effects)
    {
      ReplaceKeyAt(customs, CustomKey, key, c);
      if UniqueKeys(customs, CustomKey) {
        ReplaceKeyUnique(customs, CustomKey, key, c);
      }
      if !HasKey(customs, CustomKey, key) {
        ReplaceKeyAbsent(customs, CustomKey, key, c);
      }
      customs := ReplaceKey(customs, CustomKey, key, c);
    }
  }
}
