/**
 * The entities of the admin canvas (device nodes, the edges between their handles and the
 * custom key/value entries) and the pure rules the store applies to them: patching a node's
 * data, validating a connection and deriving its edge, connecting and disconnecting.
 *
 * The helpers the store imports from elsewhere (`createEdgeId`, `getEdgeDirection`,
 * `sessionToNode`, `sessionToEdge`, the graph library's `applyNodeChanges` and
 * `applyEdgeChanges`, and the `EDGE_TYPE` constant) are not part of this model; they are
 * the fields of `Helpers`, about which nothing is assumed beyond being functions.
 */
module Graph {
  import opened Wrappers
  import opened KeyedLists
  import Handles

  // ---- data ----

  /** A field value of a node's data record (a user session). */
  datatype Value = Text(text: string) | Number(number: int) | Flag(flag: bool)

  /** A node's data: the user session it shows, as a record of named fields. */
  type Record = map<string, Value>

  datatype Position = Position(x: int, y: int)

  datatype Node = Node(id: string, position: Position, data: Record)

  /** The direction a handle faces, as `getEdgeDirection` returns it. */
  datatype Direction = Direction(name: string)

  /** The copy of the endpoints an edge carries for rendering. */
  datatype EdgeData = EdgeData(from: Direction, to: Direction, source: string, target: string)

  /**
   * An edge between two node handles. The graph library's edge has optional handles and
   * data; the edges this store builds always have both.
   */
  datatype Edge = Edge(
    id: string,
    source: string,
    target: string,
    sourceHandle: Option<string>,
    targetHandle: Option<string>,
    edgeType: string,
    data: Option<EdgeData>)

  /** The parameters of a connect gesture: source and target node ids and handle names. */
  datatype Connection = Connection(
    source: string,
    target: string,
    sourceHandle: Option<string>,
    targetHandle: Option<string>)

  /** A custom key/value entry. */
  datatype Custom = Custom(key: string, value: string)

  /** One element of a batch of node changes, as the graph library reports it. */
  datatype NodeChange =
    | PositionChange(id: string, position: Option<Position>, dragging: Option<bool>)
    | DimensionsChange(id: string)
    | SelectChange(id: string, selected: bool)
    | RemoveChange(id: string)
    | AddChange(item: Node)
    | ReplaceChange(id: string, item: Node)

  /** One element of a batch of edge changes, as the graph library reports it. */
  datatype EdgeChange =
    | EdgeSelectChange(id: string, selected: bool)
    | EdgeRemoveChange(id: string)
    | EdgeAddChange(item: Edge)
    | EdgeReplaceChange(id: string, item: Edge)

  /** The collaborators the store calls but does not define. */
  datatype Helpers = Helpers(
    createEdgeId: (string, string, Direction, Direction) -> string,
    getEdgeDirection: string -> Direction,
    sessionToNode: seq<Record> -> seq<Node>,
    sessionToEdge: seq<Record> -> seq<Edge>,
    applyNodeChanges: (seq<NodeChange>, seq<Node>) -> seq<Node>,
    applyEdgeChanges: (seq<EdgeChange>, seq<Edge>) -> seq<Edge>,
    edgeType: string)

  function CustomKey(c: Custom): string { c.key }
  function EdgeId(e: Edge): string { e.id }
  function NodeId(n: Node): string { n.id }

  // ---- nodes ----

  /** `{ ...data, ...patch }`: the fields of the patch override those of the data. */
  function Merge(data: Record, patch: Record): (r: Record)
    ensures r.Keys == data.Keys + patch.Keys
    ensures forall f :: f in patch ==> r[f] == patch[f]
    ensures forall f :: f in data && f !in patch ==> r[f] == data[f]
  {
    data + patch
  }

  /** The node with its data patched; its id and position stay. */
  function PatchNode(n: Node, patch: Record): Node
  {
    n.(data := Merge(n.data, patch))
  }

  /** `nodes.map(node => node.id !== id ? node : { ...node, data: { ...node.data, ...patch } })`. */
  function PatchNodes(nodes: seq<Node>, id: string, patch: Record): seq<Node>
  {
    seq(|nodes|, i requires 0 <= i < |nodes| =>
      if nodes[i].id == id then PatchNode(nodes[i], patch) else nodes[i])
  }

  /**
   * Patching keeps the list's length, order and ids and every position; a node with that id
   * gets its old data overridden field by field, every other node is untouched.
   */
  lemma PatchNodesAt(nodes: seq<Node>, id: string, patch: Record)
    ensures var r := PatchNodes(nodes, id, patch);
      && |r| == |nodes|
      && forall i :: 0 <= i < |nodes| ==>
           && r[i].id == nodes[i].id
           && r[i].position == nodes[i].position
           && (nodes[i].id != id ==> r[i] == nodes[i])
           && (nodes[i].id == id ==> r[i].data.Keys == nodes[i].data.Keys + patch.Keys)
           && (nodes[i].id == id ==> forall f :: f in r[i].data ==>
                 r[i].data[f] == if f in patch then patch[f] else nodes[i].data[f])
  {
  }

  /** Patching an id no node has changes nothing. */
  lemma PatchNodesAbsent(nodes: seq<Node>, id: string, patch: Record)
    requires !HasKey(nodes, NodeId, id)
    ensures PatchNodes(nodes, id, patch) == nodes
  {
    var r := PatchNodes(nodes, id, patch);
    forall i | 0 <= i < |nodes| ensures r[i] == nodes[i] {
      assert NodeId(nodes[i]) != id;
    }
  }

  /** Applying the same patch twice is applying it once. */
  lemma PatchNodesIdempotent(nodes: seq<Node>, id: string, patch: Record)
    ensures PatchNodes(PatchNodes(nodes, id, patch), id, patch) == PatchNodes(nodes, id, patch)
  {
    var once := PatchNodes(nodes, id, patch);
    forall i | 0 <= i < |nodes| && nodes[i].id == id
      ensures Merge(once[i].data, patch) == once[i].data
    {
      assert once[i].data == nodes[i].data + patch;
    }
  }

  /** Looking a node up after patching it gives the patched first match. */
  lemma {:induction false} FindAfterPatch(nodes: seq<Node>, id: string, patch: Record)
    ensures FindByKey(PatchNodes(nodes, id, patch), NodeId, id)
         == match FindByKey(nodes, NodeId, id)
            case None => None
            case Some(n) => Some(PatchNode(n, patch))
  {
    if nodes != [] {
      FindAfterPatch(nodes[1..], id, patch);
      assert PatchNodes(nodes, id, patch)[1..] == PatchNodes(nodes[1..], id, patch);
    }
  }

  // ---- connections ----

  /** `!x` of an optional string in the source: absent or empty. */
  predicate Missing(s: Option<string>)
  {
    s.None? || s.value == []
  }

  /** The handle names, their direction words and the edge id a valid gesture yields. */
  datatype Endpoints = Endpoints(
    source: string, target: string,
    sourceHandle: string, targetHandle: string,
    from: Direction, to: Direction,
    id: string)

  /**
   * The guards and derivations shared by connect and disconnect: all four fields must be
   * present, and the last '-'-separated segment of each handle must be non-empty; then the
   * directions are looked up and the edge id is derived.
   */
  function Resolve(h: Helpers, source: string, target: string,
                   sourceHandle: Option<string>, targetHandle: Option<string>): Option<Endpoints>
  {
    if source == [] || target == [] || Missing(sourceHandle) || Missing(targetHandle) then None
    else
      var sourceWord := Handles.LastSegment(sourceHandle.value);
      var targetWord := Handles.LastSegment(targetHandle.value);
      if sourceWord == [] || targetWord == [] then None
      else
        var from := h.getEdgeDirection(sourceWord);
        var to := h.getEdgeDirection(targetWord);
        Some(Endpoints(source, target, sourceHandle.value, targetHandle.value,
                       from, to, h.createEdgeId(source, target, from, to)))
  }

  /** A handle name the store accepts: non-empty and not ending with '-'. */
  predicate UsableHandle(s: Option<string>)
  {
    s.Some? && s.value != [] && s.value[|s.value| - 1] != Handles.Dash
  }

  /**
   * A gesture is accepted exactly when both node ids are non-empty and both handle names
   * are present and do not end with '-'; the accepted endpoints are the inputs and the
   * directions of the handles' last words, and the id is derived from them alone.
   */
  lemma ResolveAccepts(h: Helpers, source: string, target: string,
                       sourceHandle: Option<string>, targetHandle: Option<string>)
    ensures var r := Resolve(h, source, target, sourceHandle, targetHandle);
      && (r.Some? <==> source != [] && target != [] && UsableHandle(sourceHandle) && UsableHandle(targetHandle))
      && (r.Some? ==>
            && r.value.source == source && r.value.target == target
            && r.value.sourceHandle == sourceHandle.value
            && r.value.targetHandle == targetHandle.value
            && r.value.from == h.getEdgeDirection(Handles.LastSegment(sourceHandle.value))
            && r.value.to == h.getEdgeDirection(Handles.LastSegment(targetHandle.value))
            && r.value.id == h.createEdgeId(source, target, r.value.from, r.value.to))
  {
    if sourceHandle.Some? {
      Handles.LastSegmentEmpty(sourceHandle.value);
    }
    if targetHandle.Some? {
      Handles.LastSegmentEmpty(targetHandle.value);
    }
  }

  /** The edge the store builds (on connect) or reports (on disconnect) for some endpoints. */
  function MakeEdge(h: Helpers, p: Endpoints): Edge
  {
    Edge(p.id, p.source, p.target, Some(p.sourceHandle), Some(p.targetHandle), h.edgeType,
         Some(EdgeData(p.from, p.to, p.source, p.target)))
  }

  /** The endpoints of a connect gesture. */
  function ResolveConnection(h: Helpers, c: Connection): Option<Endpoints>
  {
    Resolve(h, c.source, c.target, c.sourceHandle, c.targetHandle)
  }

  /** The endpoints of an edge handed to disconnect. */
  function ResolveEdge(h: Helpers, e: Edge): Option<Endpoints>
  {
    Resolve(h, e.source, e.target, e.sourceHandle, e.targetHandle)
  }

  /** The edge list after a connect gesture: unchanged when refused, else the new edge appended. */
  function Connect(h: Helpers, edges: seq<Edge>, c: Connection): seq<Edge>
  {
    match ResolveConnection(h, c)
    case None => edges
    case Some(p) => if HasKey(edges, EdgeId, p.id) then edges else edges + [MakeEdge(h, p)]
  }

  /** The edge list after a disconnect gesture: unchanged when refused, else the id filtered out. */
  function Disconnect(h: Helpers, edges: seq<Edge>, e: Edge): seq<Edge>
  {
    match ResolveEdge(h, e)
    case None => edges
    case Some(p) => WithoutKey(edges, EdgeId, p.id)
  }

  /**
   * A connect gesture that changes the list appends exactly one edge, built from the gesture
   * alone: its id is derived from the node ids and the directions of the handles' last
   * words and is not already in the list; it carries the gesture's node ids and handles, and
   * its data holds both directions and the node ids.
   */
  lemma ConnectAppendsEdge(h: Helpers, edges: seq<Edge>, c: Connection)
    requires Connect(h, edges, c) != edges
    ensures c.sourceHandle.Some? && c.targetHandle.Some?
    ensures var r := Connect(h, edges, c);
      var from := h.getEdgeDirection(Handles.LastSegment(c.sourceHandle.value));
      var to := h.getEdgeDirection(Handles.LastSegment(c.targetHandle.value));
      && |r| == |edges| + 1 && r[..|edges|] == edges
      && r[|edges|].id == h.createEdgeId(c.source, c.target, from, to)
      && !HasKey(edges, EdgeId, r[|edges|].id)
      && r[|edges|].source == c.source && r[|edges|].target == c.target
      && r[|edges|].sourceHandle == c.sourceHandle && r[|edges|].targetHandle == c.targetHandle
      && r[|edges|].edgeType == h.edgeType
      && r[|edges|].data == Some(EdgeData(from, to, c.source, c.target))
  {
  }

  /**
   * A connect gesture that resolves leaves exactly one edge with its id when there was none,
   * and leaves the count alone otherwise; one that does not resolve changes nothing.
   */
  lemma ConnectCount(h: Helpers, edges: seq<Edge>, c: Connection)
    ensures ResolveConnection(h, c).None? ==> Connect(h, edges, c) == edges
    ensures ResolveConnection(h, c).Some? ==>
      var id := ResolveConnection(h, c).value.id;
      CountKey(Connect(h, edges, c), EdgeId, id)
        == if CountKey(edges, EdgeId, id) == 0 then 1 else CountKey(edges, EdgeId, id)
  {
    if ResolveConnection(h, c).Some? {
      var p := ResolveConnection(h, c).value;
      if !HasKey(edges, EdgeId, p.id) {
        CountKeyAppend(edges, [MakeEdge(h, p)], EdgeId, p.id);
        assert CountKey([MakeEdge(h, p)], EdgeId, p.id) == 1;
      }
    }
  }

  /** Connecting the same handles twice is connecting them once. */
  lemma ConnectIdempotent(h: Helpers, edges: seq<Edge>, c: Connection)
    ensures Connect(h, Connect(h, edges, c), c) == Connect(h, edges, c)
  {
    if ResolveConnection(h, c).Some? {
      var p := ResolveConnection(h, c).value;
      var once := Connect(h, edges, c);
      assert EdgeId(once[|once| - 1]) == p.id || HasKey(edges, EdgeId, p.id);
    }
  }

  /**
   * Connecting the same handles twice, starting from no edge with that id, yields exactly
   * one edge with that id.
   */
  lemma ConnectTwiceOneEdge(h: Helpers, edges: seq<Edge>, c: Connection)
    requires ResolveConnection(h, c).Some?
    requires !HasKey(edges, EdgeId, ResolveConnection(h, c).value.id)
    ensures CountKey(Connect(h, Connect(h, edges, c), c), EdgeId, ResolveConnection(h, c).value.id) == 1
  {
    ConnectIdempotent(h, edges, c);
    ConnectCount(h, edges, c);
  }

  /** After a disconnect gesture that resolves, no edge carries its id. */
  lemma DisconnectRemoves(h: Helpers, edges: seq<Edge>, e: Edge)
    requires ResolveEdge(h, e).Some?
    ensures !HasKey(Disconnect(h, edges, e), EdgeId, ResolveEdge(h, e).value.id)
  {
    WithoutKeyContents(edges, EdgeId, ResolveEdge(h, e).value.id);
  }

  /** Disconnecting an edge whose id is not in the list changes nothing. */
  lemma DisconnectAbsent(h: Helpers, edges: seq<Edge>, e: Edge)
    requires ResolveEdge(h, e).None? || !HasKey(edges, EdgeId, ResolveEdge(h, e).value.id)
    ensures Disconnect(h, edges, e) == edges
  {
    if ResolveEdge(h, e).Some? {
      WithoutKeyUnchanged(edges, EdgeId, ResolveEdge(h, e).value.id);
    }
  }

  /**
   * The edge connect builds resolves, on disconnect, to the same endpoints, and disconnect
   * reports exactly the edge that connect built.
   */
  lemma MakeEdgeResolves(h: Helpers, c: Connection)
    requires ResolveConnection(h, c).Some?
    ensures ResolveEdge(h, MakeEdge(h, ResolveConnection(h, c).value)) == ResolveConnection(h, c)
  {
  }

  /**
   * Disconnecting the edge a connect gesture has just added restores the edge list that was
   * there before the gesture.
   */
  lemma DisconnectUndoesConnect(h: Helpers, edges: seq<Edge>, c: Connection)
    requires ResolveConnection(h, c).Some?
    requires !HasKey(edges, EdgeId, ResolveConnection(h, c).value.id)
    ensures var e := MakeEdge(h, ResolveConnection(h, c).value);
      Disconnect(h, Connect(h, edges, c), e) == edges
  {
    var p := ResolveConnection(h, c).value;
    var e := MakeEdge(h, p);
    MakeEdgeResolves(h, c);
    WithoutKeyAppend(edges, [e], EdgeId, p.id);
    WithoutKeyUnchanged(edges, EdgeId, p.id);
    assert WithoutKey([e], EdgeId, p.id) == [];
  }

  // ---- customs ----

  /**
   * Updating an entry to a custom with another key that is already in use leaves two
   * entries with that key: key uniqueness, enforced when adding, is not kept by updating.
   */
  lemma UpdateCanDuplicateKey()
    ensures var before := [Custom("a", "1"), Custom("b", "2")];
      && UniqueKeys(before, CustomKey)
      && !UniqueKeys(ReplaceKey(before, CustomKey, "a", Custom("b", "3")), CustomKey)
  {
    var before := [Custom("a", "1"), Custom("b", "2")];
    ReplaceKeyUnique(before, CustomKey, "a", Custom("b", "3"));
    assert CustomKey(before[0]) == "a" && CustomKey(before[1]) == "b";
  }
}
