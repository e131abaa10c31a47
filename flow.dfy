/**
 * The flow store: the pipeline's node list, edge list and current selection, with
 * one action per state change (replace, append, filter, update-by-id, reset).
 */
module Flow {
  import opened Options
  import opened Json

  datatype Status = Pending | Partial | Complete | Error

  /** A pipeline node. `kind` is the source's `type` (`source`, `transform`, `destination`,
      or whatever a model reply put there); `caption` is its `label`. */
  datatype FlowNode = FlowNode(
    id: string, kind: string, caption: string, status: Status, properties: Option<Record>)

  datatype FlowEdge = FlowEdge(id: string, from: string, to: string)

  /** `Partial<FlowNode>`: `None` marks a field the patch does not carry. */
  datatype NodePatch = NodePatch(
    id: Option<string>, kind: Option<string>, caption: Option<string>,
    status: Option<Status>, properties: Option<Record>)

  /** The whole observable state of the store. */
  datatype FlowState = FlowState(nodes: seq<FlowNode>, edges: seq<FlowEdge>, selected: Option<string>)

  const INITIAL: FlowState := FlowState([], [], None)

  /** `{ ...n, ...patch, properties: { ...n.properties, ...patch.properties } }`. */
  function PatchNode(n: FlowNode, p: NodePatch): FlowNode {
    FlowNode(
      p.id.GetOr(n.id), p.kind.GetOr(n.kind), p.caption.GetOr(n.caption), p.status.GetOr(n.status),
      Some(n.properties.GetOr(map[]) + p.properties.GetOr(map[])))
  }

  /** `nodes.map(n => n.id === id ? PatchNode(n, patch) : n)`. */
  function UpdateNodes(nodes: seq<FlowNode>, id: string, p: NodePatch): (r: seq<FlowNode>)
    ensures |r| == |nodes|
    ensures forall i :: 0 <= i < |nodes| ==>
      r[i] == if nodes[i].id == id then PatchNode(nodes[i], p) else nodes[i]
  {
    if nodes == [] then []
    else [if nodes[0].id == id then PatchNode(nodes[0], p) else nodes[0]] + UpdateNodes(nodes[1..], id, p)
  }

  /** `edges.filter(e => e.id !== id)`: exactly the edges with another id remain. */
  function WithoutEdge(edges: seq<FlowEdge>, id: string): (r: seq<FlowEdge>)
    ensures |r| <= |edges|
    ensures forall e :: e in r <==> e in edges && e.id != id
  {
    if edges == [] then []
    else if edges[0].id == id then WithoutEdge(edges[1..], id)
    else [edges[0]] + WithoutEdge(edges[1..], id)
  }

  class FlowStore {
    var nodes: seq<FlowNode>
    var edges: seq<FlowEdge>
    var selected: Option<string>

    function State(): FlowState
      reads this
    {
      FlowState(nodes, edges, selected)
    }

    constructor ()
      ensures State() == INITIAL
    {
      nodes, edges, selected := [], [], None;
    }

    method SetNodes(ns: seq<FlowNode>)
      modifies this
      ensures State() == old(State()).(nodes := ns)
    {
      nodes := ns;
    }

    method SetEdges(es: seq<FlowEdge>)
      modifies this
      ensures State() == old(State()).(edges := es)
    {
      edges := es;
    }

    /** Appends without checking the id or the endpoints. */
    method AddEdge(e: FlowEdge)
      modifies this
      ensures State() == old(State()).(edges := old(edges) + [e])
    {
      edges := edges + [e];
    }

    method RemoveEdge(id: string)
      modifies this
      ensures State() == old(State()).(edges := WithoutEdge(old(edges), id))
    {
      edges := WithoutEdge(edges, id);
    }

    /** Stores any id, even one no node carries; `None` clears the selection. */
    method SelectNode(id: Option<string>)
      modifies this
      ensures State() == old(State()).(selected := id)
    {
      selected := id;
    }

    method UpdateNode(id: string, p: NodePatch)
      modifies this
      ensures State() == old(State()).(nodes := UpdateNodes(old(nodes), id, p))
    {
      nodes := UpdateNodes(nodes, id, p);
    }

    method Reset()
      modifies this
      ensures State() == INITIAL
    {
      nodes, edges, selected := [], [], None;
    }

    method ResetFlow()
      modifies this
      ensures State() == INITIAL
    {
      nodes, edges, selected := [], [], None;
    }
  }

  /** Removal distributes over concatenation, so the remaining edges keep their order. */
  lemma {:induction false} WithoutEdgeAppend(a: seq<FlowEdge>, b: seq<FlowEdge>, id: string)
    ensures WithoutEdge(a + b, id) == WithoutEdge(a, id) + WithoutEdge(b, id)
    decreases |a|
  {
    if a == [] {
      assert a + b == b;
    } else {
      assert (a + b)[1..] == a[1..] + b;
      WithoutEdgeAppend(a[1..], b, id);
    }
  }

  /** Removing an id no edge carries changes nothing. */
  lemma {:induction false} WithoutUnknownEdge(edges: seq<FlowEdge>, id: string)
    requires forall e :: e in edges ==> e.id != id
    ensures WithoutEdge(edges, id) == edges
    decreases |edges|
  {
    if edges != [] {
      WithoutUnknownEdge(edges[1..], id);
    }
  }

  /** Removing the same id twice is removing it once. */
  lemma WithoutEdgeIdempotent(edges: seq<FlowEdge>, id: string)
    ensures WithoutEdge(WithoutEdge(edges, id), id) == WithoutEdge(edges, id)
  {
    WithoutUnknownEdge(WithoutEdge(edges, id), id);
  }

  /** On a matched node, patch fields overwrite, properties merge key by key without
      losing a key, and the properties object is always defined afterwards. */
  lemma PatchNodeMergesProperties(n: FlowNode, p: NodePatch, k: string)
    ensures PatchNode(n, p).properties.Some?
    ensures n.properties.Some? && k in n.properties.value ==> k in PatchNode(n, p).properties.value
    ensures p.properties.Some? && k in p.properties.value ==>
      PatchNode(n, p).properties.value[k] == p.properties.value[k]
    ensures p.properties.None? || k !in p.properties.value ==>
      (n.properties.Some? && k in n.properties.value ==>
        PatchNode(n, p).properties.value[k] == n.properties.value[k])
    ensures p.caption.Some? ==> PatchNode(n, p).caption == p.caption.value
    ensures p.caption.None? ==> PatchNode(n, p).caption == n.caption
    ensures p.status.Some? ==> PatchNode(n, p).status == p.status.value
    ensures p.status.None? ==> PatchNode(n, p).status == n.status
  {
  }

  /** Updating an id no node carries changes nothing. */
  lemma UpdateUnknownNode(nodes: seq<FlowNode>, id: string, p: NodePatch)
    requires forall n :: n in nodes ==> n.id != id
    ensures UpdateNodes(nodes, id, p) == nodes
  {
  }
}
