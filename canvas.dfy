/**
 * The canvas: keyboard navigation over the selected node, the column/row layout of the
 * nodes, the conversion of store edges to the drawing library's shape, and the guard on
 * drawing a new connection. Rendering, dragging and the drawing library itself are not
 * part of this model; its node and edge records are reduced to the fields computed here.
 */
module Canvas {
  import opened Options
  import opened Flow

  /** The keys the handler distinguishes; every other key is `OtherKey`. */
  datatype Key = ArrowLeft | ArrowRight | ArrowUp | ArrowDown | Escape | OtherKey(name: string)

  /** What a key press does to the selection. */
  datatype KeyEffect = Unchanged | SelectId(id: string) | ClearSelection

  /** `findIndex(n => n.id === id)`: the first index with that id, or -1. */
  function IndexOfId(nodes: seq<FlowNode>, id: string): (r: int)
    decreases |nodes|
    ensures -1 <= r < |nodes|
    ensures r >= 0 ==> nodes[r].id == id
    ensures forall j :: 0 <= j < |nodes| && (r < 0 || j < r) ==> nodes[j].id != id
  {
    if |nodes| == 0 then -1
    else if nodes[0].id == id then 0
    else
      var r := IndexOfId(nodes[1..], id);
      if r < 0 then -1 else r + 1
  }

  /** `filter(n => n.type === kind)`. */
  function OfKind(nodes: seq<FlowNode>, kind: string): (r: seq<FlowNode>)
    decreases |nodes|
    ensures |r| <= |nodes|
  {
    if |nodes| == 0 then []
    else (if nodes[0].kind == kind then [nodes[0]] else []) + OfKind(nodes[1..], kind)
  }

  /** The first node of a kind at or after `from` (`find` when `from` is 0). */
  function FirstOfKindFrom(nodes: seq<FlowNode>, kind: string, from: nat): (r: Option<nat>)
    decreases |nodes| - from
    ensures r.Some? ==> from <= r.value < |nodes| && nodes[r.value].kind == kind
    ensures forall k :: from <= k < |nodes| && (r.None? || k < r.value) ==> nodes[k].kind != kind
  {
    if from >= |nodes| then None
    else if nodes[from].kind == kind then Some(from)
    else FirstOfKindFrom(nodes, kind, from + 1)
  }

  /** The last node of a kind before index `c`. */
  function LastOfKindBefore(nodes: seq<FlowNode>, kind: string, c: nat): (r: Option<nat>)
    requires c <= |nodes|
    ensures r.Some? ==> r.value < c && nodes[r.value].kind == kind
    ensures forall k :: 0 <= k < c && (r.None? || r.value < k) ==> nodes[k].kind != kind
  {
    if c == 0 then None
    else if nodes[c - 1].kind == kind then Some(c - 1)
    else LastOfKindBefore(nodes, kind, c - 1)
  }

  /** `nodes.find(n => n.type === kind)?.id`. */
  function IdOfFirst(nodes: seq<FlowNode>, kind: string): Option<string> {
    match FirstOfKindFrom(nodes, kind, 0)
    case None => None
    case Some(j) => Some(nodes[j].id)
  }

  /** The id a key moves to from the node at index `c`, before the emptiness test. */
  function MoveTarget(nodes: seq<FlowNode>, c: nat, key: Key): Option<string>
    requires c < |nodes|
  {
    var kind := nodes[c].kind;
    match key
    case ArrowLeft =>
      if kind == "transform" then IdOfFirst(nodes, "source")
      else if kind == "destination" then IdOfFirst(nodes, "transform")
      else None
    case ArrowRight =>
      if kind == "source" then IdOfFirst(nodes, "transform")
      else if kind == "transform" then IdOfFirst(nodes, "destination")
      else None
    case ArrowUp =>
      var same := OfKind(nodes, kind);
      var i := IndexOfId(same, nodes[c].id);
      if i > 0 then Some(same[i - 1].id) else None
    case ArrowDown =>
      var same := OfKind(nodes, kind);
      var i := IndexOfId(same, nodes[c].id);
      if i < |same| - 1 then Some(same[i + 1].id) else None
    case Escape => None
    case OtherKey(_) => None
  }

  /** `handleCanvasKeyDown`: nothing without a selected, existing node; Escape clears;
      otherwise a non-empty target id becomes the selection. */
  function NextSelection(nodes: seq<FlowNode>, selected: Option<string>, key: Key): KeyEffect {
    if selected.None? || selected.value == "" then Unchanged
    else
      var c := IndexOfId(nodes, selected.value);
      if c < 0 then Unchanged
      else if key == Escape then ClearSelection
      else match MoveTarget(nodes, c, key)
        case None => Unchanged
        case Some(t) => if t == "" then Unchanged else SelectId(t)
  }

  method HandleCanvasKeyDown(store: FlowStore, key: Key)
    modifies store
    ensures store.State() ==
      match NextSelection(old(store.nodes), old(store.selected), key)
      case Unchanged => old(store.State())
      case SelectId(t) => old(store.State()).(selected := Some(t))
      case ClearSelection => old(store.State()).(selected := None)
  {
    var effect := NextSelection(store.nodes, store.selected, key);
    match effect {
      case Unchanged =>
      case SelectId(t) => store.SelectNode(Some(t));
      case ClearSelection => store.SelectNode(None);
    }
  }

  /** `onNodeClick`: the clicked node becomes the selection. */
  method OnNodeClick(store: FlowStore, id: string)
    modifies store
    ensures store.State() == old(store.State()).(selected := Some(id))
  {
    store.SelectNode(Some(id));
  }

  /** The effect of moving to the node at an optional index. */
  function Goto(nodes: seq<FlowNode>, j: Option<nat>): KeyEffect
    requires j.Some? ==> j.value < |nodes|
  {
    if j.None? || nodes[j.value].id == "" then Unchanged else SelectId(nodes[j.value].id)
  }

  /** The column of a node type; an unknown type is drawn in the first column. */
  function Column(kind: string): nat {
    if kind == "source" then 0
    else if kind == "transform" then 1
    else if kind == "destination" then 2
    else 0
  }

  /** The node type drawn in each of the three columns. */
  function ColumnKind(col: nat): string
    requires col < 3
  {
    if col == 0 then "source" else if col == 1 then "transform" else "destination"
  }

  predicate KnownKind(kind: string) {
    kind == "source" || kind == "transform" || kind == "destination"
  }

  predicate UniqueIds(nodes: seq<FlowNode>) {
    forall i, j :: 0 <= i < j < |nodes| ==> nodes[i].id != nodes[j].id
  }

  /** One node as drawn: its id, position, and whether it is flagged selected. */
  datatype Placed = Placed(id: string, x: int, y: int, selected: bool)

  /** The position and selection flag the layout effect computes for node `i`. */
  function Place(nodes: seq<FlowNode>, i: nat, selected: Option<string>): Placed
    requires i < |nodes|
  {
    var n := nodes[i];
    var row := IndexOfId(OfKind(nodes, n.kind), n.id);
    Placed(n.id, Column(n.kind) * 500, row * 200 + 50, selected == Some(n.id))
  }

  function Layout(nodes: seq<FlowNode>, selected: Option<string>): (r: seq<Placed>)
    ensures |r| == |nodes|
  {
    seq(|nodes|, i requires 0 <= i < |nodes| => Place(nodes, i, selected))
  }

  /** An edge in the drawing library's shape. */
  datatype RfEdge = RfEdge(id: string, source: string, target: string)

  function ToRfEdges(edges: seq<FlowEdge>): seq<RfEdge> {
    seq(|edges|, i requires 0 <= i < |edges| => RfEdge(edges[i].id, edges[i].from, edges[i].to))
  }

  /** Reading a drawn edge back as a store edge. */
  function FromRfEdges(edges: seq<RfEdge>): seq<FlowEdge> {
    seq(|edges|, i requires 0 <= i < |edges| => FlowEdge(edges[i].id, edges[i].source, edges[i].target))
  }

  /** The id `onConnect` gives a new edge; `stamp` stands for the current time in milliseconds. */
  function ConnectionId(source: string, target: string, stamp: string): string {
    "edge-" + source + "-" + target + "-" + stamp
  }

  /** `onConnect`: an edge is added only when both ends are present and non-empty. */
  method OnConnect(store: FlowStore, source: Option<string>, target: Option<string>, stamp: string)
    modifies store
    ensures source.Some? && source.value != "" && target.Some? && target.value != "" ==>
      store.State() == old(store.State()).(edges := old(store.edges) +
        [FlowEdge(ConnectionId(source.value, target.value, stamp), source.value, target.value)])
    ensures !(source.Some? && source.value != "" && target.Some? && target.value != "") ==>
      store.State() == old(store.State())
  {
    if source.Some? && source.value != "" && target.Some? && target.value != "" {
      store.AddEdge(FlowEdge(ConnectionId(source.value, target.value, stamp), source.value, target.value));
    }
  }

  // Lemmas about the filter and index helpers

  /** The filter keeps only nodes of the kind, all taken from the list. */
  lemma {:induction false} OfKindMembers(nodes: seq<FlowNode>, kind: string)
    decreases |nodes|
    ensures forall x :: x in OfKind(nodes, kind) ==> x in nodes && x.kind == kind
  {
    if |nodes| > 0 {
      OfKindMembers(nodes[1..], kind);
    }
  }

  lemma {:induction false} OfKindAppend(a: seq<FlowNode>, b: seq<FlowNode>, kind: string)
    decreases |a|
    ensures OfKind(a + b, kind) == OfKind(a, kind) + OfKind(b, kind)
  {
    if |a| > 0 {
      assert (a + b)[1..] == a[1..] + b;
      OfKindAppend(a[1..], b, kind);
    } else {
      assert a + b == b;
    }
  }

  lemma SplitAt(nodes: seq<FlowNode>, c: nat)
    requires c < |nodes|
    ensures nodes[..c] + nodes[c..] == nodes
    ensures nodes[c..][0] == nodes[c] && nodes[c..][1..] == nodes[c + 1..]
  {
  }

  lemma ConcatAssoc(a: seq<FlowNode>, b: seq<FlowNode>, c: seq<FlowNode>)
    ensures a + (b + c) == a + b + c
  {
  }

  lemma OfKindHead(t: seq<FlowNode>, kind: string)
    requires |t| > 0 && t[0].kind == kind
    ensures OfKind(t, kind) == [t[0]] + OfKind(t[1..], kind)
  {
  }

  /** Splitting the node list around index `c`. */
  lemma OfKindAround(nodes: seq<FlowNode>, c: nat)
    requires c < |nodes|
    ensures OfKind(nodes, nodes[c].kind) ==
      OfKind(nodes[..c], nodes[c].kind) + [nodes[c]] + OfKind(nodes[c + 1..], nodes[c].kind)
  {
    var kind := nodes[c].kind;
    SplitAt(nodes, c);
    OfKindAppend(nodes[..c], nodes[c..], kind);
    OfKindHead(nodes[c..], kind);
    ConcatAssoc(OfKind(nodes[..c], kind), [nodes[c]], OfKind(nodes[c + 1..], kind));
  }

  /** The first index of an id sits right after a prefix that lacks it. */
  lemma IndexAfterPrefix(a: seq<FlowNode>, x: FlowNode, b: seq<FlowNode>)
    requires forall y :: y in a ==> y.id != x.id
    ensures IndexOfId(a + [x] + b, x.id) == |a|
  {
    var xs := a + [x] + b;
    assert xs[|a|] == x;
    forall j | 0 <= j < |a| ensures xs[j].id != x.id {
      assert xs[j] == a[j];
    }
  }

  /** The node at index `c`, first with its id, is found in its kind's list right after the
      earlier nodes of that kind. */
  lemma RowOfNode(nodes: seq<FlowNode>, c: nat)
    requires c < |nodes|
    requires forall j :: 0 <= j < c ==> nodes[j].id != nodes[c].id
    ensures var same := OfKind(nodes, nodes[c].kind);
      IndexOfId(same, nodes[c].id) == |OfKind(nodes[..c], nodes[c].kind)|
  {
    var kind := nodes[c].kind;
    OfKindAround(nodes, c);
    OfKindMembers(nodes[..c], kind);
    forall y | y in OfKind(nodes[..c], kind) ensures y.id != nodes[c].id {
      assert y in nodes[..c];
    }
    IndexAfterPrefix(OfKind(nodes[..c], kind), nodes[c], OfKind(nodes[c + 1..], kind));
  }

  /** The last node of a kind before `c` is the last element of the filtered prefix. */
  lemma {:induction false} LastOfFilteredPrefix(nodes: seq<FlowNode>, kind: string, c: nat)
    requires c <= |nodes|
    ensures var f := OfKind(nodes[..c], kind);
      (|f| > 0 <==> LastOfKindBefore(nodes, kind, c).Some?)
      && (|f| > 0 ==> f[|f| - 1] == nodes[LastOfKindBefore(nodes, kind, c).value])
  {
    if c > 0 {
      LastOfFilteredPrefix(nodes, kind, c - 1);
      assert nodes[..c] == nodes[..c - 1] + [nodes[c - 1]];
      OfKindAppend(nodes[..c - 1], [nodes[c - 1]], kind);
      assert OfKind([nodes[c - 1]], kind) == (if nodes[c - 1].kind == kind then [nodes[c - 1]] else []) by {
        assert [nodes[c - 1]][1..] == [];
      }
    } else {
      assert nodes[..c] == [];
    }
  }

  /** The first node of a kind from `from` on is the first element of the filtered suffix. */
  lemma {:induction false} FirstOfFilteredSuffix(nodes: seq<FlowNode>, kind: string, from: nat)
    requires from <= |nodes|
    decreases |nodes| - from
    ensures var f := OfKind(nodes[from..], kind);
      (|f| > 0 <==> FirstOfKindFrom(nodes, kind, from).Some?)
      && (|f| > 0 ==> f[0] == nodes[FirstOfKindFrom(nodes, kind, from).value])
  {
    if from < |nodes| {
      FirstOfFilteredSuffix(nodes, kind, from + 1);
      assert nodes[from..][1..] == nodes[from + 1..];
    }
  }

  // Navigation

  /** Keys do nothing unless the selection names an existing node. */
  lemma KeysNeedSelectedNode(nodes: seq<FlowNode>, selected: Option<string>, key: Key)
    ensures NextSelection(nodes, selected, key) != Unchanged ==>
      selected.Some? && selected.value != "" && exists i :: 0 <= i < |nodes| && nodes[i].id == selected.value
  {
  }

  /** Escape clears exactly when there is a selected, existing node. */
  lemma EscapeClears(nodes: seq<FlowNode>, selected: Option<string>, key: Key)
    ensures NextSelection(nodes, selected, key) == ClearSelection <==>
      key == Escape && selected.Some? && selected.value != ""
      && exists i :: 0 <= i < |nodes| && nodes[i].id == selected.value
  {
    if key == Escape && selected.Some? && selected.value != "" {
      if i :| 0 <= i < |nodes| && nodes[i].id == selected.value {
        assert IndexOfId(nodes, selected.value) >= 0;
      }
    }
  }

  /** A key never selects an empty id or an id that names no node. */
  lemma SelectionStaysOnNodes(nodes: seq<FlowNode>, selected: Option<string>, key: Key)
    ensures NextSelection(nodes, selected, key).SelectId? ==>
      var t := NextSelection(nodes, selected, key).id;
      t != "" && exists i :: 0 <= i < |nodes| && nodes[i].id == t
  {
    if NextSelection(nodes, selected, key).SelectId? {
      var c := IndexOfId(nodes, selected.value);
      var kind := nodes[c].kind;
      var same := OfKind(nodes, kind);
      var i := IndexOfId(same, nodes[c].id);
      OfKindMembers(nodes, kind);
      match key {
        case ArrowUp =>
          assert same[i - 1] in same;
          var k :| 0 <= k < |nodes| && nodes[k] == same[i - 1];
        case ArrowDown =>
          assert same[i + 1] in same;
          var k :| 0 <= k < |nodes| && nodes[k] == same[i + 1];
        case _ =>
      }
    }
  }

  /** Right moves one column to the right of the layout: to the first node of the next
      column's type, and nowhere from the last column or from an unknown type. */
  lemma RightMoves(nodes: seq<FlowNode>, id: string)
    requires id != "" && IndexOfId(nodes, id) >= 0
    ensures var kind := nodes[IndexOfId(nodes, id)].kind;
      NextSelection(nodes, Some(id), ArrowRight) ==
        if KnownKind(kind) && Column(kind) < 2
        then Goto(nodes, FirstOfKindFrom(nodes, ColumnKind(Column(kind) + 1), 0)) else Unchanged
  {
    var kind := nodes[IndexOfId(nodes, id)].kind;
    assert MoveTarget(nodes, IndexOfId(nodes, id), ArrowRight) ==
      if kind == "source" then IdOfFirst(nodes, "transform")
      else if kind == "transform" then IdOfFirst(nodes, "destination")
      else None;
  }

  /** Left moves one column to the left: to the first node of the previous column's type, and
      nowhere from the first column or from an unknown type. */
  lemma LeftMoves(nodes: seq<FlowNode>, id: string)
    requires id != "" && IndexOfId(nodes, id) >= 0
    ensures var kind := nodes[IndexOfId(nodes, id)].kind;
      NextSelection(nodes, Some(id), ArrowLeft) ==
        if KnownKind(kind) && Column(kind) > 0
        then Goto(nodes, FirstOfKindFrom(nodes, ColumnKind(Column(kind) - 1), 0)) else Unchanged
  {
    var kind := nodes[IndexOfId(nodes, id)].kind;
    assert MoveTarget(nodes, IndexOfId(nodes, id), ArrowLeft) ==
      if kind == "transform" then IdOfFirst(nodes, "source")
      else if kind == "destination" then IdOfFirst(nodes, "transform")
      else None;
  }

  /** The node the up key reaches from index `c` is the last earlier node of its type. */
  lemma UpTarget(nodes: seq<FlowNode>, c: nat)
    requires c < |nodes| && forall j :: 0 <= j < c ==> nodes[j].id != nodes[c].id
    ensures var up := LastOfKindBefore(nodes, nodes[c].kind, c);
      MoveTarget(nodes, c, ArrowUp) == if up.None? then None else Some(nodes[up.value].id)
  {
    var kind := nodes[c].kind;
    var same := OfKind(nodes, kind);
    var before := OfKind(nodes[..c], kind);
    RowOfNode(nodes, c);
    OfKindAround(nodes, c);
    LastOfFilteredPrefix(nodes, kind, c);
    if |before| > 0 {
      assert same[|before| - 1] == before[|before| - 1];
    }
  }

  /** The node the down key reaches from index `c` is the first later node of its type. */
  lemma DownTarget(nodes: seq<FlowNode>, c: nat)
    requires c < |nodes| && forall j :: 0 <= j < c ==> nodes[j].id != nodes[c].id
    ensures var down := FirstOfKindFrom(nodes, nodes[c].kind, c + 1);
      MoveTarget(nodes, c, ArrowDown) == if down.None? then None else Some(nodes[down.value].id)
  {
    var kind := nodes[c].kind;
    var same := OfKind(nodes, kind);
    var before := OfKind(nodes[..c], kind);
    var after := OfKind(nodes[c + 1..], kind);
    RowOfNode(nodes, c);
    OfKindAround(nodes, c);
    FirstOfFilteredSuffix(nodes, kind, c + 1);
    if |after| > 0 {
      assert same[|before| + 1] == after[0];
    }
  }

  /** Up moves to the previous node of the same type in list order, and nowhere from the
      first one. */
  lemma UpMoves(nodes: seq<FlowNode>, id: string)
    requires id != "" && IndexOfId(nodes, id) >= 0
    ensures var c := IndexOfId(nodes, id);
      NextSelection(nodes, Some(id), ArrowUp) == Goto(nodes, LastOfKindBefore(nodes, nodes[c].kind, c))
  {
    var c := IndexOfId(nodes, id);
    UpTarget(nodes, c);
    var up := LastOfKindBefore(nodes, nodes[c].kind, c);
    assert MoveTarget(nodes, c, ArrowUp) == if up.None? then None else Some(nodes[up.value].id);
  }

  /** Down moves to the next node of the same type in list order, and nowhere from the last
      one: there is no wrap-around. */
  lemma DownMoves(nodes: seq<FlowNode>, id: string)
    requires id != "" && IndexOfId(nodes, id) >= 0
    ensures var c := IndexOfId(nodes, id);
      NextSelection(nodes, Some(id), ArrowDown) == Goto(nodes, FirstOfKindFrom(nodes, nodes[c].kind, c + 1))
  {
    var c := IndexOfId(nodes, id);
    DownTarget(nodes, c);
    var down := FirstOfKindFrom(nodes, nodes[c].kind, c + 1);
    assert MoveTarget(nodes, c, ArrowDown) == if down.None? then None else Some(nodes[down.value].id);
  }

  // Layout

  /** Sources, transforms and destinations are drawn at x = 0, 500 and 1000; any other type
      at x = 0. */
  lemma LayoutColumns(nodes: seq<FlowNode>, selected: Option<string>)
    ensures forall i :: 0 <= i < |nodes| ==>
      Layout(nodes, selected)[i].x == (if nodes[i].kind == "transform" then 500
        else if nodes[i].kind == "destination" then 1000 else 0)
  {
  }

  /** Exactly the nodes whose id is the selection are flagged, so with unique ids at most one. */
  lemma LayoutFlagsSelected(nodes: seq<FlowNode>, selected: Option<string>)
    ensures forall i :: 0 <= i < |nodes| ==>
      (Layout(nodes, selected)[i].selected <==> selected.Some? && selected.value == nodes[i].id)
    ensures UniqueIds(nodes) ==> forall i, j :: 0 <= i < j < |nodes| ==>
      !(Layout(nodes, selected)[i].selected && Layout(nodes, selected)[j].selected)
  {
  }

  /** The row of a node whose id is not used earlier: y is 200 times the number of earlier
      nodes of its type, plus 50. */
  lemma LayoutRow(nodes: seq<FlowNode>, selected: Option<string>, i: nat)
    requires i < |nodes|
    requires forall j :: 0 <= j < i ==> nodes[j].id != nodes[i].id
    ensures Layout(nodes, selected)[i].y == 200 * |OfKind(nodes[..i], nodes[i].kind)| + 50
  {
    RowOfNode(nodes, i);
  }

  /** With unique ids, two nodes of one type never share a position: the later is lower. */
  lemma LayoutSeparatesRows(nodes: seq<FlowNode>, selected: Option<string>, i: nat, j: nat)
    requires UniqueIds(nodes) && i < j < |nodes| && nodes[i].kind == nodes[j].kind
    ensures Layout(nodes, selected)[i].x == Layout(nodes, selected)[j].x
    ensures Layout(nodes, selected)[i].y < Layout(nodes, selected)[j].y
  {
    var kind := nodes[i].kind;
    LayoutRow(nodes, selected, i);
    LayoutRow(nodes, selected, j);
    assert nodes[..j] == nodes[..i] + [nodes[i]] + nodes[i + 1..j];
    OfKindAppend(nodes[..i] + [nodes[i]], nodes[i + 1..j], kind);
    OfKindAppend(nodes[..i], [nodes[i]], kind);
    assert OfKind([nodes[i]], kind) == [nodes[i]] by { assert [nodes[i]][1..] == []; }
  }

  // Edges and connections

  /** Converting edges keeps count and order and maps `from` to `source`, `to` to `target`:
      reading them back gives the store's edges. */
  lemma EdgeConversionRoundTrip(edges: seq<FlowEdge>)
    ensures |ToRfEdges(edges)| == |edges|
    ensures forall i :: 0 <= i < |edges| ==>
      ToRfEdges(edges)[i].source == edges[i].from && ToRfEdges(edges)[i].target == edges[i].to
    ensures FromRfEdges(ToRfEdges(edges)) == edges
  {
  }

  /** A connection with a fresh id is undone by removing that id. */
  lemma ConnectionUndoneByRemoval(edges: seq<FlowEdge>, source: string, target: string, stamp: string)
    requires forall e :: e in edges ==> e.id != ConnectionId(source, target, stamp)
    ensures var e := FlowEdge(ConnectionId(source, target, stamp), source, target);
      WithoutEdge(edges + [e], e.id) == edges
  {
    var e := FlowEdge(ConnectionId(source, target, stamp), source, target);
    WithoutEdgeAppend(edges, [e], e.id);
    WithoutUnknownEdge(edges, e.id);
    assert WithoutEdge([e], e.id) == [] by {
      assert e !in WithoutEdge([e], e.id);
    }
  }
}
