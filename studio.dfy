/**
 * The studio page: the three-node layout seeded from the landing prompt, the status
 * normalisation and graph application that turn a payload into flow-store state, the
 * page's handler for a forwarded reply (apply a non-empty graph, or synthesise one from
 * complete slots when the reply claims readiness), and the graph built from the slots.
 *
 * Lower- and upper-casing are modelled on ASCII letters only.
 */
module Studio {
  import opened Options
  import opened Text
  import opened Json
  import opened Slots
  import SlotRules = Slots
  import opened Flow
  import opened Protocol
  import opened Client
  import opened Chat

  /** `w.charAt(0).toUpperCase() + w.slice(1)`. */
  function Capitalize(w: string): string {
    if w == [] then [] else [UpperChar(w[0])] + w[1..]
  }

  /** `s.split(" ").map(capitalize).join(" ")`. */
  function TitleCase(s: string): string {
    JoinWith(CapitalizeEach(SplitOn(s, " ")), " ")
  }

  /** `words.map(capitalize)`. */
  function CapitalizeEach(words: seq<string>): seq<string> {
    seq(|words|, i requires 0 <= i < |words| => Capitalize(words[i]))
  }

  /** The reference reading of `TitleCase`: upper-case the first character and every
      character that follows a space, keep the rest. */
  function CapitalizedAfterSpaces(s: string): (r: string)
    ensures |r| == |s|
  {
    seq(|s|, i requires 0 <= i < |s| => if i == 0 || s[i - 1] == ' ' then UpperChar(s[i]) else s[i])
  }

  /** `^connect\s+|^stream\s+|^sync\s+` replaced by nothing: one leading verb and the
      whitespace after it. What is left is a suffix of `p`, and it is `p` itself exactly when
      `p` does not start with a verb followed by whitespace. */
  function StripVerb(p: string): (r: string)
    ensures |r| <= |p| && r == p[|p| - |r|..]
    ensures r == p <==> !(StartsWithVerb(p, "connect") || StartsWithVerb(p, "stream") || StartsWithVerb(p, "sync"))
  {
    if StartsWithVerb(p, "connect") then p[SkipSpace(p, 7)..]
    else if StartsWithVerb(p, "stream") then p[SkipSpace(p, 6)..]
    else if StartsWithVerb(p, "sync") then p[SkipSpace(p, 4)..]
    else p
  }

  /** `p` starts with the verb and at least one whitespace character. */
  predicate StartsWithVerb(p: string, verb: string) {
    |p| > |verb| && p[..|verb|] == verb && IsSpace(p[|verb|])
  }

  /** The source and destination names read from a seed prompt: the lower-cased text split on
      ` to `, the first part without its verb, the second part, each trimmed, with defaults. */
  function SeedNames(seed: string): (string, string) {
    var parts := SplitOn(Lower(seed), " to ");
    NamesFrom(parts[0], if |parts| > 1 then parts[1] else "")
  }

  /** The names read from the first part, without its verb, and the second, each trimmed. */
  function NamesFrom(first: string, second: string): (string, string) {
    (OrDefault(Trim(StripVerb(first)), "source"), OrDefault(Trim(second), "destination"))
  }

  /** `name || fallback` on strings. */
  function OrDefault(name: string, fallback: string): string {
    if name == "" then fallback else name
  }

  /** The three pending nodes of the seeded layout, labelled after the two names. */
  function Layout(source: string, destination: string): seq<FlowNode> {
    [ FlowNode("src", "source", TitleCase(source), Pending, Some(map[])),
      FlowNode("xform", "transform", "Transform", Pending, Some(map[])),
      FlowNode("dst", "destination", TitleCase(destination), Pending, Some(map[])) ]
  }

  function SeedNodes(seed: string): seq<FlowNode> {
    var (source, destination) := SeedNames(seed);
    Layout(source, destination)
  }

  const PIPELINE_EDGES: seq<FlowEdge> := [FlowEdge("e1", "src", "xform"), FlowEdge("e2", "xform", "dst")]

  /** The seeding effect: nothing without a (non-empty) seed, otherwise the three-node layout. */
  method SeedFlow(store: FlowStore, seed: Option<string>)
    modifies store
    ensures seed.None? || seed.value == "" ==> store.State() == old(store.State())
    ensures seed.Some? && seed.value != "" ==>
      store.State() == old(store.State()).(nodes := SeedNodes(seed.value), edges := PIPELINE_EDGES)
  {
    if seed.None? || seed.value == "" {
      return;
    }
    store.SetNodes(SeedNodes(seed.value));
    store.SetEdges(PIPELINE_EDGES);
  }

  /** `normalizeStatus`: the first of four case-insensitive prefixes, else pending. */
  function NormalizeStatus(s: string): Status {
    var k := Lower(s);
    if MatchesAt(k, "pend", 0, false) then Pending
    else if MatchesAt(k, "part", 0, false) then Partial
    else if MatchesAt(k, "comp", 0, false) then Complete
    else if MatchesAt(k, "err", 0, false) then Error
    else Pending
  }

  /** The status names the store uses. */
  function StatusName(st: Status): string {
    match st
    case Pending => "pending"
    case Partial => "partial"
    case Complete => "complete"
    case Error => "error"
  }

  /** A payload node with its status normalised (pending when absent) and its properties
      defaulted to an empty record. */
  function ToFlowNode(n: RawNode): FlowNode {
    FlowNode(n.id, n.kind, n.caption, NormalizeStatus(n.status.GetOr("pending")), Some(n.properties.GetOr(map[])))
  }

  function ToFlowNodes(ns: seq<RawNode>): (r: seq<FlowNode>)
    ensures |r| == |ns| && forall i :: 0 <= i < |ns| ==> r[i] == ToFlowNode(ns[i])
  {
    seq(|ns|, i requires 0 <= i < |ns| => ToFlowNode(ns[i]))
  }

  function ToFlowEdges(es: seq<RawEdge>): (r: seq<FlowEdge>)
    ensures |r| == |es| && forall i :: 0 <= i < |es| ==> r[i] == FlowEdge(es[i].id, es[i].from, es[i].to)
  {
    seq(|es|, i requires 0 <= i < |es| => FlowEdge(es[i].id, es[i].from, es[i].to))
  }

  /** The store after a graph was applied: its nodes and edges, and no selection. */
  function Applied(g: GraphPayload): FlowState {
    FlowState(ToFlowNodes(g.nodes), ToFlowEdges(g.edges), None)
  }

  /** `applyGraph`: clears the selection, then replaces nodes and edges. */
  method ApplyGraph(store: FlowStore, graph: Option<GraphPayload>)
    modifies store
    ensures graph.None? ==> store.State() == old(store.State())
    ensures graph.Some? ==> store.State() == Applied(graph.value)
  {
    if graph.None? {
      return;
    }
    store.SelectNode(None);
    store.SetNodes(ToFlowNodes(graph.value.nodes));
    store.SetEdges(ToFlowEdges(graph.value.edges));
  }

  /** `buildGraphFromSlots`: the three connected nodes, all complete, with the two role
      records as the endpoint properties. */
  function BuildGraphFromSlots(slots: Slots): GraphPayload {
    GraphPayload(
      [ RawNode("src", "source", "Shopify Orders", Some("complete"), Some(slots.shopify)),
        RawNode("xform", "transform", "Transform", Some("complete"),
          Some(map["mappings" := JArr([]), "filters" := JArr([])])),
        RawNode("dst", "destination", "Snowflake", Some("complete"), Some(slots.snowflake)) ],
      [RawEdge("e1", "src", "xform"), RawEdge("e2", "xform", "dst")])
  }

  /** The graph `handleAIGuidance` applies, if any. */
  function GraphToApply(graph: Option<GraphPayload>, rawText: Option<string>, slots: Slots): Option<GraphPayload> {
    if graph.Some? && |graph.value.nodes| > 0 then graph
    else if Ready(rawText.GetOr("")) && SlotRules.Complete(slots) then Some(BuildGraphFromSlots(slots))
    else None
  }

  /** `handleAIGuidance`, reading the slot store and writing the flow store. */
  method HandleAIGuidance(store: FlowStore, slotStore: SlotStore, graph: Option<GraphPayload>, rawText: Option<string>)
    modifies store
    ensures store.State() ==
      match GraphToApply(graph, rawText, slotStore.slots)
      case None => old(store.State())
      case Some(g) => Applied(g)
  {
    if graph.Some? && |graph.value.nodes| > 0 {
      ApplyGraph(store, graph);
      return;
    }
    var complete := slotStore.IsComplete();
    if Ready(rawText.GetOr("")) && complete {
      ApplyGraph(store, Some(BuildGraphFromSlots(slotStore.slots)));
    }
  }

  /** The graph a finished chat call leads the page to apply: the chat forwards only a reply
      with a graph, and the page then applies or synthesises. */
  function TurnGraph(r: AskResult, slots: Slots): Option<GraphPayload> {
    match Forwarded(r)
    case None => None
    case Some((g, t)) => GraphToApply(Some(g), Some(t), slots)
  }

  /** `TitleCase` of a text without a space capitalises it as one word. */
  lemma TitleCaseOneWord(s: string)
    requires Find(s, " ", 0, false).None?
    ensures TitleCase(s) == Capitalize(s)
  {
    assert SplitOn(s, " ") == [s];
    assert CapitalizeEach([s]) == [Capitalize(s)];
  }

  /** `TitleCase` of a text with a first space at `k`: the first word capitalised, then the
      rest of the text. */
  lemma TitleCaseFirstWord(s: string, k: nat)
    requires Find(s, " ", 0, false) == Some(k)
    ensures TitleCase(s) == Capitalize(s[..k]) + " " + TitleCase(s[k + 1..])
  {
    var restWords := SplitOn(s[k + 1..], " ");
    SplitOnStepAt(s, " ", k);
    CapitalizeEachCons(s[..k], restWords);
    JoinWithCons(Capitalize(s[..k]), CapitalizeEach(restWords), " ");
  }

  lemma CapitalizeEachCons(w: string, ws: seq<string>)
    ensures CapitalizeEach([w] + ws) == [Capitalize(w)] + CapitalizeEach(ws)
  {
  }

  /** The reference reading splits at a space like `TitleCase` does. */
  lemma CapitalizedSplits(s: string, k: nat)
    requires k < |s| && s[k] == ' '
    ensures CapitalizedAfterSpaces(s) == CapitalizedAfterSpaces(s[..k]) + " " + CapitalizedAfterSpaces(s[k + 1..])
  {
    var l, r := s[..k], s[k + 1..];
    var whole := CapitalizedAfterSpaces(s);
    var rhs := CapitalizedAfterSpaces(l) + " " + CapitalizedAfterSpaces(r);
    forall i | 0 <= i < |s| ensures whole[i] == rhs[i] {
      if i < k {
        assert l[i] == s[i];
        if i > 0 { assert l[i - 1] == s[i - 1]; }
      } else if i > k {
        assert r[i - k - 1] == s[i];
        if i > k + 1 { assert r[i - k - 2] == s[i - 1]; }
      }
    }
  }

  /** On a single word, the reference reading is `Capitalize`. */
  lemma CapitalizedWord(w: string)
    requires forall j :: 0 <= j < |w| ==> !MatchesAt(w, " ", j, false)
    ensures CapitalizedAfterSpaces(w) == Capitalize(w)
  {
    forall j | 0 <= j < |w| ensures w[j] != ' ' {
      assert !MatchesAt(w, " ", j, false);
    }
  }

  /** Title-casing upper-cases exactly the first character and the characters after a space. */
  lemma {:induction false} TitleCaseCapitalizes(s: string)
    decreases |s|
    ensures TitleCase(s) == CapitalizedAfterSpaces(s)
  {
    if Find(s, " ", 0, false).Some? {
      var k := Find(s, " ", 0, false).value;
      TitleCaseFirstWord(s, k);
      TitleCaseCapitalizes(s[k + 1..]);
      assert s[k] == ' ' by { assert Same(s[k + 0], " "[0], false); }
      CapitalizedSplits(s, k);
      forall j | 0 <= j < k ensures !MatchesAt(s[..k], " ", j, false) {
        assert !MatchesAt(s, " ", j, false);
      }
      CapitalizedWord(s[..k]);
    } else {
      TitleCaseOneWord(s);
      CapitalizedWord(s);
    }
  }

  /** So title-casing keeps the length and the positions of the spaces. */
  lemma TitleCaseKeepsSpaces(s: string)
    ensures |TitleCase(s)| == |s|
    ensures forall i :: 0 <= i < |s| ==> (TitleCase(s)[i] == ' ' <==> s[i] == ' ')
  {
    TitleCaseCapitalizes(s);
  }

  /** Every edge starts and ends at the id of one of the nodes. */
  predicate EdgesConnectNodes(nodes: seq<FlowNode>, edges: seq<FlowEdge>) {
    forall e :: e in edges ==>
      (exists i :: 0 <= i < |nodes| && nodes[i].id == e.from) && (exists j :: 0 <= j < |nodes| && nodes[j].id == e.to)
  }

  /** A name the seed yields is never empty: missing parts fall back to the defaults. */
  lemma SeedNamesNonEmpty(seed: string)
    ensures SeedNames(seed).0 != "" && SeedNames(seed).1 != ""
  {
  }

  /** The layout for two non-empty names: three pending nodes `src`, `xform`, `dst` with
      non-empty labels, and two edges whose endpoints are node ids. */
  lemma LayoutShape(source: string, destination: string)
    requires source != "" && destination != ""
    ensures var ns := Layout(source, destination);
      |ns| == 3 && ns[0].id == "src" && ns[1].id == "xform" && ns[2].id == "dst"
      && (forall i :: 0 <= i < 3 ==> ns[i].status == Pending && ns[i].caption != "")
      && EdgesConnectNodes(ns, PIPELINE_EDGES)
  {
    TitleCaseKeepsSpaces(source);
    TitleCaseKeepsSpaces(destination);
    var ns := Layout(source, destination);
    forall e | e in PIPELINE_EDGES
      ensures (exists i :: 0 <= i < |ns| && ns[i].id == e.from) && (exists j :: 0 <= j < |ns| && ns[j].id == e.to)
    {
      if e == PIPELINE_EDGES[0] {
        assert ns[0].id == e.from && ns[1].id == e.to;
      } else {
        assert ns[1].id == e.from && ns[2].id == e.to;
      }
    }
  }

  /** So every seed yields that layout. */
  lemma SeedLayoutShape(seed: string)
    ensures var ns := SeedNodes(seed);
      |ns| == 3 && ns[0].id == "src" && ns[1].id == "xform" && ns[2].id == "dst"
      && (forall i :: 0 <= i < 3 ==> ns[i].status == Pending && ns[i].caption != "")
      && EdgesConnectNodes(ns, PIPELINE_EDGES)
  {
    SeedNamesNonEmpty(seed);
    LayoutShape(SeedNames(seed).0, SeedNames(seed).1);
  }

  /** Exactly one verb is stripped: a verb, a run of whitespace, then text not starting with
      whitespace leaves that text. */
  lemma StripsOneVerb(verb: string, gap: string, x: string)
    requires verb in ["connect", "stream", "sync"]
    requires gap != [] && AllSpace(gap)
    requires x == [] || !IsSpace(x[0])
    ensures StartsWithVerb(verb + gap + x, verb)
    ensures StripVerb(verb + gap + x) == x
  {
    var p := verb + gap + x;
    var n := |verb|;
    assert p[..n] == verb;
    assert forall j :: n <= j < n + |gap| ==> p[j] == gap[j - n];
    SkipSpaceIs(p, n, n + |gap|);
    assert p[n + |gap|..] == x;
    if verb != "connect" {
      assert p[0] == 's';
      assert !StartsWithVerb(p, "connect") by {
        if |p| > 7 { assert p[..7][0] == 's'; }
      }
    }
    if verb == "sync" {
      assert p[1] == 'y';
      assert !StartsWithVerb(p, "stream") by {
        if |p| > 6 { assert p[..6][1] == 'y'; }
      }
    }
  }

  /** A seed without ` to ` names its source after the whole lower-cased seed, without its
      verb, and falls back to the default destination. */
  lemma SeedNamesWithoutSeparator(seed: string)
    requires Find(Lower(seed), " to ", 0, false).None?
    ensures SeedNames(seed) == NamesFrom(Lower(seed), "")
  {
  }

  /** Otherwise the source is read from the text before the first ` to `, without its verb,
      and the destination from the text between the first ` to ` and the second, or the end. */
  lemma SeedNamesOfParts(seed: string, i: nat, j: nat)
    requires Find(Lower(seed), " to ", 0, false) == Some(i)
    requires i + 4 <= j <= |seed|
    requires j == |seed| ==> Find(Lower(seed), " to ", i + 4, false).None?
    requires j < |seed| ==> Find(Lower(seed), " to ", i + 4, false) == Some(j)
    ensures SeedNames(seed) == NamesFrom(Lower(seed)[..i], Lower(seed)[i + 4..j])
  {
    var low := Lower(seed);
    SplitOnAfter(low, " to ", i + 4, j);
    SplitOnStepAt(low, " to ", i);
    FirstTwoOfCons(SplitOn(low, " to "), low[..i], SplitOn(low[i + 4..], " to "), low[i + 4..j]);
  }

  /** Whatever follows a second ` to ` does not change the names. */
  lemma SeedNamesIgnoreTail(seed: string, i: nat, j: nat)
    requires Find(Lower(seed), " to ", 0, false) == Some(i)
    requires Find(Lower(seed), " to ", i + 4, false) == Some(j)
    ensures SeedNames(seed[..j]) == SeedNames(seed)
  {
    var low := Lower(seed);
    LowerPrefix(seed, j);
    FindBeforeSecond(low, " to ", i, j);
    SeedNamesOfParts(seed[..j], i, j);
    SeedNamesOfParts(seed, i, j);
    calc {
      SeedNames(seed[..j]);
      NamesFrom(low[..j][..i], low[..j][i + 4..j]);
      { SliceOfPrefix(low, j, 0, i); SliceOfPrefix(low, j, i + 4, j); }
      NamesFrom(low[..i], low[i + 4..j]);
    }
  }

  /** Each canonical name normalises to its own status. */
  lemma NormalizeStatusName(st: Status)
    ensures NormalizeStatus(StatusName(st)) == st
  {
    var name := StatusName(st);
    LowerFixes(name);
    match st {
      case Pending =>
      case Partial =>
        assert !Same(name[0 + 1], "pend"[1], false);
      case Complete =>
        assert !Same(name[0 + 0], "pend"[0], false);
        assert !Same(name[0 + 0], "part"[0], false);
      case Error =>
        assert !Same(name[0 + 0], "pend"[0], false);
        assert !Same(name[0 + 0], "part"[0], false);
        assert !Same(name[0 + 0], "comp"[0], false);
    }
  }

  /** So normalising is idempotent on the names it stands for. */
  lemma NormalizeIdempotent(s: string)
    ensures NormalizeStatus(StatusName(NormalizeStatus(s))) == NormalizeStatus(s)
  {
    NormalizeStatusName(NormalizeStatus(s));
  }

  /** The four prefixes exclude each other. */
  lemma StatusPrefixesDisjoint(k: string)
    ensures MatchesAt(k, "pend", 0, false) ==> !MatchesAt(k, "part", 0, false)
    ensures MatchesAt(k, "pend", 0, false) || MatchesAt(k, "part", 0, false) ==>
      !MatchesAt(k, "comp", 0, false) && !MatchesAt(k, "err", 0, false)
    ensures MatchesAt(k, "comp", 0, false) ==> !MatchesAt(k, "err", 0, false)
  {
    if MatchesAt(k, "pend", 0, false) {
      assert k[0] == 'p' && k[1] == 'e' by {
        assert Same(k[0 + 0], "pend"[0], false) && Same(k[0 + 1], "pend"[1], false);
      }
      assert !Same(k[0 + 1], "part"[1], false);
    }
    if MatchesAt(k, "pend", 0, false) || MatchesAt(k, "part", 0, false) {
      assert k[0] == 'p' by {
        if MatchesAt(k, "pend", 0, false) {
          assert Same(k[0 + 0], "pend"[0], false);
        } else {
          assert Same(k[0 + 0], "part"[0], false);
        }
      }
      assert !Same(k[0 + 0], "comp"[0], false);
      assert !Same(k[0 + 0], "err"[0], false);
    }
    if MatchesAt(k, "comp", 0, false) {
      assert k[0] == 'c' by { assert Same(k[0 + 0], "comp"[0], false); }
      assert !Same(k[0 + 0], "err"[0], false);
    }
  }

  /** The statuses by case-insensitive prefix: partial, complete and error for their prefixes
      and pending for everything else. */
  lemma NormalizeStatusIff(s: string)
    ensures NormalizeStatus(s) == Partial <==> MatchesAt(s, "part", 0, true)
    ensures NormalizeStatus(s) == Complete <==> MatchesAt(s, "comp", 0, true)
    ensures NormalizeStatus(s) == Error <==> MatchesAt(s, "err", 0, true)
    ensures NormalizeStatus(s) == Pending <==>
      !MatchesAt(s, "part", 0, true) && !MatchesAt(s, "comp", 0, true) && !MatchesAt(s, "err", 0, true)
  {
    LowerFixes("part");
    LowerFixes("comp");
    LowerFixes("err");
    LowerMatchesIffCaseless(s, "part", 0);
    LowerMatchesIffCaseless(s, "comp", 0);
    LowerMatchesIffCaseless(s, "err", 0);
    StatusPrefixesDisjoint(Lower(s));
  }

  /** Applying a graph keeps count and order, copies ids, types, labels and endpoints verbatim,
      defaults a missing status to pending and missing properties to an empty record. */
  lemma ApplyGraphCopies(g: GraphPayload)
    ensures var st := Applied(g);
      |st.nodes| == |g.nodes| && |st.edges| == |g.edges| && st.selected.None?
      && (forall i :: 0 <= i < |g.nodes| ==>
        st.nodes[i].id == g.nodes[i].id && st.nodes[i].kind == g.nodes[i].kind
        && st.nodes[i].caption == g.nodes[i].caption
        && (g.nodes[i].status.None? ==> st.nodes[i].status == Pending)
        && (g.nodes[i].properties.None? ==> st.nodes[i].properties == Some(map[]))
        && (g.nodes[i].properties.Some? ==> st.nodes[i].properties == g.nodes[i].properties))
      && forall i :: 0 <= i < |g.edges| ==>
        st.edges[i].id == g.edges[i].id && st.edges[i].from == g.edges[i].from && st.edges[i].to == g.edges[i].to
  {
    forall i | 0 <= i < |g.nodes| && g.nodes[i].status.None?
      ensures ToFlowNode(g.nodes[i]).status == Pending
    {
      NormalizeStatusName(Pending);
    }
  }

  /** The synthesised graph: nodes `src`, `xform`, `dst`, all complete once applied, the role
      records as endpoint properties, and two edges between node ids. */
  lemma BuiltGraphShape(slots: Slots)
    ensures var st := Applied(BuildGraphFromSlots(slots));
      |st.nodes| == 3 && st.nodes[0].id == "src" && st.nodes[1].id == "xform" && st.nodes[2].id == "dst"
      && (forall i :: 0 <= i < 3 ==> st.nodes[i].status == Complete)
      && st.nodes[0].properties == Some(slots.shopify) && st.nodes[2].properties == Some(slots.snowflake)
      && st.edges == PIPELINE_EDGES
  {
    NormalizeStatusName(Complete);
  }

  /** The page applies a non-empty graph as sent, synthesises only when the nodes are missing
      or empty, the text claims readiness and the slots are complete, and never applies a graph
      without nodes. */
  lemma GuidanceChoices(graph: Option<GraphPayload>, rawText: Option<string>, slots: Slots)
    ensures graph.Some? && |graph.value.nodes| > 0 ==> GraphToApply(graph, rawText, slots) == graph
    ensures GraphToApply(graph, rawText, slots) == Some(BuildGraphFromSlots(slots)) && !(graph.Some? && |graph.value.nodes| > 0) <==>
      !(graph.Some? && |graph.value.nodes| > 0) && Ready(rawText.GetOr("")) && SlotRules.Complete(slots)
    ensures GraphToApply(graph, rawText, slots).Some? ==> |GraphToApply(graph, rawText, slots).value.nodes| > 0
  {
  }

  /** Because the chat forwards only replies with a graph, the local synthesis happens only
      for a reply whose graph has an empty node list. */
  lemma SynthesisNeedsEmptyGraph(r: AskResult, slots: Slots)
    requires TurnGraph(r, slots).Some? && TurnGraph(r, slots).value == BuildGraphFromSlots(slots)
    requires !(r.Answer? && r.graph.Some? && r.graph.value == BuildGraphFromSlots(slots))
    ensures r.Answer? && r.graph.Some? && |r.graph.value.nodes| == 0
    ensures Ready(r.text) && SlotRules.Complete(slots)
  {
  }
}
