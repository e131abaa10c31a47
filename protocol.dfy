/**
 * The model-calling service: the transcript flattening and prompt assembly, the
 * response parser that splits a completion into a user-facing message and an
 * optional graph, the graph-shape check, and the handler's two-pass protocol
 * (a primary completion, then one forced JSON-only completion when the message
 * claims readiness but carried no graph).
 *
 * The regular expressions of the parser are written out as search functions. Each
 * is anchored on the leftmost occurrence of its first literal; the search functions
 * below return the same capture a backtracking matcher does, because once the first
 * candidate opening fence has no closing fence after it, no later candidate has one
 * either (a later opening fence would itself be such a closing fence).
 * `JSON.parse` and the model call are parameters: `parse` returns `None` where
 * `JSON.parse` throws, `generate` returns `Thrown` where the call rejects.
 */
module Protocol {
  import opened Options
  import opened Text
  import opened Json

  datatype Role = User | Assistant

  datatype ChatMessage = ChatMessage(role: Role, content: string)

  function RoleName(r: Role): string {
    match r
    case User => "user"
    case Assistant => "assistant"
  }

  /** `${m.role}: ${m.content}` */
  function Line(m: ChatMessage): string {
    RoleName(m.role) + ": " + m.content
  }

  function Lines(ms: seq<ChatMessage>): (r: seq<string>)
    ensures |r| == |ms|
    ensures forall i :: 0 <= i < |ms| ==> r[i] == Line(ms[i])
  {
    if ms == [] then [] else [Line(ms[0])] + Lines(ms[1..])
  }

  /** The flattened conversation sent with both prompts, one line per message. */
  function Transcript(ms: seq<ChatMessage>): string {
    JoinWith(Lines(ms), "\n")
  }

  /** The natural-language parts of the prompts, which this model leaves abstract. */
  datatype Prompts = Prompts(
    system: seq<string>, schemaExample: string, conversationPrefix: string, forceJson: seq<string>)

  /** The primary prompt: the system lines, the schema example, a blank line, the
      conversation prefix and the transcript, joined by newlines. */
  function PrimaryPrompt(p: Prompts, convo: string): string {
    JoinWith(p.system + [p.schemaExample, "", p.conversationPrefix, convo], "\n")
  }

  /** The forced prompt: the force-JSON lines and the same transcript. */
  function ForcePrompt(p: Prompts, convo: string): string {
    JoinWith(p.forceJson + [convo], "\n")
  }

  const MESSAGE_MARKER: string := "MESSAGE:"
  const GRAPH_MARKER: string := "GRAPH_JSON:"
  const FENCE: string := "```"

  /** A point where the lazy message capture may stop: two newlines, the graph marker,
      a fence, or the end of the text. */
  predicate EndsMessageAt(s: string, q: nat) {
    q == |s| || MatchesAt(s, "\n\n", q, false) || MatchesAt(s, GRAPH_MARKER, q, true)
    || MatchesAt(s, FENCE, q, false)
  }

  function MessageEnd(s: string, q: nat): (e: nat)
    requires q <= |s|
    decreases |s| - q
    ensures q <= e <= |s| && EndsMessageAt(s, e)
    ensures forall k :: q <= k < e ==> !EndsMessageAt(s, k)
  {
    if EndsMessageAt(s, q) then q else MessageEnd(s, q + 1)
  }

  /** `(s.match(/MESSAGE:\s*([\s\S]*?)(?:\n{2,}|GRAPH_JSON:|```|$)/i)?.[1] ?? s).trim()` */
  function MessageText(s: string): (r: string)
    ensures IsTrimmed(r)
    ensures Find(s, MESSAGE_MARKER, 0, true).None? ==> r == Trim(s)
  {
    match Find(s, MESSAGE_MARKER, 0, true)
    case None => Trim(s)
    case Some(i) =>
      var p := SkipSpace(s, i + |MESSAGE_MARKER|);
      Trim(s[p..MessageEnd(s, p)])
  }

  /** Where the capture of ```` ```<tag>\s*([\s\S]*?)``` ```` lies, for the first opening fence at
      or after `from`: from the end of the whitespace after it to the next fence. */
  function FenceRange(s: string, tag: string, from: nat): (r: Option<(nat, nat)>)
    ensures r.Some? ==> r.value.0 <= r.value.1 <= |s|
    ensures r.Some? ==> Find(s, FENCE + tag, from, true).Some?
    ensures r.Some? ==> var o := Find(s, FENCE + tag, from, true).value;
      o + |FENCE + tag| <= r.value.0 < |s| && !IsSpace(s[r.value.0])
      && (forall j :: o + |FENCE + tag| <= j < r.value.0 ==> IsSpace(s[j]))
    ensures r.Some? ==>
      MatchesAt(s, FENCE, r.value.1, false) && forall j :: r.value.0 <= j < r.value.1 ==> !MatchesAt(s, FENCE, j, false)
  {
    var open := Find(s, FENCE + tag, from, true);
    if open.None? then None
    else
      var p := SkipSpace(s, open.value + |FENCE + tag|);
      var close := Find(s, FENCE, p, false);
      if close.None? then None else Some((p, close.value))
  }

  /** The capture itself. */
  function FenceBody(s: string, tag: string, from: nat): Option<string> {
    match FenceRange(s, tag, from)
    case None => None
    case Some((a, b)) => Some(s[a..b])
  }

  /** The capture of `/GRAPH_JSON:[\s\S]*?```<tag>\s*([\s\S]*?)```/i`. */
  function GraphJsonBlock(s: string, tag: string): Option<string> {
    match Find(s, GRAPH_MARKER, 0, true)
    case None => None
    case Some(i) => FenceBody(s, tag, i + |GRAPH_MARKER|)
  }

  /** The first tier: a ```` ```json ```` block after the marker when one matches,
      otherwise a plain-fenced block after the marker. */
  function PrimaryBlock(s: string): (r: Option<string>)
    ensures GraphJsonBlock(s, "json").Some? ==> r == GraphJsonBlock(s, "json")
    ensures GraphJsonBlock(s, "json").None? ==> r == GraphJsonBlock(s, "")
  {
    match GraphJsonBlock(s, "json")
    case Some(b) => Some(b)
    case None => GraphJsonBlock(s, "")
  }

  /** The second tier: the first ```` ```json ```` block anywhere, otherwise the first plain one. */
  function FallbackBlock(s: string): (r: Option<string>)
    ensures FenceBody(s, "json", 0).Some? ==> r == FenceBody(s, "json", 0)
    ensures FenceBody(s, "json", 0).None? ==> r == FenceBody(s, "", 0)
  {
    match FenceBody(s, "json", 0)
    case Some(b) => Some(b)
    case None => FenceBody(s, "", 0)
  }

  /** `g && Array.isArray(g.nodes) && Array.isArray(g.edges)` */
  predicate IsGraphShape(g: Json) {
    FieldIsArray(g, "nodes") && FieldIsArray(g, "edges")
  }

  /** One parse attempt: a failed parse or a value of the wrong shape is no graph. */
  function Accept(block: Option<string>, parse: string -> Option<Json>): (r: Option<Json>)
    ensures r.Some? ==> block.Some? && parse(block.value) == r && IsGraphShape(r.value)
    ensures block.Some? && parse(block.value).Some? && IsGraphShape(parse(block.value).value) ==>
      r == parse(block.value)
  {
    match block
    case None => None
    case Some(b) =>
      match parse(b)
      case Some(g) => if IsGraphShape(g) then Some(g) else None
      case None => None
  }

  datatype Parsed = Parsed(message: string, graph: Option<Json>)

  /** `splitMessageAndGraph`. The graph, when there is one, has the graph shape and is what
      `parse` made of one of the two tiers' blocks. */
  function SplitMessageAndGraph(s: string, parse: string -> Option<Json>): (r: Parsed)
    ensures r.message == MessageText(s)
    ensures r.graph.Some? ==> IsGraphShape(r.graph.value)
    ensures r.graph.Some? ==>
      (PrimaryBlock(s).Some? && parse(PrimaryBlock(s).value) == r.graph)
      || (FallbackBlock(s).Some? && parse(FallbackBlock(s).value) == r.graph)
    ensures Accept(PrimaryBlock(s), parse).Some? ==> r.graph == Accept(PrimaryBlock(s), parse)
    ensures Accept(PrimaryBlock(s), parse).None? ==> r.graph == Accept(FallbackBlock(s), parse)
  {
    var first := Accept(PrimaryBlock(s), parse);
    if first.Some? then Parsed(MessageText(s), first)
    else Parsed(MessageText(s), Accept(FallbackBlock(s), parse))
  }

  /** `/ready|configured|finali[sz]ed?|pipeline.*ready/i.test(text)`; the last alternative
      can only match where `ready` already does. */
  predicate Ready(text: string) {
    Contains(text, "ready", true) || Contains(text, "configured", true)
    || Contains(text, "finalise", true) || Contains(text, "finalize", true)
  }

  /** What `.` does not match without the `s` flag. */
  predicate IsLineTerminator(c: char) {
    c == '\n' || c == '\r' || c == '\U{2028}' || c == '\U{2029}'
  }

  /** `finali[sz]ed?` matches at `i`: `finali`, an `s` or a `z`, then an `e`; the optional `d`
      never decides whether the pattern matches. */
  predicate FinalisedAt(text: string, i: nat) {
    MatchesAt(text, "finali", i, true) && i + 8 <= |text|
    && (Same(text[i + 6], 's', true) || Same(text[i + 6], 'z', true)) && Same(text[i + 7], 'e', true)
  }

  /** `pipeline.*ready` matches at `i`: `pipeline`, then `ready` further on the same line. */
  ghost predicate PipelineReadyAt(text: string, i: nat) {
    MatchesAt(text, "pipeline", i, true)
    && exists j: nat ::
      (i + 8 <= j && MatchesAt(text, "ready", j, true) && forall k :: i + 8 <= k < j ==> !IsLineTerminator(text[k]))
  }

  /** The readiness pattern read alternative by alternative: one of them matches somewhere. */
  ghost predicate ReadyPattern(text: string) {
    exists i: nat ::
      MatchesAt(text, "ready", i, true) || MatchesAt(text, "configured", i, true)
      || FinalisedAt(text, i) || PipelineReadyAt(text, i)
  }

  /** A match of the third alternative is an occurrence of `finalise` or `finalize`. */
  lemma FinalisedAtIff(text: string, i: nat)
    ensures FinalisedAt(text, i) <==> MatchesAt(text, "finalise", i, true) || MatchesAt(text, "finalize", i, true)
  {
    if FinalisedAt(text, i) {
      assert "finalise"[..6] == "finali" && "finalize"[..6] == "finali";
      assert forall j :: 0 <= j < 6 ==> "finalise"[j] == "finali"[j] && "finalize"[j] == "finali"[j];
    }
    if MatchesAt(text, "finalise", i, true) {
      assert forall j :: 0 <= j < 6 ==> "finalise"[j] == "finali"[j];
      assert Same(text[i + 6], "finalise"[6], true) && Same(text[i + 7], "finalise"[7], true);
    }
    if MatchesAt(text, "finalize", i, true) {
      assert forall j :: 0 <= j < 6 ==> "finalize"[j] == "finali"[j];
      assert Same(text[i + 6], "finalize"[6], true) && Same(text[i + 7], "finalize"[7], true);
    }
  }

  /** `Ready` decides the pattern: the fourth alternative only matches where `ready` does. */
  lemma ReadyIff(text: string)
    ensures Ready(text) <==> ReadyPattern(text)
  {
    if Ready(text) {
      if Contains(text, "ready", true) {
        assert MatchesAt(text, "ready", Find(text, "ready", 0, true).value, true);
      } else if Contains(text, "configured", true) {
        assert MatchesAt(text, "configured", Find(text, "configured", 0, true).value, true);
      } else if Contains(text, "finalise", true) {
        FinalisedAtIff(text, Find(text, "finalise", 0, true).value);
      } else {
        FinalisedAtIff(text, Find(text, "finalize", 0, true).value);
      }
    }
    if ReadyPattern(text) {
      var i: nat :|
        MatchesAt(text, "ready", i, true) || MatchesAt(text, "configured", i, true)
        || FinalisedAt(text, i) || PipelineReadyAt(text, i);
      FinalisedAtIff(text, i);
      if PipelineReadyAt(text, i) {
        var j: nat :| i + 8 <= j && MatchesAt(text, "ready", j, true);
      }
    }
  }

  /** The handler's trigger for the forced pass. */
  predicate NeedsForcedPass(p: Parsed) {
    p.graph.None? && Ready(p.message)
  }

  /** The text the forced reply is wrapped in before it is parsed. */
  function Wrap(forced: string): string {
    GRAPH_MARKER + "\n" + FENCE + "json\n" + forced + "\n" + FENCE
  }

  datatype Generated = Text(text: string) | Thrown(message: string)

  datatype Response = Ok(text: string, graph: Option<Json>) | ServerError(body: string)

  /** `e?.message || 'Server error'` */
  function ErrorBody(message: string): string {
    if message == "" then "Server error" else message
  }

  /**
   * The request handler. `calls` lists the prompts sent to the model, in order: there is
   * always the primary one and at most one forced one.
   */
  method Handle(
    messages: seq<ChatMessage>, prompts: Prompts,
    generate: string -> Generated, parse: string -> Option<Json>)
    returns (resp: Response, calls: seq<string>)
    ensures 1 <= |calls| <= 2
    ensures calls[0] == PrimaryPrompt(prompts, Transcript(messages))
    ensures |calls| == 2 <==>
      generate(calls[0]).Text? && NeedsForcedPass(SplitMessageAndGraph(generate(calls[0]).text, parse))
    ensures |calls| == 2 ==> calls[1] == ForcePrompt(prompts, Transcript(messages))
    ensures generate(calls[0]).Thrown? ==> resp == ServerError(ErrorBody(generate(calls[0]).message))
    ensures generate(calls[0]).Text? ==>
      var primary := SplitMessageAndGraph(generate(calls[0]).text, parse);
      if |calls| == 1 then resp == Ok(primary.message, primary.graph)
      else match generate(calls[1])
        case Thrown(m) => resp == ServerError(ErrorBody(m))
        case Text(f) => resp == Ok(primary.message, SplitMessageAndGraph(Wrap(f), parse).graph)
    ensures resp.Ok? && resp.graph.Some? ==> IsGraphShape(resp.graph.value)
  {
    var convo := Transcript(messages);
    var prompt := PrimaryPrompt(prompts, convo);
    calls := [prompt];
    var reply := generate(prompt);
    if reply.Thrown? {
      return ServerError(ErrorBody(reply.message)), calls;
    }
    var parsed := SplitMessageAndGraph(reply.text, parse);
    var messageText, graph := parsed.message, parsed.graph;
    if graph.None? && Ready(messageText) {
      var forcePrompt := ForcePrompt(prompts, convo);
      calls := calls + [forcePrompt];
      var force := generate(forcePrompt);
      if force.Thrown? {
        return ServerError(ErrorBody(force.message)), calls;
      }
      var forced := SplitMessageAndGraph(Wrap(force.text), parse);
      if forced.graph.Some? {
        graph := forced.graph;
      }
    }
    resp := Ok(messageText, graph);
  }

  /** No later candidate rescues a failed search: when no range is found from `from`, no
      opening fence at or after `from` is followed by a closing fence. */
  lemma NoFenceRange(s: string, tag: string, from: nat)
    requires FenceRange(s, tag, from).None?
    ensures forall o: nat, c: nat ::
      from <= o && MatchesAt(s, FENCE + tag, o, true) && o + |FENCE + tag| <= c ==> !MatchesAt(s, FENCE, c, false)
  {
    var open := Find(s, FENCE + tag, from, true);
    if open.Some? {
      var p := SkipSpace(s, open.value + |FENCE + tag|);
      forall o: nat, c: nat | from <= o && MatchesAt(s, FENCE + tag, o, true) && o + |FENCE + tag| <= c
        ensures !MatchesAt(s, FENCE, c, false)
      {
        if c < p && c < |s| {
          assert !Same(s[c + 0], FENCE[0], false);
        }
      }
    }
  }

  /** Likewise for the marker's blocks: when the block after the first marker fails, no
      marker is followed by an opening fence and then a closing fence. */
  lemma NoGraphJsonBlock(s: string, tag: string)
    requires GraphJsonBlock(s, tag).None?
    ensures forall i: nat, o: nat, c: nat ::
      (MatchesAt(s, GRAPH_MARKER, i, true) && i + |GRAPH_MARKER| <= o && MatchesAt(s, FENCE + tag, o, true)
       && o + |FENCE + tag| <= c) ==> !MatchesAt(s, FENCE, c, false)
  {
    if Find(s, GRAPH_MARKER, 0, true).Some? {
      var first := Find(s, GRAPH_MARKER, 0, true).value;
      assert FenceRange(s, tag, first + |GRAPH_MARKER|).None?;
      NoFenceRange(s, tag, first + |GRAPH_MARKER|);
    }
  }

  /** One more message adds one line to the transcript. */
  lemma TranscriptAppend(ms: seq<ChatMessage>, m: ChatMessage)
    ensures Transcript(ms + [m]) == if ms == [] then Line(m) else Transcript(ms) + "\n" + Line(m)
  {
    assert Lines(ms + [m]) == Lines(ms) + [Line(m)];
    if ms != [] {
      JoinAppend(Lines(ms), Line(m), "\n");
    }
  }

  lemma LineHasNoNewline(m: ChatMessage)
    requires '\n' !in m.content
    ensures '\n' !in Line(m)
  {
    var head := RoleName(m.role) + ": ";
    assert forall c :: c in head ==> c != '\n';
    assert Line(m) == head + m.content;
  }

  /** When no message holds a newline, no line does. */
  lemma LinesAvoidNewline(ms: seq<ChatMessage>)
    requires forall i :: 0 <= i < |ms| ==> '\n' !in ms[i].content
    ensures forall l :: l in Lines(ms) ==> '\n' !in l
  {
    var ls := Lines(ms);
    forall i | 0 <= i < |ls| ensures '\n' !in ls[i] {
      LineHasNoNewline(ms[i]);
    }
  }

  /** When no message holds a newline, the transcript's lines are exactly the messages, in order. */
  lemma TranscriptSplitsIntoLines(ms: seq<ChatMessage>)
    requires ms != []
    requires forall i :: 0 <= i < |ms| ==> '\n' !in ms[i].content
    ensures SplitOn(Transcript(ms), "\n") == Lines(ms)
  {
    LinesAvoidNewline(ms);
    assert "\n"[0] == '\n';
    SplitJoin(Lines(ms), "\n");
  }

  /** Both prompts end with a newline and the transcript. */
  lemma PromptsEndWithTranscript(p: Prompts, convo: string)
    ensures var r := PrimaryPrompt(p, convo);
      |r| > |convo| && r[|r| - |convo| - 1..] == "\n" + convo
    ensures var r := ForcePrompt(p, convo);
      if p.forceJson == [] then r == convo else |r| > |convo| && r[|r| - |convo| - 1..] == "\n" + convo
  {
    var head := p.system + [p.schemaExample, "", p.conversationPrefix];
    assert p.system + [p.schemaExample, "", p.conversationPrefix, convo] == head + [convo];
    JoinAppend(head, convo, "\n");
    if p.forceJson != [] {
      JoinAppend(p.forceJson, convo, "\n");
    } else {
      assert p.forceJson + [convo] == [convo];
    }
  }

  /** A pattern that always ends the message capture cannot occur inside the message. */
  lemma MessageAvoids(s: string, pat: string, ci: bool)
    requires Find(s, MESSAGE_MARKER, 0, true).Some? && |pat| > 0
    requires forall k: nat :: MatchesAt(s, pat, k, ci) ==> EndsMessageAt(s, k)
    ensures !Contains(MessageText(s), pat, ci)
  {
    var i := Find(s, MESSAGE_MARKER, 0, true).value;
    var p := SkipSpace(s, i + |MESSAGE_MARKER|);
    var e := MessageEnd(s, p);
    assert MessageText(s) == Trim(s[p..e]);
    TrimmedSliceAvoids(s, p, e, pat, ci);
  }

  /** A stretch of `s` in which no match of `pat` starts keeps none once trimmed. */
  lemma TrimmedSliceAvoids(s: string, p: nat, e: nat, pat: string, ci: bool)
    requires p <= e <= |s| && |pat| > 0
    requires forall k :: p <= k < e ==> !MatchesAt(s, pat, k, ci)
    ensures !Contains(Trim(s[p..e]), pat, ci)
  {
    var m := s[p..e];
    var r := Trim(m);
    var a := SkipSpace(m, 0);
    if Contains(r, pat, ci) {
      var x := Find(r, pat, 0, ci).value;
      assert r == m[a..a + |r|];
      MatchInSlice(m, a, a + |r|, pat, x, ci);
      MatchInSlice(s, p, e, pat, a + x, ci);
    }
  }

  /** Once the marker is present, the message never holds a blank line, the graph marker or a
      fence: the capture stops at the first of them. */
  lemma MessageStopsAtTerminators(s: string)
    requires Find(s, MESSAGE_MARKER, 0, true).Some?
    ensures !Contains(MessageText(s), "\n\n", false)
    ensures !Contains(MessageText(s), GRAPH_MARKER, true)
    ensures !Contains(MessageText(s), FENCE, false)
  {
    MessageAvoids(s, "\n\n", false);
    MessageAvoids(s, GRAPH_MARKER, true);
    MessageAvoids(s, FENCE, false);
  }

  /** From offset `d` on, `s` is the wrapper around `t` and nothing more: the marker, a line
      break, the opening fence, a line break, `t`, a line break and the closing fence. */
  predicate Framed(s: string, d: nat, t: string) {
    |s| == d + |t| + 24
    && s[d..d + 11] == GRAPH_MARKER && s[d + 11] == '\n'
    && s[d + 12..d + 19] == FENCE + "json" && s[d + 19] == '\n'
    && s[d + 20..d + 20 + |t|] == t
    && s[d + 20 + |t|] == '\n' && s[d + 21 + |t|..] == FENCE
  }

  /** Whatever comes first, a wrapped reply is framed right after it. */
  lemma WrapFramed(h: string, t: string)
    ensures Framed(h + Wrap(t), |h|, t)
  {
    var s := h + Wrap(t);
    var d := |h|;
    assert s == h + GRAPH_MARKER + "\n" + (FENCE + "json") + "\n" + t + "\n" + FENCE;
    assert s[d..d + 11] == GRAPH_MARKER;
    assert s[d + 12..d + 19] == FENCE + "json";
    assert s[d + 20..d + 20 + |t|] == t;
  }

  /** The graph marker of the frame is the first one when nothing before it holds one. */
  lemma FramedMarker(s: string, d: nat, t: string)
    requires Framed(s, d, t)
    requires forall k :: 0 <= k < d ==> !MatchesAt(s, GRAPH_MARKER, k, true)
    ensures Find(s, GRAPH_MARKER, 0, true) == Some(d)
  {
    SliceMatches(s, GRAPH_MARKER, d, true);
    FindIs(s, GRAPH_MARKER, 0, d, true);
  }

  /** So is its opening fence, searched from any point up to the marker's end. */
  lemma FramedOpening(s: string, d: nat, t: string, from: nat)
    requires Framed(s, d, t) && from <= d + |GRAPH_MARKER|
    requires forall k :: from <= k < d ==> !MatchesAt(s, FENCE + "json", k, true)
    ensures Find(s, FENCE + "json", from, true) == Some(d + 12)
  {
    var open := FENCE + "json";
    forall k | d <= k < d + 12 ensures !MatchesAt(s, open, k, true) {
      if k < d + 11 {
        assert s[k] == s[d..d + 11][k - d];
      }
      assert !Same(s[k + 0], open[0], true);
    }
    SliceMatches(s, open, d + 12, true);
    FindIs(s, open, from, d + 12, true);
  }

  /** The whitespace after the opening fence runs into the reply's own leading whitespace. */
  lemma FramedSkip(s: string, d: nat, t: string)
    requires Framed(s, d, t) && !AllSpace(t)
    ensures SkipSpace(t, 0) < |t| && SkipSpace(s, d + 19) == d + 20 + SkipSpace(t, 0)
  {
    var a := SkipSpace(t, 0);
    forall j | d + 19 <= j < d + 20 + a ensures IsSpace(s[j]) {
      if j >= d + 20 {
        assert s[j] == s[d + 20..d + 20 + |t|][j - d - 20];
      }
    }
    assert s[d + 20 + a] == s[d + 20..d + 20 + |t|][a];
    SkipSpaceIs(s, d + 19, d + 20 + a);
  }

  /** With no fence in the reply, the closing fence is the frame's own. */
  lemma FramedClosing(s: string, d: nat, t: string, from: nat)
    requires Framed(s, d, t) && !Contains(t, FENCE, false) && d + 20 <= from <= d + 20 + |t|
    ensures Find(s, FENCE, from, false) == Some(d + 21 + |t|)
  {
    var n := |t|;
    NoMatchInside(s, d + 20, d + 20 + n, FENCE, false);
    forall j | from <= j < d + 21 + n && j + 3 > d + 20 + n ensures !MatchesAt(s, FENCE, j, false) {
      assert !Same(s[j + (d + 20 + n - j)], FENCE[d + 20 + n - j], false);
    }
    SliceMatches(s, FENCE, d + 21 + n, false);
    FindIs(s, FENCE, from, d + 21 + n, false);
  }

  /** A fenced range is fixed by where its opening fence, the text after it and its closing
      fence lie. */
  lemma FenceRangeOf(s: string, tag: string, from: nat, o: nat, q: nat, e: nat)
    requires Find(s, FENCE + tag, from, true) == Some(o)
    requires SkipSpace(s, o + |FENCE + tag|) == q
    requires Find(s, FENCE, q, false) == Some(e)
    ensures FenceRange(s, tag, from) == Some((q, e))
  {
    var r := FenceRange(s, tag, from);
    assert r.Some?;
    assert r.value.0 == q;
    assert r.value.1 == e;
  }

  /** The opening fence of a frame is the first one from any point up to the marker's end. */
  lemma FramedOpenings(s: string, d: nat, t: string)
    requires Framed(s, d, t)
    requires forall k :: 0 <= k < d ==> !MatchesAt(s, FENCE + "json", k, true)
    ensures forall from: nat :: from <= d + |GRAPH_MARKER| ==> Find(s, FENCE + "json", from, true) == Some(d + 12)
  {
    forall from: nat | from <= d + |GRAPH_MARKER| ensures Find(s, FENCE + "json", from, true) == Some(d + 12) {
      FramedOpening(s, d, t, from);
    }
  }

  /** One opening fence found from every point of a stretch gives one range from all of them. */
  lemma RangesOf(s: string, n: nat, o: nat, q: nat, e: nat)
    requires forall from: nat :: from <= n ==> Find(s, FENCE + "json", from, true) == Some(o)
    requires o + 7 <= |s| && SkipSpace(s, o + 7) == q
    requires Find(s, FENCE, q, false) == Some(e)
    ensures forall from: nat :: from <= n ==> FenceRange(s, "json", from) == Some((q, e))
  {
    forall from: nat | from <= n ensures FenceRange(s, "json", from) == Some((q, e)) {
      FenceRangeOf(s, "json", from, o, q, e);
    }
  }

  /** Where the reply's block lies in a framed text, searched from any point up to the
      marker's end. */
  lemma FramedRanges(s: string, d: nat, t: string, q: nat, e: nat)
    requires Framed(s, d, t) && !Contains(t, FENCE, false) && !AllSpace(t)
    requires forall k :: 0 <= k < d ==> !MatchesAt(s, FENCE + "json", k, true)
    requires q == d + 20 + SkipSpace(t, 0) && e == d + 21 + |t|
    ensures forall from: nat :: from <= d + |GRAPH_MARKER| ==> FenceRange(s, "json", from) == Some((q, e))
  {
    FramedBlock(s, d, t, q, e);
    FramedOpenings(s, d, t);
    RangesOf(s, d + |GRAPH_MARKER|, d + 12, q, e);
  }

  /** After the opening fence, the block starts past the reply's leading whitespace and ends
      at the frame's closing fence. */
  lemma FramedBlock(s: string, d: nat, t: string, q: nat, e: nat)
    requires Framed(s, d, t) && !Contains(t, FENCE, false) && !AllSpace(t)
    requires q == d + 20 + SkipSpace(t, 0) && e == d + 21 + |t|
    ensures d + 19 <= |s| && SkipSpace(s, d + 19) == q && Find(s, FENCE, q, false) == Some(e)
  {
    FramedSkip(s, d, t);
    FramedClosing(s, d, t, q);
  }

  /** When both tiers' first candidates lie at the same place, both capture the same block. */
  lemma BlocksOfRanges(s: string, i: nat, q: nat, e: nat)
    requires Find(s, GRAPH_MARKER, 0, true) == Some(i)
    requires FenceRange(s, "json", i + |GRAPH_MARKER|) == Some((q, e))
    requires FenceRange(s, "json", 0) == Some((q, e))
    ensures PrimaryBlock(s) == Some(s[q..e]) && FallbackBlock(s) == Some(s[q..e])
  {
    assert FenceBody(s, "json", i + |GRAPH_MARKER|) == Some(s[q..e]);
    assert GraphJsonBlock(s, "json") == Some(s[q..e]);
  }

  /** With the marker at `i` and the same block range from every start up to the marker's end,
      the graph is what `parse` makes of that block. */
  lemma GraphOfFrame(s: string, i: nat, q: nat, e: nat, parse: string -> Option<Json>)
    requires Find(s, GRAPH_MARKER, 0, true) == Some(i) && q <= e <= |s|
    requires forall from: nat :: from <= i + |GRAPH_MARKER| ==> FenceRange(s, "json", from) == Some((q, e))
    ensures SplitMessageAndGraph(s, parse).graph == Accept(Some(s[q..e]), parse)
  {
    BlocksOfRanges(s, i, q, e);
    GraphOfBlocks(s, s[q..e], parse);
  }

  /** When both tiers capture the same block, the second parse attempt cannot succeed where
      the first failed, and the graph is what one attempt makes of the block. */
  lemma GraphOfBlocks(s: string, b: string, parse: string -> Option<Json>)
    requires PrimaryBlock(s) == Some(b) && FallbackBlock(s) == Some(b)
    ensures SplitMessageAndGraph(s, parse).graph == Accept(Some(b), parse)
  {
  }

  /** The block of a wrapped reply is the reply from `a` on, followed by a line break. */
  lemma WrapBlock(h: string, t: string, a: nat)
    requires a <= |t|
    ensures |h| + 21 + |t| <= |h + Wrap(t)| && (h + Wrap(t))[|h| + 20 + a..|h| + 21 + |t|] == t[a..] + "\n"
  {
    var s := h + Wrap(t);
    assert s == h + GRAPH_MARKER + "\n" + (FENCE + "json") + "\n" + t + "\n" + FENCE;
    forall i | 0 <= i < |t| - a ensures s[|h| + 20 + a..|h| + 21 + |t|][i] == (t[a..] + "\n")[i] {
      assert s[|h| + 20 + (a + i)] == t[a + i];
    }
  }

  /** Once the wrapped block is the one both tiers find, the graph is what `parse` makes of
      the reply, whatever `h` before it holds, as long as it holds no marker and no opening
      fence. */
  lemma WrappedGraph(h: string, t: string, parse: string -> Option<Json>)
    requires !Contains(t, FENCE, false) && !AllSpace(t)
    requires forall k :: 0 <= k < |h| ==> !MatchesAt(h + Wrap(t), FENCE + "json", k, true)
    requires forall k :: 0 <= k < |h| ==> !MatchesAt(h + Wrap(t), GRAPH_MARKER, k, true)
    ensures SplitMessageAndGraph(h + Wrap(t), parse).graph == Accept(Some(t[SkipSpace(t, 0)..] + "\n"), parse)
  {
    var s := h + Wrap(t);
    var d, a := |h|, SkipSpace(t, 0);
    var q, e := d + 20 + a, d + 21 + |t|;
    assert s[q..e] == t[a..] + "\n" by {
      WrapBlock(h, t, a);
    }
    WrapFramed(h, t);
    FramedMarker(s, d, t);
    FramedRanges(s, d, t, q, e);
    GraphOfFrame(s, d, q, e, parse);
  }

  /**
   * The forced pass recovers the reply it wraps: a reply with no fence of its own and some
   * non-blank text yields exactly what `parse` makes of that text, leading whitespace
   * dropped and a newline appended, when that has the graph shape, and no graph otherwise.
   */
  lemma ForcedReplyRoundTrip(t: string, parse: string -> Option<Json>)
    requires !Contains(t, FENCE, false) && !AllSpace(t)
    ensures SplitMessageAndGraph(Wrap(t), parse).graph == Accept(Some(t[SkipSpace(t, 0)..] + "\n"), parse)
  {
    assert "" + Wrap(t) == Wrap(t);
    WrappedGraph("", t, parse);
  }

  /**
   * The wrapper's quirk: a forced reply that is itself fenced closes the wrapper's block at
   * once, so both tiers capture the empty text, and the forced pass yields no graph.
   */
  lemma FencedForcedReplyIsLost(t: string, parse: string -> Option<Json>)
    requires |t| >= 3 && t[..3] == FENCE && parse("") == None
    ensures SplitMessageAndGraph(Wrap(t), parse).graph == None
  {
    assert "" + Wrap(t) == Wrap(t);
    FencedGraph("", t, parse);
  }

  /** Wherever the wrapper lands, a fenced reply inside it leaves both tiers the empty text. */
  lemma FencedGraph(h: string, t: string, parse: string -> Option<Json>)
    requires |t| >= 3 && t[..3] == FENCE
    requires forall k :: 0 <= k < |h| ==> !MatchesAt(h + Wrap(t), FENCE + "json", k, true)
    requires forall k :: 0 <= k < |h| ==> !MatchesAt(h + Wrap(t), GRAPH_MARKER, k, true)
    ensures SplitMessageAndGraph(h + Wrap(t), parse).graph == Accept(Some([]), parse)
  {
    var s := h + Wrap(t);
    var d := |h|;
    assert s[d + 20..d + 20] == [];
    WrapFramed(h, t);
    FramedMarker(s, d, t);
    FencedRanges(s, d, t, d + 20, d + 20);
    GraphOfFrame(s, d, d + 20, d + 20, parse);
  }

  /** In a frame around a fenced reply, the text after the opening fence starts with a
      closing fence. */
  lemma FencedClosing(s: string, d: nat, t: string)
    requires Framed(s, d, t) && |t| >= 3 && t[..3] == FENCE
    ensures d + 19 <= |s| && SkipSpace(s, d + 19) == d + 20 && Find(s, FENCE, d + 20, false) == Some(d + 20)
  {
    assert s[d + 20..d + 23] == s[d + 20..d + 20 + |t|][..3];
    SkipSpaceIs(s, d + 19, d + 20);
    SliceMatches(s, FENCE, d + 20, false);
    FindIs(s, FENCE, d + 20, d + 20, false);
  }

  /** So the block opened by the frame closes where the reply begins, from every starting
      point up to the marker's end. */
  lemma FencedRanges(s: string, d: nat, t: string, q: nat, e: nat)
    requires Framed(s, d, t) && |t| >= 3 && t[..3] == FENCE
    requires forall k :: 0 <= k < d ==> !MatchesAt(s, FENCE + "json", k, true)
    requires q == d + 20 && e == d + 20
    ensures forall from: nat :: from <= d + |GRAPH_MARKER| ==> FenceRange(s, "json", from) == Some((q, e))
  {
    FencedClosing(s, d, t);
    FramedOpenings(s, d, t);
    RangesOf(s, d + |GRAPH_MARKER|, d + 12, q, e);
  }

  /** The text of a reply that puts `m` after the message marker, then a blank line and `w`. */
  function Reply(m: string, w: string): string {
    "MESSAGE: " + m + "\n\n" + w
  }

  lemma ReplyLayout(m: string, w: string)
    ensures var s := Reply(m, w);
      |s| == 11 + |m| + |w| && s[..8] == MESSAGE_MARKER && s[8] == ' ' && s[9..9 + |m|] == m
      && s[9 + |m|] == '\n' && s[10 + |m|] == '\n'
  {
  }

  /** A pattern absent from `m` that cannot match a line break never ends the capture early. */
  lemma ReplyBodyNoMatch(m: string, w: string, pat: string, ci: bool)
    requires |pat| > 0 && !Contains(m, pat, ci)
    requires forall j :: 0 <= j < |pat| ==> !Same('\n', pat[j], ci)
    ensures forall k :: 9 <= k < 9 + |m| ==> !MatchesAt(Reply(m, w), pat, k, ci)
  {
    var s := Reply(m, w);
    ReplyLayout(m, w);
    NoMatchInside(s, 9, 9 + |m|, pat, ci);
    forall k | 9 <= k < 9 + |m| && k + |pat| > 9 + |m| ensures !MatchesAt(s, pat, k, ci) {
      assert !Same(s[k + (9 + |m| - k)], pat[9 + |m| - k], ci);
    }
  }

  lemma ReplyMessageStart(m: string, w: string)
    requires m != [] && IsTrimmed(m)
    ensures Find(Reply(m, w), MESSAGE_MARKER, 0, true) == Some(0)
    ensures SkipSpace(Reply(m, w), |MESSAGE_MARKER|) == 9
  {
    var s := Reply(m, w);
    ReplyLayout(m, w);
    SliceMatches(s, MESSAGE_MARKER, 0, true);
    FindIs(s, MESSAGE_MARKER, 0, 0, true);
    assert s[9] == m[0];
    SkipSpaceIs(s, 8, 9);
  }

  /** Pins `MessageEnd` down: a stopping point at `e` and none between `q` and `e`. */
  lemma MessageEndIs(s: string, q: nat, e: nat)
    requires q <= e <= |s| && EndsMessageAt(s, e)
    requires forall k :: q <= k < e ==> !EndsMessageAt(s, k)
    ensures MessageEnd(s, q) == e
  {
  }

  lemma ReplyMessageEnd(m: string, w: string)
    requires m != [] && IsTrimmed(m)
    requires !Contains(m, "\n\n", false) && !Contains(m, GRAPH_MARKER, true) && !Contains(m, FENCE, false)
    ensures 9 + |m| <= |Reply(m, w)| && MessageEnd(Reply(m, w), 9) == 9 + |m|
  {
    var s := Reply(m, w);
    var n := |m|;
    ReplyLayout(m, w);
    ReplyBodyNoMatch(m, w, GRAPH_MARKER, true);
    ReplyBodyNoMatch(m, w, FENCE, false);
    NoMatchInside(s, 9, 9 + n, "\n\n", false);
    assert s[8 + n] == m[n - 1];
    assert !Same(s[8 + n + 0], "\n\n"[0], false);
    assert s[9 + n..11 + n] == "\n\n";
    SliceMatches(s, "\n\n", 9 + n, false);
    forall k | 9 <= k < 9 + n ensures !EndsMessageAt(s, k) {
      if k + 2 > 9 + n {
        assert k == 8 + n;
      }
    }
    MessageEndIs(s, 9, 9 + n);
  }

  /**
   * The capture stops at the first blank line: a reply whose message `m` is trimmed, non-empty
   * and holds none of the terminators yields exactly `m`, whatever follows the blank line.
   */
  lemma MessageOfReply(m: string, w: string)
    requires m != [] && IsTrimmed(m)
    requires !Contains(m, "\n\n", false) && !Contains(m, GRAPH_MARKER, true) && !Contains(m, FENCE, false)
    ensures MessageText(Reply(m, w)) == m
  {
    ReplyLayout(m, w);
    ReplyMessageStart(m, w);
    ReplyMessageEnd(m, w);
  }

  /** A case-insensitive opening fence is in particular an exact fence: the backtick has no
      other case. */
  lemma OpenFenceNeedsFence(s: string, k: nat)
    ensures MatchesAt(s, FENCE + "json", k, true) ==> MatchesAt(s, FENCE, k, false)
  {
    if MatchesAt(s, FENCE + "json", k, true) {
      forall j | 0 <= j < 3 ensures s[k + j] == FENCE[j] {
        assert Same(s[k + j], (FENCE + "json")[j], true);
      }
    }
  }

  /** Nothing in front of the text after a reply's blank line starts a marker or an opening
      fence, when the message holds neither. */
  lemma ReplyHeadNoMatch(m: string, w: string)
    requires !Contains(m, GRAPH_MARKER, true) && !Contains(m, FENCE, false)
    ensures forall k :: 0 <= k < 11 + |m| ==> !MatchesAt(Reply(m, w), GRAPH_MARKER, k, true)
    ensures forall k :: 0 <= k < 11 + |m| ==> !MatchesAt(Reply(m, w), FENCE + "json", k, true)
  {
    var s := Reply(m, w);
    ReplyLayout(m, w);
    ReplyBodyNoMatch(m, w, GRAPH_MARKER, true);
    ReplyBodyNoMatch(m, w, FENCE, false);
    forall k | 0 <= k < 11 + |m|
      ensures !MatchesAt(s, GRAPH_MARKER, k, true) && !MatchesAt(s, FENCE + "json", k, true)
    {
      OpenFenceNeedsFence(s, k);
      if k < 8 {
        assert s[k] == s[..8][k];
        if k == 5 {
          assert s[6] == s[..8][6];
          assert !Same(s[k + 1], GRAPH_MARKER[1], true);
        } else {
          assert !Same(s[k + 0], GRAPH_MARKER[0], true);
        }
        assert !Same(s[k + 0], FENCE[0], false);
      } else if k == 8 || k >= 9 + |m| {
        assert !Same(s[k + 0], GRAPH_MARKER[0], true);
        assert !Same(s[k + 0], FENCE[0], false);
      }
    }
  }

  /**
   * A reply that carries a message and then a graph block in the wrapper's layout yields
   * both: the message up to the blank line, and what `parse` makes of the block.
   */
  lemma ReplyWithGraph(m: string, j: string, parse: string -> Option<Json>)
    requires m != [] && IsTrimmed(m)
    requires !Contains(m, "\n\n", false) && !Contains(m, GRAPH_MARKER, true) && !Contains(m, FENCE, false)
    requires !Contains(j, FENCE, false) && !AllSpace(j)
    ensures SplitMessageAndGraph(Reply(m, Wrap(j)), parse)
      == Parsed(m, Accept(Some(j[SkipSpace(j, 0)..] + "\n"), parse))
  {
    MessageOfReply(m, Wrap(j));
    ReplyHeadNoMatch(m, Wrap(j));
    WrappedGraph("MESSAGE: " + m + "\n\n", j, parse);
  }
}
