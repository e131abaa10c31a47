/**
 * The chat panel: the new-pipeline detector, the `key: value` and `key: a, b, c` capture
 * that fills the slot store from what the user typed, the routing of a reply's graph,
 * and the turn handling of `send` and of the seeded first turn.
 *
 * The two capture regular expressions, `(?:key)\s*[:=]\s*([^\n,]+)` and
 * `(?:key)\s*[:=]\s*([^\n]+)` with the `i` flag, are written out as search functions
 * that return what a backtracking matcher returns: the leftmost start at which the key
 * is followed by a separator and at least one captured character. When the greedy
 * `\s*` after the separator ends on a stop character (or the end), the matcher gives
 * whitespace back one character at a time; the capture then starts at the last
 * whitespace character that is not a stop.
 */
module Chat {
  import opened Options
  import opened Text
  import opened Json
  import opened Slots
  import opened Flow
  import opened Protocol
  import opened Client

  /** The phrases that make a message a new-pipeline request. */
  const NEW_PIPELINE_PHRASES: seq<string> := ["new pipeline", "create pipeline", "start over", "reset flow"]

  /** The lower-cased message contains one of the phrases. */
  predicate IsNewPipelineRequest(message: string) {
    var lower := Lower(message);
    Contains(lower, "new pipeline", false) || Contains(lower, "create pipeline", false)
    || Contains(lower, "start over", false) || Contains(lower, "reset flow", false)
  }

  const START_MESSAGE := "Starting a new pipeline. What would you like to connect?"
  const APOLOGY := "Sorry, I encountered an error. Please try again."

  /** The phrase in a graph-less reply that restarts the flow. */
  const WHAT_TO_CONNECT := "what would you like to connect"

  /** A character the capture group cannot take: a line break, and also a comma when
      `commas` (the single-value form). */
  predicate Stop(c: char, commas: bool) {
    c == '\n' || (commas && c == ',')
  }

  /** The end of the greedy run of non-stop characters starting at `k`. */
  function KeptEnd(s: string, k: nat, commas: bool): (r: nat)
    requires k <= |s|
    decreases |s| - k
    ensures k <= r <= |s|
    ensures forall j :: k <= j < r ==> !Stop(s[j], commas)
    ensures r < |s| ==> Stop(s[r], commas)
  {
    if k == |s| || Stop(s[k], commas) then k else KeptEnd(s, k + 1, commas)
  }

  /** The last index in `[lo, hi)` holding a non-stop character: where the capture starts
      once `\s*` has given back whitespace. */
  function LastKept(s: string, lo: nat, hi: nat, commas: bool): (r: Option<nat>)
    requires lo <= hi <= |s|
    decreases hi - lo
    ensures r.Some? ==>
      lo <= r.value < hi && !Stop(s[r.value], commas) && forall j :: r.value < j < hi ==> Stop(s[j], commas)
    ensures r.None? ==> forall j :: lo <= j < hi ==> Stop(s[j], commas)
  {
    if lo == hi then None
    else if !Stop(s[hi - 1], commas) then Some(hi - 1)
    else LastKept(s, lo, hi - 1, commas)
  }

  /** A match: where the key starts and the bounds of the captured group. */
  datatype Capture = Capture(at: nat, lo: nat, hi: nat)

  /** `key\s*[:=]` read directly: the key (in any case) at `i`, then only whitespace up to the
      separator `:` or `=` at `w`. */
  predicate SeparatorAfter(s: string, key: string, i: nat, w: nat) {
    MatchesAt(s, key, i, true) && i + |key| <= w < |s| && (s[w] == ':' || s[w] == '=')
    && forall j :: i + |key| <= j < w ==> IsSpace(s[j])
  }

  /** `\s*` after the separator at `w` can give way to the group at `lo`: only whitespace lies
      between them and the group may capture the character at `lo`. */
  predicate GroupCanStart(s: string, w: nat, lo: nat, commas: bool) {
    w < lo < |s| && !Stop(s[lo], commas) && forall j :: w < j < lo ==> IsSpace(s[j])
  }

  /** The whole pattern, with the separator at `w` and the group starting at `lo`. */
  predicate PatternAt(s: string, key: string, i: nat, w: nat, lo: nat, commas: bool) {
    SeparatorAfter(s, key, i, w) && GroupCanStart(s, w, lo, commas)
  }

  /** Where the separator after a key at `i` lies: there is at most one place it can. */
  function SeparatorAt(s: string, key: string, i: nat): (r: Option<nat>)
    ensures r.Some? ==> SeparatorAfter(s, key, i, r.value)
    ensures forall w: nat :: SeparatorAfter(s, key, i, w) ==> r == Some(w)
  {
    if !MatchesAt(s, key, i, true) then None
    else
      var w := SkipSpace(s, i + |key|);
      if w == |s| || (s[w] != ':' && s[w] != '=') then None else Some(w)
  }

  /** Where the group starts after the separator at `w`: the greedy `\s*` takes all the
      whitespace it can, then gives back characters until the group can start. */
  function GroupStart(s: string, w: nat, commas: bool): (r: Option<nat>)
    requires w < |s|
    ensures r.Some? ==> GroupCanStart(s, w, r.value, commas)
    ensures forall lo: nat :: GroupCanStart(s, w, lo, commas) ==> r.Some? && lo <= r.value
  {
    var v := SkipSpace(s, w + 1);
    if v < |s| && !Stop(s[v], commas) then Some(v) else LastKept(s, w + 1, v, commas)
  }

  /** The match starting at `i`, if there is one: it exists exactly when the pattern matches
      there; the group starts at the last place the pattern allows and runs to the next stop. */
  function CaptureAt(s: string, key: string, i: nat, commas: bool): (r: Option<Capture>)
    ensures r.Some? ==> r.value.at == i && MatchesAt(s, key, i, true)
    ensures r.Some? ==> i + |key| < r.value.lo < r.value.hi <= |s|
    ensures r.Some? ==> exists w: nat :: PatternAt(s, key, i, w, r.value.lo, commas)
    ensures (exists w: nat, lo: nat :: PatternAt(s, key, i, w, lo, commas)) ==> r.Some?
    ensures r.Some? ==> forall w: nat, lo: nat :: PatternAt(s, key, i, w, lo, commas) ==> lo <= r.value.lo
    ensures r.Some? ==> forall j :: r.value.lo <= j < r.value.hi ==> !Stop(s[j], commas)
    ensures r.Some? && r.value.hi < |s| ==> Stop(s[r.value.hi], commas)
  {
    match SeparatorAt(s, key, i)
    case None => None
    case Some(w) =>
      match GroupStart(s, w, commas)
      case None => None
      case Some(p) =>
        assert PatternAt(s, key, i, w, p, commas);
        Some(Capture(i, p, KeptEnd(s, p, commas)))
  }

  /** `text.match(r)`: the leftmost match at or after `from`. */
  function FirstCapture(s: string, key: string, from: nat, commas: bool): (r: Option<Capture>)
    decreases |s| + 1 - from
    ensures r.Some? ==> from <= r.value.at && CaptureAt(s, key, r.value.at, commas) == r
    ensures forall j :: from <= j && (r.None? || j < r.value.at) ==> CaptureAt(s, key, j, commas).None?
  {
    if from > |s| then
      assert forall j :: from <= j ==> !MatchesAt(s, key, j, true);
      None
    else
      match CaptureAt(s, key, from, commas)
      case Some(c) => Some(c)
      case None => FirstCapture(s, key, from + 1, commas)
  }

  /** `kv(key, text)`: the captured value, trimmed. */
  function Kv(key: string, text: string): (r: Option<string>)
    ensures r.Some? ==> IsTrimmed(r.value) && '\n' !in r.value && ',' !in r.value
    ensures r.Some? <==> exists i: nat, w: nat, lo: nat :: PatternAt(text, key, i, w, lo, true)
  {
    FirstCaptureFound(text, key, 0, true);
    match FirstCapture(text, key, 0, true)
    case None => None
    case Some(c) =>
      NoStopInRun(text, c.lo, c.hi, true);
      Some(Trim(text[c.lo..c.hi]))
  }

  /** `array(key, text)`: the rest of the line split on runs of commas and whitespace, with
      empty tokens dropped. There is a list exactly when the pattern matches; its tokens hold
      every character of the captured line that is neither a comma nor whitespace, in order. */
  function ArrayOf(key: string, text: string): (r: Option<seq<string>>)
    ensures r.Some? <==> exists i: nat, w: nat, lo: nat :: PatternAt(text, key, i, w, lo, false)
    ensures r.Some? ==> forall t :: t in r.value ==> IsToken(t)
    ensures r.Some? ==> FirstCapture(text, key, 0, false).Some?
    ensures r.Some? ==> var c := FirstCapture(text, key, 0, false).value;
      Concat(r.value) == WordChars(text[c.lo..c.hi])
  {
    FirstCaptureFound(text, key, 0, false);
    match FirstCapture(text, key, 0, false)
    case None => None
    case Some(c) =>
      TokensKeepWordChars(text[c.lo..c.hi]);
      Some(Tokens(text[c.lo..c.hi]))
  }

  /** The single-value keys each role's loop tries, in the order it tries them. */
  const SHOPIFY_KEYS: seq<string> := ["storeUrl", "clientId", "clientSecret", "refreshToken", "entity", "fields"]
  const SNOWFLAKE_KEYS: seq<string> := ["account", "username", "password", "database", "schema", "table", "loadMode", "key"]

  /** `kv` found a value and the value is truthy. */
  predicate Stored(v: Option<string>) {
    v.Some? && v.value != ""
  }

  /** The record a role's loop builds, key by key. */
  function Extracted(keys: seq<string>, text: string): Record
    decreases |keys|
  {
    if keys == [] then map[]
    else
      var k := keys[|keys| - 1];
      var earlier := Extracted(keys[..|keys| - 1], text);
      if Stored(Kv(k, text)) then earlier[k := JStr(Kv(k, text).value)] else earlier
  }

  /** It holds exactly the listed keys whose value was found and is not empty, each with that
      value. */
  lemma {:induction false} ExtractedHoldsFoundValues(keys: seq<string>, text: string)
    decreases |keys|
    ensures forall k :: k in Extracted(keys, text) ==>
      k in keys && Stored(Kv(k, text)) && Extracted(keys, text)[k] == JStr(Kv(k, text).value)
    ensures forall k :: k in keys && Stored(Kv(k, text)) ==> k in Extracted(keys, text)
  {
    if keys != [] {
      var init := keys[..|keys| - 1];
      ExtractedHoldsFoundValues(init, text);
      assert keys == init + [keys[|keys| - 1]];
    }
  }

  /** The patch `captureSlotsFromText` hands to `merge`: both roles, the list form of
      `fields` over its single-value form. */
  function CapturedPatch(text: string): Patch {
    var shopify := Extracted(SHOPIFY_KEYS, text);
    var withFields := match ArrayOf("fields", text)
      case Some(fs) => shopify["fields" := Strings(fs)]
      case None => shopify;
    Patch(Some(withFields), Some(Extracted(SNOWFLAKE_KEYS, text)))
  }

  /** One role's `forEach` loop. */
  method ExtractRole(keys: seq<string>, text: string) returns (data: Record)
    ensures data == Extracted(keys, text)
  {
    data := map[];
    var i := 0;
    while i < |keys|
      invariant 0 <= i <= |keys|
      invariant data == Extracted(keys[..i], text)
    {
      ExtractedStep(keys, i, text);
      var value := Kv(keys[i], text);
      if Stored(value) {
        data := data[keys[i] := JStr(value.value)];
      }
      i := i + 1;
    }
    assert keys[..i] == keys;
  }

  /** One more key adds its value when it was found and is not empty. */
  lemma ExtractedStep(keys: seq<string>, i: nat, text: string)
    requires i < |keys|
    ensures Extracted(keys[..i + 1], text) ==
      if Stored(Kv(keys[i], text)) then Extracted(keys[..i], text)[keys[i] := JStr(Kv(keys[i], text).value)]
      else Extracted(keys[..i], text)
  {
    assert keys[..i + 1][..i] == keys[..i];
  }

  /** What a reply asks of the flow: forward the graph to the page, restart the flow, or
      nothing. */
  datatype Guidance = Forward(graph: GraphPayload, text: string) | Restart | Ignore

  /** `processAIGuidance`'s branching. */
  function GuidanceFor(graph: Option<GraphPayload>, text: string): Guidance {
    if graph.Some? then Forward(graph.value, text)
    else if Contains(Lower(text), WHAT_TO_CONNECT, false) then Restart
    else Ignore
  }

  /** The message a finished call appends. */
  function ReplyMessage(r: AskResult): ChatMessage {
    match r
    case Answer(t, _) => ChatMessage(Assistant, t)
    case Failure => ChatMessage(Assistant, APOLOGY)
  }

  /** The flow the page shows after a call's outcome was routed. */
  function FlowAfter(r: AskResult, flow: FlowState): FlowState {
    match r
    case Answer(t, g) => if GuidanceFor(g, t).Restart? then INITIAL else flow
    case Failure => flow
  }

  /** The graph and text a call's outcome forwards to the page. */
  function Forwarded(r: AskResult): Option<(GraphPayload, string)> {
    match r
    case Answer(t, g) => if g.Some? then Some((g.value, t)) else None
    case Failure => None
  }

  /** The chat panel's state, with the two stores it writes. */
  class ChatSession {
    var messages: seq<ChatMessage>
    var input: string
    var loading: bool
    const flow: FlowStore
    const slots: SlotStore

    constructor (flow: FlowStore, slots: SlotStore)
      ensures messages == [] && input == "" && !loading
      ensures this.flow == flow && this.slots == slots
    {
      messages, input, loading := [], "", false;
      this.flow, this.slots := flow, slots;
    }

    /** Resets the flow and replaces the transcript with the start message. */
    method HandleNewPipeline()
      modifies this, flow
      ensures messages == [ChatMessage(Assistant, START_MESSAGE)]
      ensures flow.State() == INITIAL
      ensures input == old(input) && loading == old(loading)
    {
      flow.ResetFlow();
      messages := [ChatMessage(Assistant, START_MESSAGE)];
    }

    /** Forwards a graph when there is one, restarts the flow on a graph-less reply asking what
        to connect, and otherwise does nothing. */
    method ProcessAIGuidance(graph: Option<GraphPayload>, text: string)
      returns (forwarded: Option<(GraphPayload, string)>)
      modifies flow
      ensures forwarded == Forwarded(Answer(text, graph))
      ensures flow.State() == FlowAfter(Answer(text, graph), old(flow.State()))
    {
      forwarded := None;
      if graph.Some? {
        forwarded := Some((graph.value, text));
      } else if Contains(Lower(text), WHAT_TO_CONNECT, false) {
        flow.ResetFlow();
      }
    }

    /** Reads the slot fields out of the text and merges both roles into the store. */
    method CaptureSlotsFromText(text: string)
      modifies slots
      ensures slots.slots == DeepMerge(old(slots.slots), CapturedPatch(text))
    {
      var shopifyData := ExtractRole(SHOPIFY_KEYS, text);
      var snowflakeData := ExtractRole(SNOWFLAKE_KEYS, text);
      var fields := ArrayOf("fields", text);
      if fields.Some? {
        shopifyData := shopifyData["fields" := Strings(fields.value)];
      }
      slots.Merge(Patch(Some(shopifyData), Some(snowflakeData)));
    }

    /** One call and its routing, shared by both ways a turn starts. */
    method Exchange(next: seq<ChatMessage>, ask: seq<ChatMessage> -> AskResult)
      returns (forwarded: Option<(GraphPayload, string)>)
      modifies this, flow
      ensures messages == next + [ReplyMessage(ask(next))]
      ensures flow.State() == FlowAfter(ask(next), old(flow.State()))
      ensures forwarded == Forwarded(ask(next))
      ensures input == old(input) && !loading
    {
      loading := true;
      var result := ask(next);
      forwarded := None;
      match result {
        case Answer(text, graph) =>
          messages := next + [ChatMessage(Assistant, text)];
          forwarded := ProcessAIGuidance(graph, text);
        case Failure =>
          messages := next + [ChatMessage(Assistant, APOLOGY)];
      }
      loading := false;
    }

    /** The send button: ignored on blank input or while a call is running; a new-pipeline
        request restarts without a call; anything else captures slots, then calls. */
    method Send(ask: seq<ChatMessage> -> AskResult) returns (forwarded: Option<(GraphPayload, string)>)
      modifies this, flow, slots
      ensures Trim(old(input)) == "" || old(loading) ==>
        messages == old(messages) && input == old(input) && loading == old(loading)
        && flow.State() == old(flow.State()) && slots.slots == old(slots.slots) && forwarded.None?
      ensures !(Trim(old(input)) == "" || old(loading)) ==> input == "" && !loading
      ensures !(Trim(old(input)) == "" || old(loading)) && IsNewPipelineRequest(Trim(old(input))) ==>
        messages == [ChatMessage(Assistant, START_MESSAGE)] && flow.State() == INITIAL
        && slots.slots == old(slots.slots) && forwarded.None?
      ensures !(Trim(old(input)) == "" || old(loading)) && !IsNewPipelineRequest(Trim(old(input))) ==>
        var next := old(messages) + [ChatMessage(User, Trim(old(input)))];
        messages == next + [ReplyMessage(ask(next))]
        && flow.State() == FlowAfter(ask(next), old(flow.State()))
        && slots.slots == DeepMerge(old(slots.slots), CapturedPatch(Trim(old(input))))
        && forwarded == Forwarded(ask(next))
    {
      forwarded := None;
      if Trim(input) == "" || loading {
        return;
      }
      var userMsg := Trim(input);
      var next := messages + [ChatMessage(User, userMsg)];
      messages := next;
      input := "";
      if IsNewPipelineRequest(userMsg) {
        HandleNewPipeline();
        return;
      }
      CaptureSlotsFromText(userMsg);
      forwarded := Exchange(next, ask);
    }

    /** The seeded first turn: the transcript becomes the one trimmed prompt, with no guard
        and no new-pipeline check; slots are captured, then the call is made. */
    method TriggerAICall(prompt: string, ask: seq<ChatMessage> -> AskResult)
      returns (forwarded: Option<(GraphPayload, string)>)
      modifies this, flow, slots
      ensures var next := [ChatMessage(User, Trim(prompt))];
        messages == next + [ReplyMessage(ask(next))]
        && flow.State() == FlowAfter(ask(next), old(flow.State()))
        && slots.slots == DeepMerge(old(slots.slots), CapturedPatch(Trim(prompt)))
        && forwarded == Forwarded(ask(next))
      ensures input == "" && !loading
    {
      input := prompt;
      var userMsg := Trim(prompt);
      var next := [ChatMessage(User, userMsg)];
      messages := next;
      CaptureSlotsFromText(userMsg);
      forwarded := Exchange(next, ask);
      input := "";
    }
  }

  /** Lower-casing leaves a text without upper-case ASCII letters as it is. */
  lemma LowerFixes(p: string)
    requires forall i :: 0 <= i < |p| ==> !('A' <= p[i] <= 'Z')
    ensures Lower(p) == p
  {
  }

  /** The detector is a case-insensitive search for any of the four phrases. */
  lemma NewPipelineRequestIff(message: string)
    ensures IsNewPipelineRequest(message) <==>
      exists p :: p in NEW_PIPELINE_PHRASES && Contains(message, p, true)
  {
    forall p | p in NEW_PIPELINE_PHRASES
      ensures Contains(Lower(message), p, false) <==> Contains(message, p, true)
    {
      LowerFixes(p);
      LowerContainsIffCaseless(message, p);
    }
  }

  /** A graph-less reply restarts the flow exactly when it asks, in any case, what to connect;
      a reply with a graph is always forwarded. */
  lemma GuidanceIff(graph: Option<GraphPayload>, text: string)
    ensures GuidanceFor(graph, text).Forward? <==> graph.Some?
    ensures GuidanceFor(graph, text).Restart? <==> graph.None? && Contains(text, WHAT_TO_CONNECT, true)
  {
    LowerFixes(WHAT_TO_CONNECT);
    LowerContainsIffCaseless(text, WHAT_TO_CONNECT);
  }

  /** The run of a key up to the next stop. */
  lemma KeptEndIs(s: string, k: nat, r: nat, commas: bool)
    requires k <= r <= |s|
    requires forall j :: k <= j < r ==> !Stop(s[j], commas)
    requires r < |s| ==> Stop(s[r], commas)
    ensures KeptEnd(s, k, commas) == r
    decreases r - k
  {
    if k < r {
      KeptEndIs(s, k + 1, r, commas);
    }
  }

  /** A line of a turn that sets `key`: the key after the text `pre`, the whitespace `before`,
      the separator `op`, the whitespace `after`, the value and whatever follows it. */
  datatype Setting = Setting(
    pre: string, key: string, before: string, op: char, after: string, value: string, rest: string)
  {
    function Written(): string {
      pre + (key + (before + ([op] + (after + (value + rest)))))
    }

    /** Where the separator lies in the written text. */
    function Sep(): nat {
      |pre| + |key| + |before|
    }

    /** Where the value starts and ends in the written text. */
    function Lo(): nat {
      Sep() + 1 + |after|
    }

    function Hi(): nat {
      Lo() + |value|
    }
  }

  /** The pattern can read the setting back as written: the separator is `:` or `=`, only
      whitespace surrounds it, the value starts with a character that is not whitespace and
      runs up to a stop or the end, and no match of the key starts in `pre` (otherwise the
      pattern would match there first, as the key `key` does inside `monkey: x`). */
  predicate ReadsBack(t: Setting, commas: bool) {
    (t.op == ':' || t.op == '=') && AllSpace(t.before) && AllSpace(t.after)
    && t.value != [] && !IsSpace(t.value[0]) && (forall c :: c in t.value ==> !Stop(c, commas))
    && (t.rest == [] || Stop(t.rest[0], commas))
    && forall k :: 0 <= k < |t.pre| ==> !MatchesAt(t.Written(), t.key, k, true)
  }

  lemma SettingKey(t: Setting)
    ensures MatchesAt(t.Written(), t.key, |t.pre|, true)
  {
    var s := t.Written();
    assert s[|t.pre|..|t.pre| + |t.key|] == t.key;
    SliceMatches(s, t.key, |t.pre|, true);
  }

  lemma SettingSeparator(t: Setting, commas: bool)
    requires ReadsBack(t, commas)
    ensures SeparatorAfter(t.Written(), t.key, |t.pre|, t.Sep())
  {
    SettingKey(t);
    var s := t.Written();
    var b := |t.pre| + |t.key|;
    forall j | b <= j < t.Sep() ensures IsSpace(s[j]) {
      assert s[j] == t.before[j - b];
    }
    assert s[t.Sep()] == t.op;
  }

  lemma SettingGroup(t: Setting, commas: bool)
    requires ReadsBack(t, commas)
    ensures GroupCanStart(t.Written(), t.Sep(), t.Lo(), commas)
  {
    var s := t.Written();
    forall j | t.Sep() < j < t.Lo() ensures IsSpace(s[j]) {
      assert s[j] == t.after[j - t.Sep() - 1];
    }
    assert s[t.Lo()] == t.value[0];
    assert t.value[0] in t.value;
  }

  lemma SettingValue(t: Setting, commas: bool)
    requires ReadsBack(t, commas)
    ensures var s := t.Written(); t.Hi() <= |s| && s[t.Lo()..t.Hi()] == t.value
    ensures var s := t.Written(); forall j :: t.Lo() <= j < t.Hi() ==> !Stop(s[j], commas)
    ensures var s := t.Written(); t.Hi() < |s| ==> Stop(s[t.Hi()], commas)
  {
    var s := t.Written();
    forall j | t.Lo() <= j < t.Hi() ensures s[j] == t.value[j - t.Lo()] && !Stop(s[j], commas) {
      assert t.value[j - t.Lo()] in t.value;
    }
    assert s[t.Lo()..t.Hi()] == t.value;
    if t.Hi() < |s| {
      assert s[t.Hi()] == t.rest[0];
    }
  }

  /** The leftmost match of the pattern in a written setting is the setting itself: the key
      where it was written and the group over exactly the value. */
  lemma SettingCapture(t: Setting, commas: bool)
    requires ReadsBack(t, commas)
    ensures FirstCapture(t.Written(), t.key, 0, commas) == Some(Capture(|t.pre|, t.Lo(), t.Hi()))
  {
    SettingSeparator(t, commas);
    SettingGroup(t, commas);
    SettingValue(t, commas);
    CaptureIs(t.Written(), t.key, |t.pre|, t.Sep(), t.Lo(), t.Hi(), commas);
  }

  /** The leftmost match is pinned down by the first place the pattern matches, a group start
      that is not whitespace (so the greedy `\s*` stops there), and the next stop. */
  lemma CaptureIs(s: string, key: string, i: nat, w: nat, lo: nat, hi: nat, commas: bool)
    requires PatternAt(s, key, i, w, lo, commas) && !IsSpace(s[lo])
    requires lo <= hi <= |s| && forall j :: lo <= j < hi ==> !Stop(s[j], commas)
    requires hi < |s| ==> Stop(s[hi], commas)
    requires forall j :: 0 <= j < i ==> !MatchesAt(s, key, j, true)
    ensures FirstCapture(s, key, 0, commas) == Some(Capture(i, lo, hi))
  {
    CaptureAtIs(s, key, i, w, lo, hi, commas);
    assert forall j :: 0 <= j < i ==> CaptureAt(s, key, j, commas).None?;
    FirstCaptureIs(s, key, i, Capture(i, lo, hi), commas);
  }

  /** A run of non-stop characters holds no stop character. */
  lemma NoStopInRun(s: string, lo: nat, hi: nat, commas: bool)
    requires lo <= hi <= |s| && forall j :: lo <= j < hi ==> !Stop(s[j], commas)
    ensures forall c :: c in s[lo..hi] ==> !Stop(c, commas)
  {
    forall c | c in s[lo..hi] ensures !Stop(c, commas) {
      var j :| 0 <= j < hi - lo && s[lo..hi][j] == c;
      assert s[lo + j] == c;
    }
  }

  /** The capture at a key whose pattern starts its group at `lo` and stops at `hi`. */
  lemma CaptureAtIs(s: string, key: string, i: nat, w: nat, lo: nat, hi: nat, commas: bool)
    requires PatternAt(s, key, i, w, lo, commas) && !IsSpace(s[lo])
    requires lo <= hi <= |s| && forall j :: lo <= j < hi ==> !Stop(s[j], commas)
    requires hi < |s| ==> Stop(s[hi], commas)
    ensures CaptureAt(s, key, i, commas) == Some(Capture(i, lo, hi))
  {
    var r := CaptureAt(s, key, i, commas).value;
    var w': nat :| PatternAt(s, key, i, w', r.lo, commas);
    assert SeparatorAt(s, key, i) == Some(w') == Some(w);
    assert r.lo == lo;
    assert r.hi == hi;
  }

  /** The first capture is the one at the first key position that has one. */
  lemma FirstCaptureIs(s: string, key: string, i: nat, c: Capture, commas: bool)
    requires CaptureAt(s, key, i, commas) == Some(c)
    requires forall j :: 0 <= j < i ==> CaptureAt(s, key, j, commas).None?
    ensures FirstCapture(s, key, 0, commas) == Some(c)
  {
  }

  /** There is a capture exactly when the pattern matches at or after `from`. */
  lemma FirstCaptureFound(s: string, key: string, from: nat, commas: bool)
    ensures FirstCapture(s, key, from, commas).Some?
      <==> exists i: nat, w: nat, lo: nat :: from <= i && PatternAt(s, key, i, w, lo, commas)
  {
    var r := FirstCapture(s, key, from, commas);
    if r.Some? {
      var c := r.value;
      var w: nat :| PatternAt(s, key, c.at, w, c.lo, commas);
    } else {
      forall i: nat, w: nat, lo: nat | from <= i ensures !PatternAt(s, key, i, w, lo, commas) {
        assert CaptureAt(s, key, i, commas).None?;
      }
    }
  }

  /** `kv` reads a written setting back: the value, whatever precedes the key and however much
      whitespace surrounds the separator. */
  lemma KvRoundTrip(t: Setting)
    requires ReadsBack(t, true) && IsTrimmed(t.value)
    ensures Kv(t.key, t.Written()) == Some(t.value)
  {
    SettingCapture(t, true);
    SettingValue(t, true);
  }

  /** `array` reads a written list back: tokens written with `", "` between them come back as
      those tokens. */
  lemma ArrayRoundTrip(t: Setting, ts: seq<string>)
    requires ReadsBack(t, false) && t.value == JoinWith(ts, ", ") && forall x :: x in ts ==> IsToken(x)
    ensures ArrayOf(t.key, t.Written()) == Some(ts)
  {
    SettingCapture(t, false);
    SettingValue(t, false);
    TokensOfJoin(ts);
  }

  /** Where the single-value form matches, the list form matches too. */
  lemma CaptureWidens(s: string, key: string, i: nat)
    requires CaptureAt(s, key, i, true).Some?
    ensures CaptureAt(s, key, i, false).Some?
  {
    var w := SkipSpace(s, i + |key|);
    var v := SkipSpace(s, w + 1);
    if !(v < |s| && !Stop(s[v], false)) {
      var p := LastKept(s, w + 1, v, true).value;
      assert !Stop(s[p], false);
    }
  }

  /** `fields` is stored as a list whenever it is stored: a line that gives it a single value
      also gives the list form a match, which overrides it. */
  lemma FieldsAlwaysList(text: string)
    ensures var shopify := CapturedPatch(text).shopify.value;
      "fields" in shopify ==> shopify["fields"].JArr?
  {
    ExtractedHoldsFoundValues(SHOPIFY_KEYS, text);
    if ArrayOf("fields", text).None? && "fields" in Extracted(SHOPIFY_KEYS, text) {
      var c := FirstCapture(text, "fields", 0, true).value;
      CaptureWidens(text, "fields", c.at);
      assert false;
    }
  }

  /** A stored single value: a non-empty trimmed string with no line break and no comma. */
  predicate CleanValue(j: Json) {
    j.JStr? && j.s != "" && IsTrimmed(j.s) && '\n' !in j.s && ',' !in j.s
  }

  /** The patch names both roles, holds only keys of the two fixed lists, stores clean single
      values, and stores the list form of `fields` as non-empty tokens with no comma or
      whitespace. */
  lemma CapturedValuesClean(text: string)
    ensures CapturedPatch(text).shopify.Some? && CapturedPatch(text).snowflake.Some?
    ensures var shopify := CapturedPatch(text).shopify.value;
      forall k :: k in shopify ==> k in SHOPIFY_KEYS && (k != "fields" ==> CleanValue(shopify[k]))
    ensures var snowflake := CapturedPatch(text).snowflake.value;
      forall k :: k in snowflake ==> k in SNOWFLAKE_KEYS && CleanValue(snowflake[k])
    ensures ArrayOf("fields", text).Some? ==>
      CapturedPatch(text).shopify.value["fields"] == Strings(ArrayOf("fields", text).value)
      && forall t :: t in ArrayOf("fields", text).value ==> t != "" && forall c :: c in t ==> !IsListSep(c)
  {
    ExtractedHoldsFoundValues(SHOPIFY_KEYS, text);
    ExtractedHoldsFoundValues(SNOWFLAKE_KEYS, text);
  }

  /** Slot values do not accumulate: after a capture the store holds what this text gave,
      whatever it held before. */
  lemma CaptureForgetsEarlierTurns(a: Slots, b: Slots, text: string)
    ensures DeepMerge(a, CapturedPatch(text)) == DeepMerge(b, CapturedPatch(text))
  {
  }

  /** A destination key whose `kv` capture is non-empty is stored with that capture. */
  lemma SnowflakeValueStored(a: Slots, key: string, text: string)
    requires key in SNOWFLAKE_KEYS && Stored(Kv(key, text))
    ensures var merged := DeepMerge(a, CapturedPatch(text));
      key in merged.snowflake && merged.snowflake[key] == JStr(Kv(key, text).value)
  {
    var ex := Extracted(SNOWFLAKE_KEYS, text);
    ExtractedHoldsFoundValues(SNOWFLAKE_KEYS, text);
    assert CapturedPatch(text).snowflake == Some(ex);
  }

  /** A single-valued source key whose `kv` capture is non-empty is stored with that capture;
      only `fields` is overridden by the list form. */
  lemma ShopifyValueStored(a: Slots, key: string, text: string)
    requires key in SHOPIFY_KEYS && key != "fields" && Stored(Kv(key, text))
    ensures var merged := DeepMerge(a, CapturedPatch(text));
      key in merged.shopify && merged.shopify[key] == JStr(Kv(key, text).value)
  {
    var ex := Extracted(SHOPIFY_KEYS, text);
    ExtractedHoldsFoundValues(SHOPIFY_KEYS, text);
    assert key in ex && ex[key] == JStr(Kv(key, text).value);
  }

  /** So a destination key set in a turn is stored under that key with exactly the value
      written. */
  lemma SnowflakeValueRoundTrip(a: Slots, t: Setting)
    requires t.key in SNOWFLAKE_KEYS && ReadsBack(t, true) && IsTrimmed(t.value)
    ensures var merged := DeepMerge(a, CapturedPatch(t.Written()));
      t.key in merged.snowflake && merged.snowflake[t.key] == JStr(t.value)
  {
    KvRoundTrip(t);
    SnowflakeValueStored(a, t.key, t.Written());
  }

  /** The same for the source's single-valued keys. */
  lemma ShopifyValueRoundTrip(a: Slots, t: Setting)
    requires t.key in SHOPIFY_KEYS && t.key != "fields" && ReadsBack(t, true) && IsTrimmed(t.value)
    ensures var merged := DeepMerge(a, CapturedPatch(t.Written()));
      t.key in merged.shopify && merged.shopify[t.key] == JStr(t.value)
  {
    KvRoundTrip(t);
    ShopifyValueStored(a, t.key, t.Written());
  }

  /** And a `fields` list written with `", "` between its tokens is stored as that list. */
  lemma FieldsRoundTrip(a: Slots, t: Setting, ts: seq<string>)
    requires t.key == "fields" && ReadsBack(t, false)
    requires t.value == JoinWith(ts, ", ") && forall x :: x in ts ==> IsToken(x)
    ensures var merged := DeepMerge(a, CapturedPatch(t.Written()));
      "fields" in merged.shopify && merged.shopify["fields"] == Strings(ts)
  {
    ArrayRoundTrip(t, ts);
  }
}
