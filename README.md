# ai-dataflow-architect, modelled in Dafny

ai-dataflow-architect turns a chat about a data-integration pipeline into a three-column pipeline
graph: source, transform, destination. This project models the parts of the system that decide
what state the pipeline ends up in, and proves properties about them:

- **The model-service function** (`protocol.dfy`) builds the transcript and the primary prompt.
  It splits the model's raw reply into a message and an optional graph, using the `MESSAGE:`
  capture and two tiers of fenced-block search. It accepts a graph only when it has `nodes` and
  `edges` arrays. When a reply claims readiness without a graph, it asks once more in JSON-only
  mode and re-parses that answer inside a synthetic `GRAPH_JSON:` fence.
- **The slot store** (`slots.dfy`) holds two credential records, one for Shopify and one for
  Snowflake. It has a merge operation and a completeness rule.
- **The flow store** (`flow.dfy`) holds nodes, edges and the selection. It offers replace, add,
  remove, select, patch and reset operations.
- **The chat panel** (`chat.dfy`) covers:
  - the new-pipeline detector;
  - the `kv`/`array` regex extractors and the slot capture built on them;
  - the reply handling (forward a graph, restart the flow, or ignore);
  - the `send` and `triggerAICall` turns.
- **The studio page** (`studio.dfy`) covers:
  - the seeded three-node layout and its title-casing;
  - status normalisation;
  - graph application;
  - the local fallback that builds a graph from complete slots.
- **The canvas** (`canvas.dfy`) covers:
  - keyboard navigation over the selection;
  - the column/row layout;
  - edge conversion;
  - the guard on new connections.

Supporting modules:

- `text.dfy` holds the string operations the source uses: `indexOf`/leftmost regex search,
  `\s` skipping, `trim`, `split`, `join` and ASCII case mapping.
- `json.dfy` holds JSON values.
- `client.dfy` holds the reply shape the browser client returns.
- `options.dfy` holds `Option`.

Regular expressions are modelled as explicit search functions. Each returns the capture a
backtracking matcher returns: the leftmost start at which the whole pattern matches.

`JSON.parse`, the model call and the browser's network call are function parameters (`parse`,
`generate`, `ask`), so every property holds for every deterministic behaviour of those collaborators. The
millisecond clock in a new edge's id is a `stamp` parameter.

Where the code and the system's design description differ, the model follows the code:

- **Slot merge.** The slot merge is per role, not per key. `{...a, ...b}` replaces a whole role
  record. A capture always names both roles, so every turn replaces both records with what that
  turn's text yielded: keys found in earlier turns are dropped (`Chat.CaptureForgetsEarlierTurns`).
- **New pipeline.** Starting a new pipeline resets the flow and the transcript, but not the slots
  (`Chat.ChatSession.Send`).
- **`kv` matching.** `kv` is not "first occurrence of the key". A key occurrence whose separator
  or value is missing is skipped, and the next occurrence is tried (`Chat.FirstCapture`).
  The key is not matched as a whole word either: `key` matches inside `monkey: x`, so a
  round trip holds only when no match of the key starts in the text before it
  (`Chat.KvRoundTrip`).
- **`fields` as a list.** `fields` is always stored as a list whenever the list form matched,
  including the empty list (`Chat.FieldsAlwaysList`).

The proofs also bring out a consequence of the forced pass. A forced answer that itself starts
with a code fence yields an empty block once wrapped, so its graph is lost even when it is valid
(`Protocol.FencedForcedReplyIsLost`).

## Model

| member | source | states |
|---|---|---|
| Protocol.Lines | netlify/functions/ai.ts:16 | one `role: content` line per message, in order |
| Protocol.TranscriptAppend | netlify/functions/ai.ts:16 | appending a message appends a newline and its line to the transcript |
| Protocol.TranscriptSplitsIntoLines | netlify/functions/ai.ts:16 | when no content holds a newline, splitting the transcript on newlines gives back the message lines |
| Protocol.PromptsEndWithTranscript | netlify/functions/ai.ts:19-28 | both prompts end with a newline followed by the transcript; with no force-prompt lines the force prompt is the transcript alone |
| Protocol.MessageEnd | netlify/functions/ai.ts:63-65 | the lazy capture stops at the first double newline, `GRAPH_JSON:` (any case), fence or end of text, and at no earlier point |
| Protocol.MessageText | netlify/functions/ai.ts:63-66 | the message is trimmed, and is the trimmed whole reply when there is no `MESSAGE:` marker |
| Protocol.MessageStopsAtTerminators | netlify/functions/ai.ts:63-66 | after a `MESSAGE:` marker the message never contains a double newline, a graph marker or a fence |
| Protocol.MessageAvoids | netlify/functions/ai.ts:63-66 | a pattern that can only occur at a stopping point never occurs in the captured message |
| Protocol.MessageOfReply | netlify/functions/ai.ts:63-66 | `MESSAGE: m` followed by a blank line yields exactly `m` for every trimmed `m` free of terminators |
| Protocol.FenceRange | netlify/functions/ai.ts:69-71 | a found block starts at the first non-whitespace character after the leftmost opening fence (any case) at or after the search start, ends at the next closing fence, and holds no fence |
| Protocol.NoFenceRange | netlify/functions/ai.ts:69-71 | when no block is found, no opening fence at or after the search start is ever followed by a closing fence |
| Protocol.NoGraphJsonBlock | netlify/functions/ai.ts:69-71 | when the marker form finds no block, no `GRAPH_JSON:` marker is followed by an opening fence and then a closing fence |
| Protocol.PrimaryBlock | netlify/functions/ai.ts:69-71 | the first tier takes the `GRAPH_JSON:` block fenced as ```` ```json ```` whenever there is one, and the plain-fenced one only otherwise |
| Protocol.FallbackBlock | netlify/functions/ai.ts:81-82 | the second tier takes the first ```` ```json ```` block anywhere whenever there is one, and the first plain-fenced one only otherwise |
| Protocol.Accept | netlify/functions/ai.ts:73-78 | a block yields a graph exactly when it parses to a value with `nodes` and `edges` arrays, and the graph is then that value |
| Protocol.SplitMessageAndGraph | netlify/functions/ai.ts:62-91 | the message is the captured text; the first tier's accepted graph wins whenever there is one, and the fallback tier's is used only otherwise; any graph has the graph shape |
| Protocol.GraphOfBlocks | netlify/functions/ai.ts:69-88 | when both tiers find the same block, the graph is that block's accepted parse |
| Protocol.ReplyWithGraph | netlify/functions/ai.ts:62-91 | a well-formed reply (a message, a blank line, a wrapped JSON block) splits into exactly that message and that block's accepted parse |
| Protocol.ForcedReplyRoundTrip | netlify/functions/ai.ts:45-48 | a forced answer without fences, once wrapped, is re-parsed from its own text minus leading whitespace |
| Protocol.FencedForcedReplyIsLost | netlify/functions/ai.ts:45-48 | a forced answer that starts with a fence yields the empty block and so no graph |
| Protocol.FinalisedAtIff | netlify/functions/ai.ts:36 | the `finali[sz]ed?` alternative matches exactly where `finalise` or `finalize` occurs, ignoring case |
| Protocol.ReadyIff | netlify/functions/ai.ts:36 | the readiness test holds exactly when one of the four alternatives, `pipeline.*ready` included, matches somewhere, ignoring case; the studio page uses the same test (src/pages/Studio.tsx:85-87) |
| Protocol.Handle | netlify/functions/ai.ts:9-60 | one or two model calls, the second with the force prompt exactly when the first reply has no graph and claims readiness; the response, the substituted forced graph, error bodies with the `Server error` default, and that any returned graph has the graph shape |
| Slots.Every | src/store/useSlots.ts:57-58 | every listed key is present with a truthy value, in both directions |
| Slots.SlotStore.constructor | src/store/useSlots.ts:52 | both role records start empty |
| Slots.SlotStore.Merge | src/store/useSlots.ts:53 | the new slots are the merge of the old slots and the patch |
| Slots.SlotStore.IsComplete | src/store/useSlots.ts:54-60 | true exactly when both roles hold every required key with a truthy value |
| Slots.FreshStoreIncomplete | src/store/useSlots.ts:52-60 | the initial store is not complete |
| Slots.MinimalStoreIsComplete | src/store/useSlots.ts:24-43 | records holding exactly the required keys with non-empty strings are complete |
| Slots.RemovingRequiredKeyBreaksCompleteness | src/store/useSlots.ts:24-43 | removing any one required key makes the slots incomplete |
| Slots.EmptyStringIsMissing | src/store/useSlots.ts:57-58 | a required key holding the empty string counts as missing |
| Slots.EmptyArrayIsPresent | src/store/useSlots.ts:57-58 | an empty `fields` list counts as present, like a non-empty one |
| Slots.ExtraKeysDoNotMatter | src/store/useSlots.ts:54-60 | adding or changing a key outside the required list never changes completeness |
| Slots.MergeReplacesNamedRole | src/store/useSlots.ts:63-65 | a role named in the patch loses every key the patch does not carry |
| Slots.MergeKeepsUnnamedRole | src/store/useSlots.ts:63-65 | a role the patch does not name is kept unchanged |
| Slots.MergeIdempotent | src/store/useSlots.ts:63-65 | merging the same patch twice equals merging it once |
| Flow.FlowStore.constructor | src/store/useFlowStore.ts:34-37 | the store starts with no nodes, no edges and no selection |
| Flow.FlowStore.SetNodes | src/store/useFlowStore.ts:38 | only the nodes change, to the given list |
| Flow.FlowStore.SetEdges | src/store/useFlowStore.ts:39 | only the edges change, to the given list |
| Flow.FlowStore.AddEdge | src/store/useFlowStore.ts:40 | only the edges change: the edge is appended |
| Flow.FlowStore.RemoveEdge | src/store/useFlowStore.ts:41-42 | only the edges change, to those without the id |
| Flow.FlowStore.SelectNode | src/store/useFlowStore.ts:43 | only the selection changes |
| Flow.FlowStore.UpdateNode | src/store/useFlowStore.ts:44-55 | only the nodes change: each node with the id is patched, the others are kept |
| Flow.FlowStore.Reset | src/store/useFlowStore.ts:56 | back to the initial state |
| Flow.FlowStore.ResetFlow | src/store/useFlowStore.ts:57-61 | back to the initial state |
| Flow.WithoutEdge | src/store/useFlowStore.ts:41-42 | an edge survives exactly when it was present and has a different id |
| Flow.WithoutEdgeAppend | src/store/useFlowStore.ts:41-42 | removal distributes over concatenation, so order is kept |
| Flow.WithoutUnknownEdge | src/store/useFlowStore.ts:41-42 | removing an id no edge has changes nothing |
| Flow.WithoutEdgeIdempotent | src/store/useFlowStore.ts:41-42 | removing twice equals removing once |
| Flow.UpdateNodes | src/store/useFlowStore.ts:44-55 | same length; each node with the id is patched and every other node is unchanged |
| Flow.PatchNodeMergesProperties | src/store/useFlowStore.ts:47-52 | the patched node keeps its old property keys, takes the patch's values where given, and takes the patch's label and status when present |
| Flow.UpdateUnknownNode | src/store/useFlowStore.ts:44-55 | updating an id no node has changes nothing |
| Chat.NewPipelineRequestIff | src/components/Chat.tsx:17-25 | a message is a new-pipeline request exactly when it contains one of the four phrases, ignoring case |
| Chat.ChatSession.constructor | src/components/Chat.tsx:30-32 | empty transcript, empty input, not loading |
| Chat.ChatSession.HandleNewPipeline | src/components/Chat.tsx:43-51 | the flow is reset and the transcript is the single start message |
| Chat.ChatSession.ProcessAIGuidance | src/components/Chat.tsx:53-59 | a reply with a graph is forwarded; without one, the flow is reset exactly when the text asks what to connect |
| Chat.GuidanceIff | src/components/Chat.tsx:53-59 | forwarding happens exactly when there is a graph; a restart happens exactly when there is none and the text contains the phrase, ignoring case |
| Chat.SeparatorAt | src/components/Chat.tsx:63-64 | after a key at an index, the separator `:` or `=` past only whitespace is found whenever it exists, and it is the only one |
| Chat.GroupStart | src/components/Chat.tsx:63-64 | the group starts after only whitespace, at a character it may capture, and at the latest such place, as the greedy `\s*` gives way |
| Chat.CaptureAt | src/components/Chat.tsx:63-64 | there is a match at an index exactly when the key (any case), whitespace, `:` or `=`, whitespace and a capturable character occur there; the group starts at the latest possible place and runs to the next newline (or also comma, in the single-value form) or the end |
| Chat.FirstCapture | src/components/Chat.tsx:64 | the leftmost index at which the whole pattern matches, and no match before it |
| Chat.FirstCaptureFound | src/components/Chat.tsx:64 | a match is found exactly when the pattern matches at some index at or after the start |
| Chat.SettingCapture | src/components/Chat.tsx:63-64 | text laid out as key, whitespace, separator, whitespace and value, after text holding no earlier key match and before a stop or the end, is matched at the key with the value as the group |
| Chat.Kv | src/components/Chat.tsx:62-66 | a value is found exactly when the pattern matches somewhere; it is trimmed and holds no newline and no comma |
| Chat.KvRoundTrip | src/components/Chat.tsx:62-66 | `key: v` or `key = v`, with any whitespace around the separator, after text holding no earlier key match and before a newline, comma or the end, yields exactly `v` for every trimmed `v` free of newlines and commas |
| Chat.ArrayOf | src/components/Chat.tsx:69-74 | a list is found exactly when the list pattern matches somewhere; its tokens are non-empty, hold no comma or whitespace, and together spell the captured line without its commas and whitespace |
| Chat.ArrayRoundTrip | src/components/Chat.tsx:69-74 | a key followed by tokens joined with `, `, laid out as for `kv`, yields exactly those tokens |
| Text.TokensOfJoin | src/components/Chat.tsx:73 | splitting tokens joined with `, ` on commas, trimming and dropping empty pieces gives back the tokens |
| Text.TokensKeepWordChars | src/components/Chat.tsx:73 | the tokens of a line, concatenated, are its characters other than commas and whitespace, in order |
| Chat.CaptureWidens | src/components/Chat.tsx:62-74 | whenever the single-value pattern matches at an index, the list pattern matches there too |
| Chat.ExtractRole | src/components/Chat.tsx:86-94 | the loop over the key list builds the record of found, non-empty values |
| Chat.ExtractedStep | src/components/Chat.tsx:86-94 | one loop step adds the current key exactly when its value is non-empty |
| Chat.ExtractedHoldsFoundValues | src/components/Chat.tsx:86-94 | the record holds exactly the listed keys with a non-empty capture, each with that capture |
| Chat.FieldsAlwaysList | src/components/Chat.tsx:96-97 | a stored `fields` entry is always a list |
| Chat.CapturedValuesClean | src/components/Chat.tsx:77-103 | both roles are named in the patch; only listed keys appear; single values are clean strings; `fields` is the list the list capture found, whose non-empty tokens hold no separator and spell the captured line without commas and whitespace |
| Chat.ChatSession.CaptureSlotsFromText | src/components/Chat.tsx:77-103 | the slots become the merge of the old slots with the captured patch |
| Chat.CaptureForgetsEarlierTurns | src/components/Chat.tsx:99-102 | after a capture the slots do not depend on what they held before |
| Chat.SnowflakeValueStored | src/components/Chat.tsx:91-102 | a destination key with a non-empty capture ends up in the slots with that value |
| Chat.ShopifyValueStored | src/components/Chat.tsx:86-102 | a single-valued source key with a non-empty capture ends up in the slots with that value |
| Chat.SnowflakeValueRoundTrip | src/components/Chat.tsx:62-102 | a destination `key: value` turn, laid out as for `kv`, stores exactly that value under the key |
| Chat.ShopifyValueRoundTrip | src/components/Chat.tsx:62-102 | a single-valued source `key: value` turn, laid out as for `kv`, stores exactly that value under the key |
| Chat.FieldsRoundTrip | src/components/Chat.tsx:69-102 | a `fields: a, b, c` turn stores exactly the list of its tokens under `fields` |
| Chat.ChatSession.Exchange | src/components/Chat.tsx:170-186 | the reply or the apology is appended; the flow follows the guidance; a graph is forwarded; loading ends |
| Chat.ChatSession.Send | src/components/Chat.tsx:153-187 | nothing happens for blank input or while loading; a new-pipeline request resets the flow and leaves only the start message; any other turn captures slots, appends the reply or apology, applies the guidance and clears the input |
| Chat.ChatSession.TriggerAICall | src/components/Chat.tsx:122-150 | the transcript restarts from the trimmed prompt, slots are captured, the reply is handled, and input and loading are cleared |
| Studio.SeedFlow | src/pages/Studio.tsx:27-65 | no seed or an empty seed changes nothing; otherwise the nodes and edges become the seeded layout |
| Studio.StripVerb | src/pages/Studio.tsx:32 | the result is a suffix of the text, and is the text itself exactly when it does not start with `connect`, `stream` or `sync` followed by whitespace |
| Studio.StripsOneVerb | src/pages/Studio.tsx:32 | a leading `connect`, `stream` or `sync` and the whole whitespace run after it are removed, once, leaving the rest as it was |
| Studio.SeedNamesWithoutSeparator | src/pages/Studio.tsx:29-34 | without ` to `, the source is read from the whole lower-cased seed and the destination falls back to `destination` |
| Studio.SeedNamesOfParts | src/pages/Studio.tsx:29-34 | otherwise the source is read from the text before the first ` to ` and the destination from the text between it and the second ` to ` or the end |
| Studio.SeedNamesIgnoreTail | src/pages/Studio.tsx:30-34 | cutting the seed at its second ` to ` changes neither name |
| Studio.SeedNamesNonEmpty | src/pages/Studio.tsx:30-34 | the source and destination names are never empty, falling back to `source` and `destination` |
| Studio.LayoutShape | src/pages/Studio.tsx:36-62 | three pending nodes `src`, `xform`, `dst` with non-empty labels, and two edges between node ids |
| Studio.SeedLayoutShape | src/pages/Studio.tsx:27-65 | every seed yields that layout |
| Studio.TitleCaseCapitalizes | src/pages/Studio.tsx:323-328 | title-casing upper-cases exactly the first character and each character after a space, and keeps the rest |
| Studio.TitleCaseKeepsSpaces | src/pages/Studio.tsx:323-328 | title-casing keeps the length and the positions of the spaces |
| Studio.NormalizeStatusName | src/pages/Studio.tsx:329-336 | each status name normalises to its own status |
| Studio.NormalizeIdempotent | src/pages/Studio.tsx:329-336 | normalising the name of a normalised status changes nothing |
| Studio.NormalizeStatusIff | src/pages/Studio.tsx:329-336 | partial, complete and error exactly for their case-insensitive prefixes; pending for everything else |
| Studio.ToFlowNodes | src/pages/Studio.tsx:97-103 | one store node per payload node, in order |
| Studio.ToFlowEdges | src/pages/Studio.tsx:105-109 | one store edge per payload edge, in order, with the same id and endpoints |
| Studio.ApplyGraph | src/pages/Studio.tsx:94-115 | the store holds the converted nodes and edges and no selection |
| Studio.ApplyGraphCopies | src/pages/Studio.tsx:94-115 | count and order are kept; ids, types, labels and endpoints are copied; a missing status becomes pending; missing properties become an empty record |
| Studio.BuiltGraphShape | src/pages/Studio.tsx:337-367 | once applied, the synthesised graph has three complete nodes carrying the two role records, and the two seeded edges |
| Studio.HandleAIGuidance | src/pages/Studio.tsx:77-92 | the store ends with the applied graph the guidance chooses, or unchanged |
| Studio.GuidanceChoices | src/pages/Studio.tsx:77-92 | a graph with nodes is applied as sent; synthesis happens exactly when the graph is missing or empty, the text claims readiness and the slots are complete; a graph without nodes is never applied |
| Studio.SynthesisNeedsEmptyGraph | src/pages/Studio.tsx:77-92 | since the chat forwards only replies with a graph, local synthesis needs a reply whose graph has no nodes, a readiness claim and complete slots |
| Canvas.HandleCanvasKeyDown | src/components/Canvas.tsx:175-220 | only the selection changes, as the key's effect says |
| Canvas.KeysNeedSelectedNode | src/components/Canvas.tsx:176-179 | a key does nothing unless the selection is a non-empty id of an existing node |
| Canvas.EscapeClears | src/components/Canvas.tsx:211-213 | the selection is cleared exactly when Escape is pressed on an existing selected node |
| Canvas.SelectionStaysOnNodes | src/components/Canvas.tsx:175-220 | a key only ever selects a non-empty id of an existing node |
| Canvas.RightMoves | src/components/Canvas.tsx:192-199 | right goes to the first node of the next column's type, and nowhere from the last column or an unknown type |
| Canvas.LeftMoves | src/components/Canvas.tsx:184-191 | left goes to the first node of the previous column's type, and nowhere from the first column or an unknown type |
| Canvas.UpMoves | src/components/Canvas.tsx:200-206 | up goes to the previous node of the same type in list order, and nowhere from the first |
| Canvas.DownMoves | src/components/Canvas.tsx:200-209 | down goes to the next node of the same type in list order, with no wrap-around |
| Canvas.LayoutColumns | src/components/Canvas.tsx:224-235 | x is 0, 500 or 1000 for source, transform or destination, and 0 for any other type |
| Canvas.LayoutRow | src/components/Canvas.tsx:228-236 | for a node whose id is not used earlier, y is 200 times the number of earlier nodes of its type, plus 50 |
| Canvas.LayoutSeparatesRows | src/components/Canvas.tsx:226-237 | with unique ids, of two nodes of one type the later one is drawn lower in the same column |
| Canvas.LayoutFlagsSelected | src/components/Canvas.tsx:240-242 | a node is flagged exactly when its id is the selection, so with unique ids at most one node is flagged |
| Canvas.EdgeConversionRoundTrip | src/components/Canvas.tsx:252-256 | conversion keeps count and order, maps `from` to `source` and `to` to `target`, and reading the edges back gives the store's edges |
| Canvas.OnConnect | src/components/Canvas.tsx:274-294 | an edge `edge-<source>-<target>-<stamp>` is appended only when both ends are present and non-empty; otherwise nothing changes |
| Canvas.ConnectionUndoneByRemoval | src/components/Canvas.tsx:276-288 | removing a freshly connected edge by its id restores the previous edges |
| Canvas.OnNodeClick | src/components/Canvas.tsx:296-299 | clicking a node selects its id and changes nothing else |

## Left out

- Lower- and upper-casing act on ASCII letters only; `toLowerCase`/`toUpperCase` on other letters,
  in seed names and labels, are not modelled.
- Chat.NewPipelineRequestIff, Chat.GuidanceIff: the source lower-cases the whole message before
  searching, and a few non-ASCII letters lower-case to ASCII (the Kelvin sign becomes `k`, and
  `what would you like to connect` holds a `k`). The model compares ASCII letters only, so such
  a message is not counted as a match. The readiness test (`Protocol.ReadyIff`) is a regular
  expression with the `i` flag and no `u` flag, which folds ASCII letters only, so it is exact.
- Regex `\s` is modelled as the JavaScript whitespace set; Unicode line and paragraph separators
  beyond it are not.
- `JSON.parse`, `JSON.stringify` and the model call are parameters. The pretty-printed schema
  example is a prompt field. JSON numbers are integers.
- The greeting message and its one-second timer (`src/components/Chat.tsx`), the 500 ms seed
  trigger (`src/pages/Studio.tsx`), scrolling, theming and all rendering are not modelled.
- React state updates are applied in program order. Interleavings of two turns in flight, and
  the closure over a stale `messages` array, are not modelled.
- The drawing library's own node and edge changes (`applyNodeChanges`/`applyEdgeChanges`),
  dragging and `fitView` are not modelled.
- Canvas.LayoutColumns: a node type that names a member of `Object.prototype` (such as
  `constructor`) makes `positions[type] ?? 0` a non-number in the source. The model gives it
  column 0 like any other unknown type.
- Studio.ApplyGraphCopies: payload nodes are typed records. A payload node missing `id`, `type` or
  `label`, or carrying non-string values, is not modelled.
- Protocol.Handle: the HTTP status codes and headers are reduced to the response's variant, and
  the request body's own parse failure is not modelled.
- `src/lib/ai.ts` is not part of this model beyond the reply shape it returns: the network call is
  the `ask` parameter, and a non-OK response is the `Failure` outcome.
