/**
 * What the browser's client hands back from the model service: the reply text and, when
 * the service found one, a graph payload. The network call itself is a parameter of the
 * operations that make it (`ask`); these are only the shapes it returns.
 */
module Client {
  import opened Options
  import opened Json

  /** One node of a payload as the service sent it; `status` and `properties` may be absent. */
  datatype RawNode = RawNode(
    id: string, kind: string, caption: string, status: Option<string>, properties: Option<Record>)

  datatype RawEdge = RawEdge(id: string, from: string, to: string)

  datatype GraphPayload = GraphPayload(nodes: seq<RawNode>, edges: seq<RawEdge>)

  /** The outcome of one call: the reply, or a rejected promise. */
  datatype AskResult = Answer(text: string, graph: Option<GraphPayload>) | Failure
}
