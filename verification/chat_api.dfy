/** What the two rewrite back ends share: the shape of a chat-completions
    reply as the handlers see it, the checks they both apply to it before
    looking at the segments, and the HTTP responses they send. */
module ChatApi {
  import opened Wrappers
  import opened Json

  /** The outcome of the `fetch` to a chat-completions endpoint. */
  datatype ChatReply =
    | NotOk(status: nat, body: string)   // `!response.ok`
    | Unreadable(message: string)        // `response.json()` throws
    | Answered(content: Option<Json>)    // `data?.choices?.[0]?.message?.content`, `None` when undefined

  /** A response body: plain text or a JSON document. */
  datatype Body = PlainText(text: string) | JsonBody(value: Json)

  datatype Response = Response(status: nat, body: Body)

  /** `{ error: message }`. */
  function ErrorBody(message: string): Body {
    JsonBody(JObj(map["error" := JStr(message)]))
  }

  /** The error message carried by a response, if it is an error body. */
  function ErrorMessage(resp: Response): Option<string> {
    match resp.body
    case JsonBody(JObj(fields)) =>
      if "error" in fields && fields["error"].JStr? then Some(fields["error"].s) else None
    case _ => None
  }

  /** The `segments` array of a response body, if it has one. */
  function ResponseSegments(resp: Response): Option<seq<Json>> {
    match resp.body
    case JsonBody(JObj(fields)) =>
      if "segments" in fields && fields["segments"].JArr? then Some(fields["segments"].items) else None
    case _ => None
  }

  /** `text.slice(0, 300)`. */
  function Excerpt(text: string): (r: string)
    ensures |r| <= 300 && |r| <= |text| && r == text[..|r|]
    ensures |text| <= 300 ==> r == text
  {
    if |text| <= 300 then text else text[..300]
  }

  /** The checks both back ends make on a reply, with `provider` naming the
      upstream in the two messages that mention it: a failed request, content
      that is not a string, and content that is not JSON are errors; otherwise
      the result is `parsed?.segments` (`None` when undefined). */
  function SegmentsField(reply: ChatReply, provider: string, parseJson: string -> Option<Json>): (r: Result<Option<Json>, string>)
    ensures r.Ok? <==>
      reply.Answered? && reply.content.Some? && reply.content.value.JStr? && parseJson(reply.content.value.s).Some?
    ensures r.Ok? ==> r.value == Field(parseJson(reply.content.value.s).value, "segments")
    ensures reply.NotOk? ==>
      r == Err(provider + " request failed (" + NatToString(reply.status) + "): " + Excerpt(reply.body))
    ensures reply.Answered? && !(reply.content.Some? && reply.content.value.JStr?) ==>
      r == Err(provider + " response did not include JSON content.")
    ensures reply.Answered? && reply.content.Some? && reply.content.value.JStr? && parseJson(reply.content.value.s).None? ==>
      r == Err("Model returned non-JSON output.")
  {
    match reply
    case NotOk(status, body) => Err(provider + " request failed (" + NatToString(status) + "): " + Excerpt(body))
    case Unreadable(message) => Err(message)
    case Answered(content) =>
      if content.None? || !content.value.JStr? then Err(provider + " response did not include JSON content.")
      else match parseJson(content.value.s)
        case None => Err("Model returned non-JSON output.")
        case Some(parsed) => Ok(Field(parsed, "segments"))
  }
}
