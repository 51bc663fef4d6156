/** The local development back end: a strict validator in front of the
    model call. A reply with the wrong number of segments is an error here;
    nothing is padded or cut. */
module RewriteServer {
  import opened Wrappers
  import opened Json
  import opened ChatApi

  /** `OPENAI_API_KEY` and `OPENAI_MODEL` as read at start-up (`None` when unset). */
  datatype ServerEnv = ServerEnv(apiKey: Option<string>, model: Option<string>)

  /** The model endpoint, called with the validated segments. */
  type Chat = seq<string> -> ChatReply

  const MAX_SEGMENTS: nat := 60
  const DEFAULT_MODEL := "gpt-4.1-mini"
  const INVALID_JSON := "Invalid JSON body."
  const NOT_AN_ARRAY := "`segments` must be an array."
  const EMPTY_SEGMENTS := "`segments` must not be empty."
  const TOO_MANY_SEGMENTS := "`segments` exceeds max batch size of 60."
  const API_KEY_MISSING := "OPENAI_API_KEY is not set."
  const INVALID_COUNT := "Model returned invalid segment count."
  /** What the runtime reports for `body.segments` when the body is `null`. */
  const NULL_BODY := "Cannot read properties of null (reading 'segments')"

  predicate KeySet(setting: Option<string>) {
    setting.Some? && setting.value != ""
  }

  function ModelName(env: ServerEnv): string {
    if KeySet(env.model) then env.model.value else DEFAULT_MODEL
  }

  /** `readJson` once the body is collected: an empty body reads as `{}`,
      unparsable text is rejected. */
  function ReadJson(raw: string, parseJson: string -> Option<Json>): (r: Result<Json, string>)
    ensures raw == "" ==> r == Ok(JObj(map[]))
    ensures raw != "" && parseJson(raw).None? ==> r == Err(INVALID_JSON)
    ensures raw != "" && parseJson(raw).Some? ==> r == Ok(parseJson(raw).value)
  {
    if raw == "" then Ok(JObj(map[]))
    else match parseJson(raw)
      case None => Err(INVALID_JSON)
      case Some(body) => Ok(body)
  }

  /** `items.map((value) => String(value))`. */
  function Stringify(items: seq<Json>): (r: seq<string>)
    ensures |r| == |items| && forall i :: 0 <= i < |items| ==> r[i] == ToJsString(items[i])
  {
    if items == [] then [] else [ToJsString(items[0])] + Stringify(items[1..])
  }

  /** `validateSegments`: a non-empty array of at most 60 entries, each
      converted to a string; anything else is rejected with its own message. */
  function ValidateSegments(input: Option<Json>): (r: Result<seq<string>, string>)
    ensures r.Ok? <==> input.Some? && input.value.JArr? && 0 < |input.value.items| <= MAX_SEGMENTS
    ensures r.Ok? ==> r.value == Stringify(input.value.items)
    ensures !(input.Some? && input.value.JArr?) ==> r == Err(NOT_AN_ARRAY)
    ensures input.Some? && input.value.JArr? && |input.value.items| == 0 ==> r == Err(EMPTY_SEGMENTS)
    ensures input.Some? && input.value.JArr? && |input.value.items| > MAX_SEGMENTS ==> r == Err(TOO_MANY_SEGMENTS)
  {
    match input
    case Some(JArr(items)) =>
      if |items| == 0 then Err(EMPTY_SEGMENTS)
      else if |items| > MAX_SEGMENTS then Err(TOO_MANY_SEGMENTS)
      else Ok(Stringify(items))
    case _ => Err(NOT_AN_ARRAY)
  }

  /** `rewriteWithOpenAI`: no key, no request; a reply is accepted only when
      its `segments` is an array of exactly the input's length, and then its
      entries are converted to strings. */
  function RewriteWithOpenAI(segments: seq<string>, env: ServerEnv, chat: Chat, parseJson: string -> Option<Json>)
    : (r: Result<seq<string>, string>)
    ensures !KeySet(env.apiKey) ==> r == Err(API_KEY_MISSING)
    ensures r.Ok? ==>
      && KeySet(env.apiKey)
      && SegmentsField(chat(segments), "OpenAI", parseJson).Ok?
      && var field := SegmentsField(chat(segments), "OpenAI", parseJson).value;
      && field.Some? && field.value.JArr? && |field.value.items| == |segments|
      && r.value == Stringify(field.value.items)
    ensures KeySet(env.apiKey) && SegmentsField(chat(segments), "OpenAI", parseJson).Ok? ==>
      var field := SegmentsField(chat(segments), "OpenAI", parseJson).value;
      !(field.Some? && field.value.JArr? && |field.value.items| == |segments|) ==> r == Err(INVALID_COUNT)
    ensures KeySet(env.apiKey) && SegmentsField(chat(segments), "OpenAI", parseJson).Ok? ==>
      var field := SegmentsField(chat(segments), "OpenAI", parseJson).value;
      field.Some? && field.value.JArr? && |field.value.items| == |segments| ==> r == Ok(Stringify(field.value.items))
  {
    if !KeySet(env.apiKey) then Err(API_KEY_MISSING)
    else match SegmentsField(chat(segments), "OpenAI", parseJson)
      case Err(e) => Err(e)
      case Ok(field) =>
        if field.None? || !field.value.JArr? || |field.value.items| != |segments| then Err(INVALID_COUNT)
        else Ok(Stringify(field.value.items))
  }

  /** Without a key the model is never consulted: the outcome is the same
      whatever the endpoint would have answered. */
  lemma NoRequestWithoutKey(segments: seq<string>, env: ServerEnv, chat1: Chat, chat2: Chat, parseJson: string -> Option<Json>)
    requires !KeySet(env.apiKey)
    ensures RewriteWithOpenAI(segments, env, chat1, parseJson) == RewriteWithOpenAI(segments, env, chat2, parseJson)
  {
  }

  /** `body.segments`; reading a property of `null` throws. */
  function SegmentsOfBody(body: Json): Result<Option<Json>, string> {
    if body.JNull? then Err(NULL_BODY) else Ok(Field(body, "segments"))
  }

  /** The POST /api/rewrite pipeline: read, validate, rewrite. */
  function RewritePipeline(raw: string, env: ServerEnv, chat: Chat, parseJson: string -> Option<Json>)
    : (r: Result<seq<string>, string>)
    ensures r.Ok? ==>
      && ReadJson(raw, parseJson).Ok?
      && SegmentsOfBody(ReadJson(raw, parseJson).value).Ok?
      && var input := SegmentsOfBody(ReadJson(raw, parseJson).value).value;
      && ValidateSegments(input).Ok?
      && |r.value| == |ValidateSegments(input).value| == |input.value.items|
      && 0 < |r.value| <= MAX_SEGMENTS
  {
    match ReadJson(raw, parseJson)
    case Err(e) => Err(e)
    case Ok(body) =>
      match SegmentsOfBody(body)
      case Err(e) => Err(e)
      case Ok(input) =>
        match ValidateSegments(input)
        case Err(e) => Err(e)
        case Ok(segments) => RewriteWithOpenAI(segments, env, chat, parseJson)
  }

  function StringsToJson(items: seq<string>): (r: seq<Json>)
    ensures |r| == |items| && forall i :: 0 <= i < |items| ==> r[i] == JStr(items[i])
  {
    if items == [] then [] else [JStr(items[0])] + StringsToJson(items[1..])
  }

  /** The route table of the server. */
  function HandleRequest(verb: string, url: string, raw: string, env: ServerEnv, chat: Chat, parseJson: string -> Option<Json>)
    : (resp: Response)
    ensures verb == "OPTIONS" ==> resp == Response(200, JsonBody(JObj(map["ok" := JBool(true)])))
    ensures verb == "GET" && url == "/health" ==> resp.status == 200
    ensures verb == "POST" && url == "/api/rewrite" ==>
      if RewritePipeline(raw, env, chat, parseJson).Ok? then
        && resp.status == 200
        && ResponseSegments(resp) == Some(StringsToJson(RewritePipeline(raw, env, chat, parseJson).value))
      else resp == Response(400, ErrorBody(RewritePipeline(raw, env, chat, parseJson).error))
    ensures verb != "OPTIONS" && !(verb == "GET" && url == "/health") && !(verb == "POST" && url == "/api/rewrite") ==>
      resp == Response(404, ErrorBody("Not found"))
  {
    if verb == "OPTIONS" then Response(200, JsonBody(JObj(map["ok" := JBool(true)])))
    else if verb == "GET" && url == "/health" then
      Response(200, JsonBody(JObj(map[
        "ok" := JBool(true),
        "provider" := JStr("openai"),
        "model" := JStr(ModelName(env)),
        "hasApiKey" := JBool(KeySet(env.apiKey))])))
    else if verb == "POST" && url == "/api/rewrite" then
      match RewritePipeline(raw, env, chat, parseJson)
      case Ok(rewritten) =>
        Response(200, JsonBody(JObj(map[
          "segments" := JArr(StringsToJson(rewritten)),
          "provider" := JStr("openai"),
          "model" := JStr(ModelName(env))])))
      case Err(e) => Response(400, ErrorBody(e))
    else Response(404, ErrorBody("Not found"))
  }

  /** A successful rewrite answers with as many segments as the request held,
      all of them strings. */
  lemma RewriteResponseMatchesRequest(raw: string, env: ServerEnv, chat: Chat, parseJson: string -> Option<Json>)
    requires HandleRequest("POST", "/api/rewrite", raw, env, chat, parseJson).status == 200
    ensures
      && ReadJson(raw, parseJson).Ok?
      && var body := ReadJson(raw, parseJson).value;
      && body.JObj? && "segments" in body.fields && body.fields["segments"].JArr?
      && var resp := HandleRequest("POST", "/api/rewrite", raw, env, chat, parseJson);
      && ResponseSegments(resp).Some?
      && |ResponseSegments(resp).value| == |body.fields["segments"].items|
      && forall i :: 0 <= i < |ResponseSegments(resp).value| ==> ResponseSegments(resp).value[i].JStr?
  {
  }
}
