/** The hosted rewrite function: it validates the request, builds the chat
    messages, calls the model and, unlike the other back end, repairs a reply
    whose segment count is wrong, so that every successful response carries
    exactly as many segments as were sent. */
module EdgeRewrite {
  import opened Wrappers
  import opened Json
  import opened JsText
  import opened ChatApi

  /** The content of a chat message. The prompt texts are fixed strings; the
      user message is `JSON.stringify({ segments })`. */
  datatype MessageContent =
    | SystemPrompt
    | Stance(opinion: string)
    | SegmentsPayload(segments: seq<Json>)

  datatype Message = Message(role: string, content: MessageContent)

  /** The function's environment: `XAI_API_KEY` and `XAI_MODEL` (`None` when unset). */
  datatype EdgeEnv = EdgeEnv(apiKey: Option<string>, model: Option<string>)

  /** A request: its HTTP method and `await req.json()`, an error message when that throws. */
  datatype EdgeRequest = EdgeRequest(verb: string, body: Result<Json, string>)

  /** The model endpoint: messages in, reply out. */
  type Chat = seq<Message> -> ChatReply

  const DEFAULT_MODEL := "grok-4-1-fast"
  const SEGMENTS_REQUIRED := "segments must be a non-empty array"
  const API_KEY_MISSING := "XAI_API_KEY is not set"
  const NO_SEGMENTS_ARRAY := "Model did not return a segments array."
  /** What the runtime reports when `.replace` is called on a non-string. */
  const NULL_REPLACE := "Cannot read properties of null (reading 'replace')"
  const NOT_A_FUNCTION_REPLACE := "original.replace is not a function"
  /** What the runtime reports when `const { segments, opinion }` destructures `null`. */
  const NULL_DESTRUCTURE := "Cannot destructure property 'segments' of '(intermediate value)' as it is null."

  /** `env || default`: an empty setting counts as unset. */
  function OrDefault(setting: Option<string>, default: string): (r: string)
    ensures setting.Some? && setting.value != "" ==> r == setting.value
    ensures setting.None? || setting.value == "" ==> r == default
  {
    if setting.Some? && setting.value != "" then setting.value else default
  }

  /** The messages sent to the model: the system prompt first, the stance
      only for a truthy `opinion`, and the segments last. */
  function Messages(segments: seq<Json>, opinion: Option<Json>): (r: seq<Message>)
    ensures |r| == if TruthyField(opinion) then 3 else 2
    ensures r[0] == Message("system", SystemPrompt)
    ensures TruthyField(opinion) ==> r[1] == Message("system", Stance(ToJsString(opinion.value)))
    ensures r[|r| - 1] == Message("user", SegmentsPayload(segments))
  {
    if TruthyField(opinion) then
      [Message("system", SystemPrompt), Message("system", Stance(ToJsString(opinion.value))), Message("user", SegmentsPayload(segments))]
    else [Message("system", SystemPrompt), Message("user", SegmentsPayload(segments))]
  }

  /** The message list, built with a conditional push. */
  method BuildMessages(segments: seq<Json>, opinion: Option<Json>) returns (messages: seq<Message>)
    ensures messages == Messages(segments, opinion)
  {
    messages := [Message("system", SystemPrompt)];
    if TruthyField(opinion) {
      messages := messages + [Message("system", Stance(ToJsString(opinion.value)))];
    }
    messages := messages + [Message("user", SegmentsPayload(segments))];
  }

  const TREMENDOUS_WORDS: seq<string> := ["is", "was", "are", "were"]

  /** `original.replace(/\b(is|was|are|were)\b/gi, '$1 tremendously')`: each
      whole word, in whatever case it was written, is followed by
      ` tremendously`, so the padding never shortens a segment. */
  function Tremendously(s: string): (r: string)
    ensures |r| >= |s|
  {
    ReplaceWords(s, TREMENDOUS_WORDS, (m: string) => m + " tremendously")
  }

  /** Text without any of the four words is left as it is. */
  lemma TremendouslyNoMatch(s: string)
    requires forall w, k :: w in TREMENDOUS_WORDS && 0 <= k < |s| ==> !WordMatchAt(s, k, w)
    ensures Tremendously(s) == s
  {
  }

  /** The padding entry for an input segment; `.replace` throws on anything but a string. */
  function PaddingFor(original: Json): (r: Result<Json, string>)
    ensures r.Ok? <==> original.JStr?
    ensures r.Ok? ==> r.value == JStr(Tremendously(original.s))
  {
    match original
    case JStr(s) => Ok(JStr(Tremendously(s)))
    case JNull => Err(NULL_REPLACE)
    case _ => Err(NOT_A_FUNCTION_REPLACE)
  }

  /** `rewritten` grown one padding entry at a time up to the input's length. */
  function Pad(segments: seq<Json>, rewritten: seq<Json>): (r: Result<seq<Json>, string>)
    requires |rewritten| <= |segments|
    ensures r.Ok? <==> forall i :: |rewritten| <= i < |segments| ==> segments[i].JStr?
    ensures r.Ok? ==>
      && |r.value| == |segments|
      && r.value[..|rewritten|] == rewritten
      && forall i :: |rewritten| <= i < |segments| ==> r.value[i] == JStr(Tremendously(segments[i].s))
    decreases |segments| - |rewritten|
  {
    if |rewritten| == |segments| then Ok(rewritten)
    else match PaddingFor(segments[|rewritten|])
      case Err(e) => Err(e)
      case Ok(entry) =>
        var r := Pad(segments, rewritten + [entry]);
        assert r.Ok? ==> r.value[..|rewritten|] == (rewritten + [entry])[..|rewritten|];
        r
  }

  /** The repair of a reply of the wrong length: too many segments are cut to
      the first n, too few are padded from the inputs; a reply of the right
      length is returned unmodified. */
  function RepairSegments(segments: seq<Json>, rewritten: seq<Json>): (r: Result<seq<Json>, string>)
    ensures r.Ok? ==> |r.value| == |segments|
    ensures |rewritten| == |segments| ==> r == Ok(rewritten)
    ensures |rewritten| > |segments| ==> r == Ok(rewritten[..|segments|])
    ensures |rewritten| < |segments| ==>
      && (r.Ok? <==> forall i :: |rewritten| <= i < |segments| ==> segments[i].JStr?)
      && (r.Ok? ==>
            && r.value[..|rewritten|] == rewritten
            && forall i :: |rewritten| <= i < |segments| ==> r.value[i] == JStr(Tremendously(segments[i].s)))
  {
    if |rewritten| == |segments| then Ok(rewritten)
    else if |rewritten| > |segments| then Ok(rewritten[..|segments|])
    else Pad(segments, rewritten)
  }

  /** The repair block as written: `slice`, or a `while` loop of `push`. */
  method Repair(segments: seq<Json>, reply: seq<Json>) returns (r: Result<seq<Json>, string>)
    ensures r == RepairSegments(segments, reply)
  {
    var rewritten := reply;
    if |rewritten| != |segments| {
      if |rewritten| > |segments| {
        rewritten := rewritten[..|segments|];
      } else {
        while |rewritten| < |segments|
          invariant |reply| <= |rewritten| <= |segments|
          invariant Pad(segments, reply) == Pad(segments, rewritten)
          decreases |segments| - |rewritten|
        {
          var padding := PaddingFor(segments[|rewritten|]);
          if padding.Err? {
            return Err(padding.error);
          }
          rewritten := rewritten + [padding.value];
        }
      }
    }
    return Ok(rewritten);
  }

  /** The request's `segments`, when it is a non-empty array. */
  function RequestSegments(body: Json): (r: Option<seq<Json>>)
    ensures r.Some? <==> Field(body, "segments").Some? && Field(body, "segments").value.JArr? && Field(body, "segments").value.items != []
    ensures r.Some? ==> Field(body, "segments") == Some(JArr(r.value))
  {
    match Field(body, "segments")
    case Some(JArr(items)) => if |items| > 0 then Some(items) else None
    case _ => None
  }

  /** The request gets as far as the model call: not a preflight, a readable
      body with a non-empty `segments` array, and an API key. */
  predicate CallsModel(req: EdgeRequest, env: EdgeEnv) {
    req.verb != "OPTIONS" && req.body.Ok? && RequestSegments(req.body.value).Some? && OrDefault(env.apiKey, "") != ""
  }

  /** `parsed?.segments` of the model's reply to the request's messages. */
  function ModelSegments(body: Json, segments: seq<Json>, chat: Chat, parseJson: string -> Option<Json>): Result<Option<Json>, string> {
    SegmentsField(chat(Messages(segments, Field(body, "opinion"))), "xAI", parseJson)
  }

  function SuccessBody(rewritten: seq<Json>, model: string, duration: int): Body {
    JsonBody(JObj(map[
      "segments" := JArr(rewritten),
      "provider" := JStr("xai"),
      "model" := JStr(model),
      "duration" := JNum(duration)]))
  }

  /** The request handler. OPTIONS is answered `ok`; every other request is
      answered 200 with the segments, or 400 with the message of the first
      check that failed (a `null` body already fails the destructuring). A 200 always carries exactly as many segments as the
      request sent; a missing API key, a failed call, or a reply whose content
      is not a JSON string with a `segments` array never gives a 200. The
      clock reading is the parameter `duration`. */
  method HandleRewrite(req: EdgeRequest, env: EdgeEnv, chat: Chat, parseJson: string -> Option<Json>, duration: int)
    returns (resp: Response)
    ensures req.verb == "OPTIONS" ==> resp == Response(200, PlainText("ok"))
    ensures req.verb != "OPTIONS" ==> resp.status == 200 || resp.status == 400
    ensures req.verb != "OPTIONS" && req.body.Err? ==> resp == Response(400, ErrorBody(req.body.error))
    ensures req.verb != "OPTIONS" && req.body == Ok(JNull) ==> resp == Response(400, ErrorBody(NULL_DESTRUCTURE))
    ensures req.verb != "OPTIONS" && req.body.Ok? && req.body.value != JNull && RequestSegments(req.body.value).None? ==>
      resp == Response(400, ErrorBody(SEGMENTS_REQUIRED))
    ensures req.verb != "OPTIONS" && req.body.Ok? && RequestSegments(req.body.value).Some? && OrDefault(env.apiKey, "") == "" ==>
      resp == Response(400, ErrorBody(API_KEY_MISSING))
    ensures req.verb != "OPTIONS" && resp.status == 200 ==>
      && req.body.Ok? && RequestSegments(req.body.value).Some?
      && ResponseSegments(resp).Some?
      && |ResponseSegments(resp).value| == |RequestSegments(req.body.value).value|
    ensures CallsModel(req, env) ==>
      var segments := RequestSegments(req.body.value).value;
      var field := ModelSegments(req.body.value, segments, chat, parseJson);
      && (field.Err? ==> resp == Response(400, ErrorBody(field.error)))
      && (field.Ok? && !(field.value.Some? && field.value.value.JArr?) ==> resp == Response(400, ErrorBody(NO_SEGMENTS_ARRAY)))
      && (field.Ok? && field.value.Some? && field.value.value.JArr? ==>
            var repaired := RepairSegments(segments, field.value.value.items);
            && (repaired.Err? ==> resp == Response(400, ErrorBody(repaired.error)))
            && (repaired.Ok? ==> resp == Response(200, SuccessBody(repaired.value, OrDefault(env.model, DEFAULT_MODEL), duration))))
    ensures req.verb != "OPTIONS" && resp.status == 200 ==>
      && CallsModel(req, env)
      && var segments := RequestSegments(req.body.value).value;
      && var field := ModelSegments(req.body.value, segments, chat, parseJson);
      && field.Ok? && field.value.Some? && field.value.value.JArr?
      && RepairSegments(segments, field.value.value.items) == Ok(ResponseSegments(resp).value)
  {
    if req.verb == "OPTIONS" {
      return Response(200, PlainText("ok"));
    }
    if req.body.Err? {
      return Response(400, ErrorBody(req.body.error));
    }
    var body := req.body.value;
    if body == JNull {
      return Response(400, ErrorBody(NULL_DESTRUCTURE));
    }
    var requested := RequestSegments(body);
    if requested.None? {
      return Response(400, ErrorBody(SEGMENTS_REQUIRED));
    }
    var segments := requested.value;
    var model := OrDefault(env.model, DEFAULT_MODEL);
    if OrDefault(env.apiKey, "") == "" {
      return Response(400, ErrorBody(API_KEY_MISSING));
    }
    var messages := BuildMessages(segments, Field(body, "opinion"));
    var field := SegmentsField(chat(messages), "xAI", parseJson);
    if field.Err? {
      return Response(400, ErrorBody(field.error));
    }
    if field.value.None? || !field.value.value.JArr? {
      return Response(400, ErrorBody(NO_SEGMENTS_ARRAY));
    }
    var repaired := Repair(segments, field.value.value.items);
    if repaired.Err? {
      return Response(400, ErrorBody(repaired.error));
    }
    return Response(200, SuccessBody(repaired.value, model, duration));
  }
}
