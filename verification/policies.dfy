/** The four places that handle rewritten segments side by side. They differ
    on a reply whose segment count is wrong (the local server rejects it, the
    hosted function repairs it, the client drops the whole rewrite, the batch
    script writes back what it got), and the client and the batch script pick
    text nodes and rewrite links by different rules. */
module SegmentCountPolicies {
  import opened Wrappers
  import opened Json
  import opened JsText
  import opened ChatApi
  import W = Wikipedia
  import E = EdgeRewrite
  import S = RewriteServer
  import B = BulkTrumpify

  // ---------------------------------------------------------------------------
  // The client in front of the local server

  /** How the client reads a back end's answer: a 2xx response whose
      `segments` is an array, each entry converted with `String`; anything
      else makes it give up on the batch. */
  function ClientReading(resp: Response): (r: Option<seq<string>>)
    ensures r.Some? <==> 200 <= resp.status < 300 && ResponseSegments(resp).Some?
    ensures r.Some? ==> |r.value| == |ResponseSegments(resp).value|
  {
    if 200 <= resp.status < 300 && ResponseSegments(resp).Some? then Some(S.Stringify(ResponseSegments(resp).value))
    else None
  }

  /** Strings survive the round trip through JSON strings and `String`. */
  lemma {:induction false} StringifyStrings(texts: seq<string>)
    ensures S.Stringify(S.StringsToJson(texts)) == texts
  {
    var items := S.StringsToJson(texts);
    assert forall i :: 0 <= i < |texts| ==> S.Stringify(items)[i] == ToJsString(JStr(texts[i]));
  }

  /** The request body the client sends for a batch, `{ segments }`. */
  function RequestBody(texts: seq<string>): Json {
    JObj(map["segments" := JArr(S.StringsToJson(texts))])
  }

  /** A client batch (at most 40 texts) sent to the local server: the server
      answers 200 exactly when the key is set and the model's `segments` is an
      array of the batch's length, and then the client reads back that many
      texts. So the client's own length check never fires behind this back
      end: whatever the server lets through, the client accepts. */
  lemma ServerAnswersClientBatch(texts: seq<string>, raw: string, env: S.ServerEnv, chat: S.Chat, parseJson: string -> Option<Json>)
    requires 0 < |texts| <= W.REWRITE_BATCH_SIZE
    requires raw != "" && parseJson(raw) == Some(RequestBody(texts))
    ensures var resp := S.HandleRequest("POST", "/api/rewrite", raw, env, chat, parseJson);
      var field := SegmentsField(chat(texts), "OpenAI", parseJson);
      && (resp.status == 200 <==>
            S.KeySet(env.apiKey) && field.Ok? && field.value.Some? && field.value.value.JArr?
            && |field.value.value.items| == |texts|)
      && (ClientReading(resp).Some? <==> resp.status == 200)
      && (ClientReading(resp).Some? ==> |ClientReading(resp).value| == |texts|)
  {
    StringifyStrings(texts);
    var body := RequestBody(texts);
    assert S.ReadJson(raw, parseJson) == Ok(body);
    assert S.SegmentsOfBody(body) == Ok(Some(JArr(S.StringsToJson(texts))));
    assert S.ValidateSegments(Some(JArr(S.StringsToJson(texts)))) == Ok(texts);
    var resp := S.HandleRequest("POST", "/api/rewrite", raw, env, chat, parseJson);
    if resp.status == 200 {
      var rewritten := S.RewritePipeline(raw, env, chat, parseJson).value;
      assert ResponseSegments(resp) == Some(S.StringsToJson(rewritten));
      StringifyStrings(rewritten);
    }
  }

  // ---------------------------------------------------------------------------
  // A reply with the wrong number of segments

  /** The same wrong-length reply to the same texts under the three policies:
      the local server fails with its count error; the hosted function
      answers with exactly as many segments as were sent, the model's own
      entries first; the client rejects the batch and so the whole LLM pass. */
  lemma WrongCountPolicies(texts: seq<string>, items: seq<Json>, env: S.ServerEnv, chat: S.Chat,
                           parseJson: string -> Option<Json>, service: W.RewriteService, targets: seq<W.Target>, k: nat)
    requires |items| != |texts|
    requires S.KeySet(env.apiKey) && SegmentsField(chat(texts), "OpenAI", parseJson) == Ok(Some(JArr(items)))
    requires W.REWRITE_BATCH_SIZE * k < |targets|
    requires service(k, W.Texts(W.Batch(targets, k))) == Some(S.Stringify(items))
    requires |items| != |W.Batch(targets, k)|
    ensures S.RewriteWithOpenAI(texts, env, chat, parseJson) == Err(S.INVALID_COUNT)
    ensures var repaired := E.RepairSegments(S.StringsToJson(texts), items);
      && repaired.Ok? && |repaired.value| == |texts|
      && (|items| < |texts| ==> repaired.value[..|items|] == items)
      && (|items| > |texts| ==> repaired.value == items[..|texts|])
    ensures !W.BatchAccepted(service, targets, k) && !W.AllAccepted(service, targets)
  {
    var segments := S.StringsToJson(texts);
    assert forall i :: |items| <= i < |segments| ==> segments[i].JStr?;
  }

  /** A reply of the right length made of strings: the local server and the
      hosted function hand back the very same segments. */
  lemma RightCountPolicies(texts: seq<string>, items: seq<Json>, env: S.ServerEnv, chat: S.Chat, parseJson: string -> Option<Json>)
    requires |items| == |texts| && forall i :: 0 <= i < |items| ==> items[i].JStr?
    requires S.KeySet(env.apiKey) && SegmentsField(chat(texts), "OpenAI", parseJson) == Ok(Some(JArr(items)))
    ensures S.RewriteWithOpenAI(texts, env, chat, parseJson).Ok?
    ensures E.RepairSegments(S.StringsToJson(texts), items) == Ok(items)
    ensures S.StringsToJson(S.RewriteWithOpenAI(texts, env, chat, parseJson).value) == items
  {
    ServerKeepsRightCount(texts, items, env, chat, parseJson);
    EdgeKeepsRightCount(texts, items);
  }

  /** The hosted function's repair leaves a right-length reply alone. */
  lemma EdgeKeepsRightCount(texts: seq<string>, items: seq<Json>)
    requires |items| == |texts|
    ensures E.RepairSegments(S.StringsToJson(texts), items) == Ok(items)
  {
    assert |S.StringsToJson(texts)| == |items|;
  }

  /** The local server passes a right-length reply of strings through unchanged. */
  lemma ServerKeepsRightCount(texts: seq<string>, items: seq<Json>, env: S.ServerEnv, chat: S.Chat, parseJson: string -> Option<Json>)
    requires |items| == |texts| && forall i :: 0 <= i < |items| ==> items[i].JStr?
    requires S.KeySet(env.apiKey) && SegmentsField(chat(texts), "OpenAI", parseJson) == Ok(Some(JArr(items)))
    ensures S.RewriteWithOpenAI(texts, env, chat, parseJson) == Ok(S.Stringify(items))
    ensures S.StringsToJson(S.Stringify(items)) == items
  {
    JsonStrings(items);
  }

  /** JSON strings survive `String` and the way back. */
  lemma JsonStrings(items: seq<Json>)
    requires forall i :: 0 <= i < |items| ==> items[i].JStr?
    ensures S.StringsToJson(S.Stringify(items)) == items
  {
    var back := S.StringsToJson(S.Stringify(items));
    assert |back| == |items|;
    forall i | 0 <= i < |items| ensures back[i] == items[i] {
      assert back[i] == JStr(ToJsString(items[i]));
    }
  }

  // ---------------------------------------------------------------------------
  // Which text nodes are rewritten

  /** Every tag and class the batch script skips, the client skips too. */
  lemma BulkSkipsAreClientSkips(className: W.ClassName)
    ensures B.BULK_SKIP_TAGS <= W.SKIP_TEXT_TAGS
    ensures W.HasSkipClass(className, B.BULK_SKIP_CLASSES) ==> W.HasSkipClass(className, W.SKIP_CLASS_HINTS)
  {
    if W.HasSkipClass(className, B.BULK_SKIP_CLASSES) {
      var h :| h in B.BULK_SKIP_CLASSES && Contains(className.value, h);
      assert h in W.SKIP_CLASS_HINTS;
    }
  }

  /** A node the client rewrites is also taken by the batch script when its
      trimmed text is longer than three characters and its parent's class is
      a string. */
  lemma ClientNodeIsBulkNode(n: W.TextNode)
    requires W.Qualifies(n) && |Trim(n.value)| > 3 && n.parent.value.className.ClassString?
    ensures B.BulkQualifies(n)
  {
    BulkSkipsAreClientSkips(n.parent.value.className);
  }

  /** Under an SVG element the client rewrites a qualifying text, while the
      batch script throws on it. */
  lemma AnimatedClassPolicies(n: W.TextNode)
    requires W.Qualifies(n) && |Trim(n.value)| > 3 && n.parent.value.className.ClassAnimated?
    ensures B.BulkThrows(n)
  {
  }

  /** A three-letter word is rewritten by the client only. */
  lemma ShortWordClientOnly()
    ensures W.Qualifies(W.TextNode(Some(W.Element("P", W.ClassString(""))), "abc"))
    ensures !B.BulkQualifies(W.TextNode(Some(W.Element("P", W.ClassString(""))), "abc"))
  {
    var s := "abc";
    assert LeadingSpaces(s) == 0 && TrailingSpaces(s) == 0;
    assert Trim(s) == s;
    assert W.ThreeLettersAt(s, 0);
    assert !W.HasSkipClass(W.ClassString(""), W.SKIP_CLASS_HINTS);
  }

  /** A run of digits is rewritten by the batch script only. */
  lemma DigitsBulkOnly()
    ensures B.BulkQualifies(W.TextNode(Some(W.Element("P", W.ClassString(""))), "1234"))
    ensures !W.Qualifies(W.TextNode(Some(W.Element("P", W.ClassString(""))), "1234"))
  {
    var s := "1234";
    assert LeadingSpaces(s) == 0 && TrailingSpaces(s) == 0;
    assert Trim(s) == s;
    assert !W.HasSkipClass(W.ClassString(""), B.BULK_SKIP_CLASSES);
    assert !W.ThreeLettersAt(s, 0) && !W.ThreeLettersAt(s, 1);
    assert !W.HasLetterRunFrom(s, 2);
  }

  // ---------------------------------------------------------------------------
  // Links

  /** On article links the two rules agree (the batch script only knows the
      English edition); other site-relative links are made absolute by the
      client only. */
  lemma LinkPolicies(href: string)
    ensures StartsWith(href, W.WIKI_PREFIX) ==> B.BulkLink(Some(href)) == Some(W.AbsoluteLink(href, "en"))
    ensures StartsWith(href, "/") && !StartsWith(href, W.WIKI_PREFIX) ==>
      B.BulkLink(Some(href)) == Some(href) && W.AbsoluteLink(href, "en") != href
  {
    assert "https://" + "en" + ".wikipedia.org" == "https://en.wikipedia.org";
    if StartsWith(href, W.WIKI_PREFIX) {
      assert !StartsWith(href, "//") by {
        assert href[1] == 'w';
      }
    }
  }
}
