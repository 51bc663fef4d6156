/** The browser side of the article pipeline: the Wikipedia URL check, the link
    rewriting of the fetched article, the choice of text nodes to rewrite, the
    batched calls to the rewrite service and the local fallback rewriter.

    The document is an array of text-node records in document order; a node's
    position in the array is its handle. The rewrite service is a function of
    the batch number and the texts sent, answering `None` for a failed call
    (a non-2xx status, a body without a `segments` array, or a thrown error). */
module Wikipedia {
  import opened Wrappers
  import opened JsText
  import opened Chunking

  // ---------------------------------------------------------------------------
  // URL validation and canonicalisation

  /** The parts of a URL the code reads after `new URL(...)`. */
  datatype Url = Url(hostname: string, pathname: string)

  /** The platform functions the URL check relies on: the URL parser (`None`
      when `new URL` throws), `decodeURIComponent` (`None` when it throws a
      URIError) and `encodeURIComponent`. */
  datatype UrlCodec = UrlCodec(
    parse: string -> Option<Url>,
    decode: string -> Option<string>,
    encode: string -> string)

  datatype ParsedWikipediaUrl = ParsedWikipediaUrl(lang: string, title: string, canonicalUrl: string)

  const EMPTY_INPUT := "Paste a Wikipedia article URL."
  const INVALID_URL := "Enter a valid URL."
  const NOT_WIKIPEDIA := "URL must be from wikipedia.org."
  const NOT_LANGUAGE_EDITION := "Use a language Wikipedia URL (example: en.wikipedia.org)."
  const MALFORMED_URI := "URI malformed"
  const NOT_ARTICLE_PATH := "Paste a direct article URL like https://en.wikipedia.org/wiki/Article_Title."
  const NOT_STANDARD_PAGE := "Only standard article pages are supported in this MVP."
  const WIKI_PREFIX := "/wiki/"

  function LowerAsciiString(s: string): (r: string)
    ensures |r| == |s| && forall k :: 0 <= k < |s| ==> r[k] == LowerAscii(s[k])
  {
    if s == [] then [] else [LowerAscii(s[0])] + LowerAsciiString(s[1..])
  }

  /** The dot-separated labels of the lower-cased host name. */
  function HostLabels(url: Url): seq<string> {
    Split(LowerAsciiString(url.hostname), '.')
  }

  /** `.replace(/%2F/g, '/')`: never longer, and text without `%` is left as it is. */
  function RestoreSlashes(s: string): (r: string)
    ensures |r| <= |s|
    ensures '%' !in s ==> r == s
  {
    if |s| < 3 then s
    else if s[..3] == "%2F" then assert s[0] == s[..3][0]; "/" + RestoreSlashes(s[3..])
    else [s[0]] + RestoreSlashes(s[1..])
  }

  /** The inverse direction: every `/` written as `%2F`, leaving none. */
  function EscapeSlashes(s: string): (r: string)
    ensures '/' !in r
  {
    if s == [] then []
    else if s[0] == '/' then "%2F" + EscapeSlashes(s[1..])
    else [s[0]] + EscapeSlashes(s[1..])
  }

  /** On text free of `/`, as `encodeURIComponent` produces, turning `%2F` back
      into `/` loses nothing: escaping the slashes again restores the text. */
  lemma {:induction false} RestoreSlashesRoundTrip(s: string)
    requires '/' !in s
    ensures EscapeSlashes(RestoreSlashes(s)) == s
  {
    if |s| < 3 {
      SlashFreeEscape(s);
    } else if s[..3] == "%2F" {
      var rest := RestoreSlashes(s[3..]);
      assert '/' !in s[3..];
      RestoreSlashesRoundTrip(s[3..]);
      assert RestoreSlashes(s) == "/" + rest;
      assert ("/" + rest)[1..] == rest;
      assert EscapeSlashes("/" + rest) == "%2F" + EscapeSlashes(rest);
      assert s == "%2F" + s[3..];
    } else {
      var rest := RestoreSlashes(s[1..]);
      assert '/' !in s[1..];
      RestoreSlashesRoundTrip(s[1..]);
      assert RestoreSlashes(s) == [s[0]] + rest;
      assert ([s[0]] + rest)[1..] == rest;
      assert EscapeSlashes([s[0]] + rest) == [s[0]] + EscapeSlashes(rest);
      assert s == [s[0]] + s[1..];
    }
  }

  lemma {:induction false} SlashFreeEscape(s: string)
    requires '/' !in s
    ensures EscapeSlashes(s) == s
  {
    if s != [] {
      assert '/' !in s[1..];
      SlashFreeEscape(s[1..]);
      assert s == [s[0]] + s[1..];
    }
  }

  /** The article URL on the language edition: the encoded title follows
      `/wiki/`, with encoded slashes turned back into `/`. */
  function CanonicalUrl(lang: string, title: string, codec: UrlCodec): (r: string)
    ensures StartsWith(r, "https://" + lang + ".wikipedia.org" + WIKI_PREFIX)
    ensures |r| <= |"https://" + lang + ".wikipedia.org" + WIKI_PREFIX| + |codec.encode(title)|
    ensures '%' !in codec.encode(title) ==> r == "https://" + lang + ".wikipedia.org" + WIKI_PREFIX + codec.encode(title)
  {
    "https://" + lang + ".wikipedia.org" + WIKI_PREFIX + RestoreSlashes(codec.encode(title))
  }

  /** Every check of `parseWikipediaUrl` passes: a URL whose lower-cased host
      ends in `wikipedia.org` below a non-empty label other than `www`, whose
      decoded path is `/wiki/` followed by a title without `:`. */
  predicate IsArticleUrl(input: string, codec: UrlCodec) {
    && Trim(input) != ""
    && codec.parse(Trim(input)).Some?
    && var url := codec.parse(Trim(input)).value;
    && var labels := HostLabels(url);
    && |labels| >= 3 && labels[|labels| - 2] == "wikipedia" && labels[|labels| - 1] == "org"
    && labels[0] != "" && labels[0] != "www"
    && codec.decode(url.pathname).Some?
    && var path := codec.decode(url.pathname).value;
    && StartsWith(path, WIKI_PREFIX) && |path| > |WIKI_PREFIX|
    && ':' !in path[|WIKI_PREFIX|..]
  }

  /** `parseWikipediaUrl`: a chain of rejections, each with its own message,
      then the language, the title and the canonical URL. */
  function ParseWikipediaUrl(input: string, codec: UrlCodec): (r: Result<ParsedWikipediaUrl, string>)
    ensures Trim(input) == "" <==> r == Err(EMPTY_INPUT)
    ensures Trim(input) != "" && codec.parse(Trim(input)).None? ==> r == Err(INVALID_URL)
    ensures r.Ok? ==>
      && codec.parse(Trim(input)).Some?
      && var url := codec.parse(Trim(input)).value;
      && var labels := HostLabels(url);
      && |labels| >= 3 && labels[|labels| - 2] == "wikipedia" && labels[|labels| - 1] == "org"
      && r.value.lang == labels[0] && r.value.lang != "" && r.value.lang != "www"
      && codec.decode(url.pathname) == Some(WIKI_PREFIX + r.value.title)
      && r.value.title != "" && ':' !in r.value.title
      && r.value.canonicalUrl == CanonicalUrl(r.value.lang, r.value.title, codec)
    ensures IsArticleUrl(input, codec) ==> r.Ok?
  {
    var trimmed := Trim(input);
    if trimmed == "" then Err(EMPTY_INPUT)
    else match codec.parse(trimmed)
      case None => Err(INVALID_URL)
      case Some(url) =>
        var labels := HostLabels(url);
        if |labels| < 3 || labels[|labels| - 2] != "wikipedia" || labels[|labels| - 1] != "org" then Err(NOT_WIKIPEDIA)
        else
          var lang := labels[0];
          if lang == "" || lang == "www" then Err(NOT_LANGUAGE_EDITION)
          else match codec.decode(url.pathname)
            case None => Err(MALFORMED_URI)
            case Some(pathname) =>
              if !StartsWith(pathname, WIKI_PREFIX) || |pathname| <= |WIKI_PREFIX| then Err(NOT_ARTICLE_PATH)
              else
                var title := pathname[|WIKI_PREFIX|..];
                assert pathname == WIKI_PREFIX + title;
                if title == "" || ':' in title then Err(NOT_STANDARD_PAGE)
                else Ok(ParsedWikipediaUrl(lang, title, CanonicalUrl(lang, title, codec)))
  }

  // ---------------------------------------------------------------------------
  // href/src rewriting in normalizeWikipediaHtml

  /** Protocol-relative links get `https:`; site-relative links get the
      language edition's origin; anything else is left alone. */
  function AbsoluteLink(value: string, lang: string): (r: string)
    ensures StartsWith(value, "//") ==> r == "https:" + value
    ensures !StartsWith(value, "//") && StartsWith(value, "/") ==> r == "https://" + lang + ".wikipedia.org" + value
    ensures !StartsWith(value, "/") ==> r == value
    ensures |r| >= |value| && r[|r| - |value|..] == value
  {
    if StartsWith(value, "//") then "https:" + value
    else if StartsWith(value, "/") then "https://" + lang + ".wikipedia.org" + value
    else value
  }

  /** Rewriting a link twice is the same as rewriting it once. */
  lemma AbsoluteLinkIdempotent(value: string, lang: string)
    ensures AbsoluteLink(AbsoluteLink(value, lang), lang) == AbsoluteLink(value, lang)
  {
    var r := AbsoluteLink(value, lang);
    if StartsWith(value, "/") {
      assert r[0] == 'h';
    }
  }

  /** The `href` and `src` attributes of one element (`None` when absent). */
  datatype LinkAttributes = LinkAttributes(href: Option<string>, src: Option<string>)

  /** `if (attr) { ... }`: an absent or empty attribute is not touched. */
  function NormalizeAttribute(attr: Option<string>, lang: string): Option<string> {
    match attr
    case Some(v) => if v != "" then Some(AbsoluteLink(v, lang)) else attr
    case None => None
  }

  /** The loop over all elements of the parsed article, in place. */
  method NormalizeLinks(elements: array<LinkAttributes>, lang: string)
    modifies elements
    ensures forall i :: 0 <= i < elements.Length ==>
      elements[i] == LinkAttributes(NormalizeAttribute(old(elements[i].href), lang), NormalizeAttribute(old(elements[i].src), lang))
  {
    for i := 0 to elements.Length
      invariant forall k :: 0 <= k < i ==>
        elements[k] == LinkAttributes(NormalizeAttribute(old(elements[k].href), lang), NormalizeAttribute(old(elements[k].src), lang))
      invariant forall k :: i <= k < elements.Length ==> elements[k] == old(elements[k])
    {
      var el := elements[i];
      elements[i] := LinkAttributes(NormalizeAttribute(el.href, lang), NormalizeAttribute(el.src, lang));
    }
  }

  // ---------------------------------------------------------------------------
  // Which text nodes are rewritten

  /** `className` is a string for HTML elements and an SVGAnimatedString for SVG ones. */
  datatype ClassName = ClassString(value: string) | ClassAnimated

  datatype Element = Element(tagName: string, className: ClassName)

  /** A text node: its parent element (if any) and its `nodeValue`. */
  datatype TextNode = TextNode(parent: Option<Element>, value: string)

  const SKIP_TEXT_TAGS: set<string> := {"SCRIPT", "STYLE", "NOSCRIPT", "CODE", "PRE", "MATH", "KBD", "SAMP", "SVG"}
  const SKIP_CLASS_HINTS: seq<string> := ["reference", "reflist", "mw-editsection", "navbox", "toc", "metadata", "infobox-above"]

  predicate IsAsciiLetter(c: char) {
    ('a' <= c <= 'z') || ('A' <= c <= 'Z')
  }

  predicate ThreeLettersAt(s: string, i: nat) {
    i + 3 <= |s| && IsAsciiLetter(s[i]) && IsAsciiLetter(s[i + 1]) && IsAsciiLetter(s[i + 2])
  }

  /** `/[A-Za-z]{3,}/.test(s)` from index `i` on. */
  function HasLetterRunFrom(s: string, i: nat): (b: bool)
    ensures b <==> exists k: nat :: i <= k && ThreeLettersAt(s, k)
    decreases |s| - i
  {
    if i + 3 > |s| then false
    else ThreeLettersAt(s, i) || HasLetterRunFrom(s, i + 1)
  }

  predicate HasLetterRun(s: string) {
    HasLetterRunFrom(s, 0)
  }

  /** A text with a run of three letters is never blank, so the first check of
      `shouldRewriteNode` never decides anything the second would not. */
  lemma LetterRunIsNotBlank(s: string)
    requires HasLetterRun(s)
    ensures Trim(s) != ""
  {
    var k: nat :| ThreeLettersAt(s, k);
    assert !IsSpace(s[k]);
  }

  predicate HasSkipClass(className: ClassName, hints: seq<string>) {
    className.ClassString? && exists h :: h in hints && Contains(className.value, h)
  }

  /** `shouldRewriteNode`. */
  function ShouldRewriteNode(parent: Element, text: string): (b: bool)
    ensures b <==>
      && Trim(text) != ""
      && (exists k: nat :: ThreeLettersAt(text, k))
      && parent.tagName !in SKIP_TEXT_TAGS
      && !HasSkipClass(parent.className, SKIP_CLASS_HINTS)
  {
    if Trim(text) == "" then false
    else if !HasLetterRun(text) then false
    else if parent.tagName in SKIP_TEXT_TAGS then false
    else if HasSkipClass(parent.className, SKIP_CLASS_HINTS) then false
    else true
  }

  predicate Qualifies(n: TextNode) {
    n.parent.Some? && ShouldRewriteNode(n.parent.value, n.value)
  }

  /** A node to rewrite and its text at collection time. */
  datatype Target = Target(node: nat, text: string)

  /** Handles that can be written through: in range and in strictly increasing
      order, hence pairwise distinct. */
  predicate ValidTargets(targets: seq<Target>, length: nat) {
    && (forall t :: 0 <= t < |targets| ==> targets[t].node < length)
    && (forall s, t :: 0 <= s < t < |targets| ==> targets[s].node < targets[t].node)
  }

  predicate IsTargetNode(targets: seq<Target>, x: nat) {
    exists t :: 0 <= t < |targets| && targets[t].node == x
  }

  /** The text nodes `keep` accepts, in document order, each with the text it
      had: what a tree walk that pushes every accepted node collects. */
  function SelectTargets(nodes: seq<TextNode>, keep: TextNode -> bool): (targets: seq<Target>)
    ensures ValidTargets(targets, |nodes|)
  {
    if nodes == [] then []
    else
      var n := |nodes| - 1;
      var before := SelectTargets(nodes[..n], keep);
      if keep(nodes[n]) then before + [Target(n, nodes[n].value)] else before
  }

  /** Selecting over one more node appends it when it is accepted. */
  lemma SelectTargetsStep(nodes: seq<TextNode>, keep: TextNode -> bool, i: nat)
    requires i < |nodes|
    ensures SelectTargets(nodes[..i + 1], keep) ==
      if keep(nodes[i]) then SelectTargets(nodes[..i], keep) + [Target(i, nodes[i].value)] else SelectTargets(nodes[..i], keep)
  {
    assert nodes[..i + 1][..i] == nodes[..i];
  }

  /** Every selected node is accepted and carries its node's text. */
  lemma {:induction false} SelectTargetsSound(nodes: seq<TextNode>, keep: TextNode -> bool)
    ensures forall t :: 0 <= t < |SelectTargets(nodes, keep)| ==>
      && keep(nodes[SelectTargets(nodes, keep)[t].node])
      && SelectTargets(nodes, keep)[t].text == nodes[SelectTargets(nodes, keep)[t].node].value
  {
    if nodes != [] {
      var n := |nodes| - 1;
      var prefix := nodes[..n];
      SelectTargetsSound(prefix, keep);
      var before := SelectTargets(prefix, keep);
      var targets := SelectTargets(nodes, keep);
      forall t | 0 <= t < |targets|
        ensures keep(nodes[targets[t].node]) && targets[t].text == nodes[targets[t].node].value
      {
        if t < |before| {
          assert targets[t] == before[t];
          assert keep(prefix[before[t].node]);
          assert nodes[before[t].node] == prefix[before[t].node];
        } else {
          assert keep(nodes[n]) && targets == before + [Target(n, nodes[n].value)];
        }
      }
    }
  }

  /** Every accepted node is selected. */
  lemma {:induction false} SelectTargetsComplete(nodes: seq<TextNode>, keep: TextNode -> bool)
    ensures forall x :: 0 <= x < |nodes| && keep(nodes[x]) ==> IsTargetNode(SelectTargets(nodes, keep), x)
  {
    if nodes != [] {
      var n := |nodes| - 1;
      var prefix := nodes[..n];
      SelectTargetsComplete(prefix, keep);
      var before := SelectTargets(prefix, keep);
      var targets := SelectTargets(nodes, keep);
      forall x | 0 <= x < |nodes| && keep(nodes[x]) ensures IsTargetNode(targets, x) {
        if x == n {
          assert targets[|targets| - 1].node == n;
        } else {
          assert prefix[x] == nodes[x];
          var t :| 0 <= t < |before| && before[t].node == x;
          assert targets[t].node == x;
        }
      }
    }
  }

  /** What `collectRewriteTargets` returns. */
  function RewriteTargets(nodes: seq<TextNode>): seq<Target> {
    SelectTargets(nodes, Qualifies)
  }

  /** `collectRewriteTargets`: the tree walk as a loop over the text nodes. */
  method CollectRewriteTargets(doc: array<TextNode>) returns (targets: seq<Target>)
    ensures targets == RewriteTargets(doc[..])
  {
    targets := [];
    var i := 0;
    while i < doc.Length
      invariant 0 <= i <= doc.Length
      invariant targets == RewriteTargets(doc[..i])
    {
      assert doc[..i + 1][..i] == doc[..i];
      var node := doc[i];
      if node.parent.Some? && ShouldRewriteNode(node.parent.value, node.value) {
        targets := targets + [Target(i, node.value)];
      }
      i := i + 1;
    }
    assert doc[..i] == doc[..];
  }

  // ---------------------------------------------------------------------------
  // Batched calls to the rewrite service

  const REWRITE_BATCH_SIZE: nat := 40

  /** The service: batch number and texts sent, to the texts returned. */
  type RewriteService = (nat, seq<string>) -> Option<seq<string>>

  function Texts(targets: seq<Target>): (r: seq<string>)
    ensures |r| == |targets| && forall t :: 0 <= t < |r| ==> r[t] == targets[t].text
  {
    if targets == [] then [] else Texts(targets[..|targets| - 1]) + [targets[|targets| - 1].text]
  }

  /** The number of the batch that carries target t. */
  function BatchOf(t: nat): nat {
    t / REWRITE_BATCH_SIZE
  }

  lemma BatchOfBounds()
    ensures forall t: nat :: REWRITE_BATCH_SIZE * BatchOf(t) <= t < REWRITE_BATCH_SIZE * BatchOf(t) + REWRITE_BATCH_SIZE
  {
  }

  /** `targets.slice(i, i + 40)` for the k-th batch. */
  function Batch(targets: seq<Target>, k: nat): seq<Target>
    requires REWRITE_BATCH_SIZE * k <= |targets|
  {
    targets[REWRITE_BATCH_SIZE * k..Min(REWRITE_BATCH_SIZE * k + REWRITE_BATCH_SIZE, |targets|)]
  }

  /** The service answered batch k with as many texts as were sent. */
  predicate BatchAccepted(service: RewriteService, targets: seq<Target>, k: nat) {
    && REWRITE_BATCH_SIZE * k < |targets|
    && var reply := service(k, Texts(Batch(targets, k)));
    && reply.Some? && |reply.value| == |Batch(targets, k)|
  }

  /** Batches 0 .. k - 1 were all accepted. */
  predicate AcceptedBefore(service: RewriteService, targets: seq<Target>, k: nat) {
    forall b :: 0 <= b < k && REWRITE_BATCH_SIZE * b < |targets| ==> BatchAccepted(service, targets, b)
  }

  predicate AllAccepted(service: RewriteService, targets: seq<Target>) {
    AcceptedBefore(service, targets, |targets|)
  }

  /** The service's text for the target at position t. */
  function ServiceText(service: RewriteService, targets: seq<Target>, t: nat): string
    requires t < |targets| && BatchAccepted(service, targets, BatchOf(t))
  {
    BatchOfBounds();
    var k := BatchOf(t);
    service(k, Texts(Batch(targets, k))).value[t - REWRITE_BATCH_SIZE * k]
  }

  /** `cur` differs from `prev` only in the texts of targets lo .. lo + |texts| - 1,
      which hold `texts` in order. */
  predicate BatchWritten(prev: seq<TextNode>, cur: seq<TextNode>, targets: seq<Target>, lo: nat, texts: seq<string>)
    requires ValidTargets(targets, |prev|) && lo + |texts| <= |targets|
  {
    && |cur| == |prev|
    && (forall x :: 0 <= x < |cur| ==> cur[x].parent == prev[x].parent)
    && (forall x :: 0 <= x < |cur| && !IsTargetNode(targets, x) ==> cur[x] == prev[x])
    && (forall t :: 0 <= t < |targets| && !(lo <= t < lo + |texts|) ==> cur[targets[t].node] == prev[targets[t].node])
    && (forall t :: lo <= t < lo + |texts| ==> cur[targets[t].node].value == texts[t - lo])
  }

  /** The inner loop of `applyLlmRewrite`: target lo + j gets texts[j]. */
  method WriteBatch(doc: array<TextNode>, targets: seq<Target>, lo: nat, texts: seq<string>)
    requires ValidTargets(targets, doc.Length) && lo + |texts| <= |targets|
    modifies doc
    ensures BatchWritten(old(doc[..]), doc[..], targets, lo, texts)
  {
    for j := 0 to |texts|
      invariant BatchWritten(old(doc[..]), doc[..], targets, lo, texts[..j])
    {
      var x := targets[lo + j].node;
      doc[x] := doc[x].(value := texts[j]);
    }
    assert texts[..|texts|] == texts;
  }

  /** After the batches before `written`'s batch: the first `written` targets
      hold the service's texts, the others and every non-target are as in `orig`. */
  predicate LlmProgress(orig: seq<TextNode>, cur: seq<TextNode>, service: RewriteService, targets: seq<Target>, written: nat)
    requires ValidTargets(targets, |orig|) && written <= |targets|
  {
    && |cur| == |orig|
    && (forall x :: 0 <= x < |cur| ==> cur[x].parent == orig[x].parent)
    && (forall x :: 0 <= x < |cur| && !IsTargetNode(targets, x) ==> cur[x] == orig[x])
    && (forall t :: 0 <= t < written ==>
          BatchAccepted(service, targets, BatchOf(t)) && cur[targets[t].node].value == ServiceText(service, targets, t))
    && (forall t :: written <= t < |targets| ==> cur[targets[t].node] == orig[targets[t].node])
  }

  /** Writing an accepted batch k extends the progress by that batch. */
  lemma LlmProgressStep(orig: seq<TextNode>, prev: seq<TextNode>, cur: seq<TextNode>,
                        service: RewriteService, targets: seq<Target>, k: nat)
    requires ValidTargets(targets, |orig|) && BatchAccepted(service, targets, k)
    requires LlmProgress(orig, prev, service, targets, REWRITE_BATCH_SIZE * k)
    requires BatchWritten(prev, cur, targets, REWRITE_BATCH_SIZE * k, service(k, Texts(Batch(targets, k))).value)
    ensures LlmProgress(orig, cur, service, targets, Min(REWRITE_BATCH_SIZE * k + REWRITE_BATCH_SIZE, |targets|))
  {
    BatchOfBounds();
    var lo := REWRITE_BATCH_SIZE * k;
    var hi := Min(lo + REWRITE_BATCH_SIZE, |targets|);
    forall t | lo <= t < hi
      ensures BatchAccepted(service, targets, BatchOf(t))
      ensures cur[targets[t].node].value == ServiceText(service, targets, t)
    {
      assert BatchOf(t) == k;
    }
  }

  lemma AcceptedBeforeNext(service: RewriteService, targets: seq<Target>, k: nat)
    requires AcceptedBefore(service, targets, k) && BatchAccepted(service, targets, k)
    ensures AcceptedBefore(service, targets, k + 1)
  {
  }

  /** Stopping at a rejected batch k: the run as a whole is not accepted, the
      targets before batch k belong to accepted batches and those from it on
      do not. */
  lemma StopAtRejectedBatch(service: RewriteService, targets: seq<Target>, k: nat)
    requires AcceptedBefore(service, targets, k)
    requires REWRITE_BATCH_SIZE * k < |targets| && !BatchAccepted(service, targets, k)
    ensures !AllAccepted(service, targets)
    ensures forall t :: 0 <= t < REWRITE_BATCH_SIZE * k ==> AcceptedBefore(service, targets, BatchOf(t) + 1)
    ensures forall t :: REWRITE_BATCH_SIZE * k <= t < |targets| ==> !AcceptedBefore(service, targets, BatchOf(t) + 1)
  {
    BatchOfBounds();
  }

  /** Running past the last batch with all accepted: every target's batch is accepted. */
  lemma AllBatchesAccepted(service: RewriteService, targets: seq<Target>, k: nat)
    requires AcceptedBefore(service, targets, k) && |targets| <= REWRITE_BATCH_SIZE * k
    ensures AllAccepted(service, targets)
    ensures forall t :: 0 <= t < |targets| ==> AcceptedBefore(service, targets, BatchOf(t) + 1)
  {
    BatchOfBounds();
  }

  /** What `applyLlmRewrite` leaves behind: `ok` exactly when every batch was
      accepted; targets in a batch accepted before the first rejection hold
      the service's text for their position, the other targets, every
      non-target and every parent are as in `orig`. */
  predicate LlmOutcome(orig: seq<TextNode>, cur: seq<TextNode>, service: RewriteService, targets: seq<Target>, ok: bool)
    requires ValidTargets(targets, |orig|)
  {
    && |cur| == |orig|
    && (ok <==> AllAccepted(service, targets))
    && (forall x :: 0 <= x < |cur| ==> cur[x].parent == orig[x].parent)
    && (forall x :: 0 <= x < |cur| && !IsTargetNode(targets, x) ==> cur[x] == orig[x])
    && (forall t :: 0 <= t < |targets| && AcceptedBefore(service, targets, BatchOf(t) + 1) ==>
          BatchAccepted(service, targets, BatchOf(t)) && cur[targets[t].node].value == ServiceText(service, targets, t))
    && (forall t :: 0 <= t < |targets| && !AcceptedBefore(service, targets, BatchOf(t) + 1) ==>
          cur[targets[t].node] == orig[targets[t].node])
  }

  /** `applyLlmRewrite`: batches of 40 in order. It stops with `false` at the
      first batch the service fails or answers with the wrong number of texts;
      the batches before it stay written. It returns `true` exactly when every
      batch was accepted, and then every target holds the service's text for
      its position. Nothing but target texts changes. */
  method ApplyLlmRewrite(doc: array<TextNode>, targets: seq<Target>, service: RewriteService) returns (ok: bool)
    requires ValidTargets(targets, doc.Length)
    modifies doc
    ensures LlmOutcome(old(doc[..]), doc[..], service, targets, ok)
  {
    ghost var orig := doc[..];
    var n := |targets|;
    var i := 0;
    var k := 0;
    while i < n
      invariant i == REWRITE_BATCH_SIZE * k
      invariant AcceptedBefore(service, targets, k)
      invariant LlmProgress(orig, doc[..], service, targets, Min(i, n))
    {
      var batch := Batch(targets, k);
      var reply := service(k, Texts(batch));
      if reply.None? || |reply.value| != |batch| {
        StopAtRejectedBatch(service, targets, k);
        return false;
      }
      ghost var prev := doc[..];
      WriteBatch(doc, targets, i, reply.value);
      LlmProgressStep(orig, prev, doc[..], service, targets, k);
      AcceptedBeforeNext(service, targets, k);
      i := i + REWRITE_BATCH_SIZE;
      k := k + 1;
    }
    AllBatchesAccepted(service, targets, k);
    return true;
  }

  // ---------------------------------------------------------------------------
  // The local fallback rewriter

  datatype Substitution = Substitution(word: string, replacement: string)

  /** The eight whole-word, case-insensitive substitutions, in the order applied. */
  const HEURISTIC_SUBSTITUTIONS: seq<Substitution> := [
    Substitution("very", "tremendous"),
    Substitution("important", "very important, believe me"),
    Substitution("successful", "incredibly successful"),
    Substitution("many", "so many"),
    Substitution("widely", "very widely"),
    Substitution("according to", "according to many people"),
    Substitution("notable", "highly notable"),
    Substitution("strong", "strong, really strong")
  ]

  predicate ValidSubstitutions(subs: seq<Substitution>) {
    forall i :: 0 <= i < |subs| ==> subs[i].word != [] && |subs[i].replacement| >= |subs[i].word|
  }

  /** `output.replace(/\bword\b/gi, replacement)`: no change without a
      whole-word match, and no shortening by a replacement at least as long
      as the word. */
  function ApplySubstitution(s: string, sub: Substitution): (r: string)
    requires sub.word != []
    ensures (forall k :: 0 <= k < |s| ==> !WordMatchAt(s, k, sub.word)) ==> r == s
    ensures |sub.replacement| >= |sub.word| ==> |r| >= |s|
  {
    ReplaceWords(s, [sub.word], (m: string) => sub.replacement)
  }

  /** The substitutions applied one after the other, each once over the
      whole text; every substitution lengthens what it replaces, so the text
      never gets shorter. */
  function Substitute(s: string, subs: seq<Substitution>): (r: string)
    requires ValidSubstitutions(subs)
    ensures |r| >= |s|
  {
    if subs == [] then s
    else ApplySubstitution(Substitute(s, subs[..|subs| - 1]), subs[|subs| - 1])
  }

  /** A text with no whole-word occurrence of any substituted word is left as it is. */
  lemma {:induction false} SubstituteNoMatch(s: string, subs: seq<Substitution>)
    requires ValidSubstitutions(subs)
    requires forall i, k :: 0 <= i < |subs| && 0 <= k < |s| ==> !WordMatchAt(s, k, subs[i].word)
    ensures Substitute(s, subs) == s
  {
    if subs != [] {
      var init := subs[..|subs| - 1];
      SubstituteNoMatch(s, init);
      var last := subs[|subs| - 1];
      assert forall k :: 0 <= k < |s| ==> !WordMatchAt(s, k, last.word);
    }
  }

  /** The condition for the `Folks, ` prefix on the trimmed text. */
  predicate FolksPrefixApplies(trimmed: string) {
    |trimmed| > 90 && 'A' <= trimmed[0] <= 'Z' && !StartsWith(trimmed, "Folks,")
  }

  /** `heuristicRewrite` exactly as written: the prefix is added with
      `output.replace(trimmed, `Folks, ${trimmed}`)`, whose second argument is a
      replacement pattern, so `$$`, `$&`, `` $` `` and `$'` in the text are
      expanded rather than copied. */
  function HeuristicAsWritten(input: string): (r: string)
    ensures Trim(input) == "" ==> r == input
    ensures Trim(input) != "" && !FolksPrefixApplies(Trim(input)) ==> r == Substitute(input, HEURISTIC_SUBSTITUTIONS)
    ensures Trim(input) != "" && IndexOfFrom(Substitute(input, HEURISTIC_SUBSTITUTIONS), Trim(input), 0).None? ==>
      r == Substitute(input, HEURISTIC_SUBSTITUTIONS)
  {
    var trimmed := Trim(input);
    if trimmed == "" then input
    else
      var output := Substitute(input, HEURISTIC_SUBSTITUTIONS);
      if FolksPrefixApplies(trimmed) then ReplaceFirst(output, trimmed, "Folks, " + trimmed)
      else output
  }

  /** Inserts `Folks, ` before the first occurrence of `trimmed`, copying the
      text literally; unchanged when `trimmed` does not occur. */
  function PrefixFirst(output: string, trimmed: string): (r: string)
    ensures |r| == |output| || |r| == |output| + 7
    ensures r == output <==> IndexOfFrom(output, trimmed, 0).None?
  {
    match IndexOfFrom(output, trimmed, 0)
    case None => output
    case Some(p) => output[..p] + "Folks, " + output[p..]
  }

  /** `heuristicRewrite` with the prefix copied literally, as evidently intended:
      blank input is returned as it is; otherwise the eight substitutions are
      applied in order and then, for a long capitalised text not already
      starting with `Folks,`, `Folks, ` is inserted before the first occurrence
      of the trimmed original text. */
  function Heuristic(input: string): (r: string)
    ensures Trim(input) == "" ==> r == input
    ensures |r| >= |input|
  {
    var trimmed := Trim(input);
    if trimmed == "" then input
    else
      var output := Substitute(input, HEURISTIC_SUBSTITUTIONS);
      if FolksPrefixApplies(trimmed) then PrefixFirst(output, trimmed)
      else output
  }

  /** The prefix rule for a substituted text `output`, the trimmed original
      `trimmed` and whether the prefix condition `applies`: `r` is `output`
      exactly when the condition fails or `trimmed` does not occur in
      `output`; otherwise it is `output` with `Folks, ` inserted right before
      the first occurrence of `trimmed`. */
  predicate PrefixRule(output: string, trimmed: string, applies: bool, r: string) {
    var at := IndexOfFrom(output, trimmed, 0);
    && (r == output <==> !applies || at.None?)
    && (applies && at.Some? ==>
          && r == output[..at.value] + "Folks, " + output[at.value..]
          && OccursAt(output, trimmed, at.value)
          && forall k :: 0 <= k < at.value ==> !OccursAt(output, trimmed, k))
  }

  /** The prefix step, taken or not, follows the prefix rule. */
  lemma PrefixStepRule(output: string, trimmed: string, applies: bool)
    ensures PrefixRule(output, trimmed, applies, if applies then PrefixFirst(output, trimmed) else output)
  {
  }

  /** `heuristicRewrite` follows the prefix rule: a non-blank text comes
      back as its substituted form exactly when it is not over 90
      characters, not capitalised or already starts with `Folks,`, or when
      its trimmed form no longer occurs after the substitutions; otherwise
      `Folks, ` is inserted right before that first occurrence. */
  lemma HeuristicPrefixRule(input: string)
    requires Trim(input) != ""
    ensures PrefixRule(Substitute(input, HEURISTIC_SUBSTITUTIONS), Trim(input), FolksPrefixApplies(Trim(input)), Heuristic(input))
  {
    var trimmed := Trim(input);
    var output := Substitute(input, HEURISTIC_SUBSTITUTIONS);
    PrefixStepRule(output, trimmed, FolksPrefixApplies(trimmed));
  }

  /** A `$`-free text is inserted literally by `String.prototype.replace`. */
  lemma ReplaceFirstLiteral(output: string, trimmed: string)
    requires '$' !in trimmed
    ensures ReplaceFirst(output, trimmed, "Folks, " + trimmed) == PrefixFirst(output, trimmed)
  {
    match IndexOfFrom(output, trimmed, 0)
    case None =>
    case Some(p) =>
      assert '$' !in "Folks, " + trimmed;
      assert output[p..] == trimmed + output[p + |trimmed|..];
  }

  /** With a `$`-free text the two agree. */
  lemma HeuristicAgreesWithoutDollar(input: string)
    requires '$' !in Trim(input)
    ensures HeuristicAsWritten(input) == Heuristic(input)
  {
    var trimmed := Trim(input);
    if trimmed != "" && FolksPrefixApplies(trimmed) {
      ReplaceFirstLiteral(Substitute(input, HEURISTIC_SUBSTITUTIONS), trimmed);
    }
  }

  /** A long capitalised text with no substituted word and a `$$` in it. */
  const DOLLAR_SAMPLE: string := "X" + seq(89, _ => ' ') + "$$"

  /** No substituted word occurs in a text whose only word character is its first, `X`. */
  lemma NoSubstitutedWord(s: string)
    requires |s| > 0 && s[0] == 'X'
    requires forall k :: 1 <= k < |s| ==> !IsWordChar(s[k])
    ensures forall i, k :: 0 <= i < |HEURISTIC_SUBSTITUTIONS| && 0 <= k < |s| ==>
      !WordMatchAt(s, k, HEURISTIC_SUBSTITUTIONS[i].word)
  {
    forall i, k | 0 <= i < |HEURISTIC_SUBSTITUTIONS| && 0 <= k < |s|
      ensures !WordMatchAt(s, k, HEURISTIC_SUBSTITUTIONS[i].word)
    {
      var w := HEURISTIC_SUBSTITUTIONS[i].word;
      assert 'a' <= w[0] <= 'w';
      if k + |w| <= |s| {
        assert s[k..k + |w|][0] == s[k];
      }
    }
  }

  /** On a trimmed text that takes the prefix and that the substitutions
      leave alone, the code as written expands `Folks, ` plus the text as a
      replacement pattern, where the corrected rewrite copies it. */
  lemma PrefixOnWholeText(s: string)
    requires s != "" && Trim(s) == s && FolksPrefixApplies(s)
    requires Substitute(s, HEURISTIC_SUBSTITUTIONS) == s
    ensures HeuristicAsWritten(s) == ExpandTemplate("Folks, " + s, s, [], [])
    ensures Heuristic(s) == "Folks, " + s
  {
    WholeTextOccurrence(s);
    assert HeuristicAsWritten(s) == ReplaceFirst(s, s, "Folks, " + s);
    assert Heuristic(s) == PrefixFirst(s, s);
  }

  /** Replacing or prefixing a text's first occurrence in itself acts on the whole text. */
  lemma WholeTextOccurrence(s: string)
    ensures ReplaceFirst(s, s, "Folks, " + s) == ExpandTemplate("Folks, " + s, s, [], [])
    ensures PrefixFirst(s, s) == "Folks, " + s
  {
    FirstOccurrenceInItself(s);
    assert s[..0] == [] && s[|s|..] == [] && s[0..] == s;
  }

  /** A text's first occurrence in itself is at 0. */
  lemma FirstOccurrenceInItself(s: string)
    ensures IndexOfFrom(s, s, 0) == Some(0)
  {
    assert s[0..|s|] == s;
    assert OccursAt(s, s, 0);
  }

  /** The sample is trimmed, takes the prefix and holds none of the eight words. */
  lemma DollarSampleTakesPrefix()
    ensures Trim(DOLLAR_SAMPLE) == DOLLAR_SAMPLE && FolksPrefixApplies(DOLLAR_SAMPLE)
    ensures Substitute(DOLLAR_SAMPLE, HEURISTIC_SUBSTITUTIONS) == DOLLAR_SAMPLE
  {
    var s := DOLLAR_SAMPLE;
    assert |s| == 92 && s[0] == 'X' && s[91] == '$';
    assert LeadingSpaces(s) == 0;
    assert TrailingSpaces(s[0..]) == 0 by { assert s[0..] == s; }
    assert !StartsWith(s, "Folks,") by { assert s[1] == ' '; }
    NoSubstitutedWord(s);
    SubstituteNoMatch(s, HEURISTIC_SUBSTITUTIONS);
  }

  /** Read as a replacement pattern, the sample's closing `$$` is one `$`. */
  lemma DollarSampleExpansion()
    ensures ExpandTemplate("Folks, " + DOLLAR_SAMPLE, DOLLAR_SAMPLE, [], []) == "Folks, " + DOLLAR_SAMPLE[..91]
  {
    var s := DOLLAR_SAMPLE;
    var head := "Folks, " + s[..90];
    assert "Folks, " + s == head + "$$";
    assert '$' !in head;
    ExpandTemplateLiteralPrefix(head, "$$", s, [], []);
    assert s[..91] == s[..90] + "$";
  }

  /** The prefix step as written drops a `$` from the sample, where the
      literal insertion keeps the text whole. */
  lemma HeuristicAsWrittenDropsDollar()
    ensures HeuristicAsWritten(DOLLAR_SAMPLE) == "Folks, " + DOLLAR_SAMPLE[..91]
    ensures Heuristic(DOLLAR_SAMPLE) == "Folks, " + DOLLAR_SAMPLE
  {
    DollarSampleTakesPrefix();
    PrefixOnWholeText(DOLLAR_SAMPLE);
    DollarSampleExpansion();
  }

  /** When no substitution applies, the prefix lands right after the original
      leading whitespace: the trimmed text cannot start inside it. */
  lemma HeuristicPrefixWhenUntouched(input: string)
    requires Trim(input) != "" && FolksPrefixApplies(Trim(input))
    requires Substitute(input, HEURISTIC_SUBSTITUTIONS) == input
    ensures Heuristic(input) == Leading(input) + "Folks, " + Trim(input) + Trailing(input)
  {
    PrefixAfterLeading(input);
    assert Heuristic(input) == PrefixFirst(input, Trim(input));
  }

  /** `Folks, ` goes right after the leading whitespace of a non-blank text. */
  lemma PrefixAfterLeading(input: string)
    requires Trim(input) != ""
    ensures PrefixFirst(input, Trim(input)) == Leading(input) + "Folks, " + Trim(input) + Trailing(input)
  {
    TrimFirstOccurs(input);
    var a := LeadingSpaces(input);
    assert input[a..] == Trim(input) + Trailing(input);
  }

  /** A non-blank text first occurs in its own untrimmed form right after
      the leading whitespace. */
  lemma TrimFirstOccurs(input: string)
    requires Trim(input) != ""
    ensures IndexOfFrom(input, Trim(input), 0) == Some(LeadingSpaces(input))
  {
    var trimmed := Trim(input);
    var a := LeadingSpaces(input);
    assert OccursAt(input, trimmed, a);
    forall k | 0 <= k < a ensures !OccursAt(input, trimmed, k) {
      assert IsSpace(input[k]);
      assert !IsSpace(trimmed[0]);
    }
  }

  /** `heuristicRewrite`: the substitution loop reassigns `output`. */
  method HeuristicRewrite(input: string) returns (output: string)
    ensures output == Heuristic(input)
  {
    var trimmed := Trim(input);
    if trimmed == "" {
      return input;
    }
    output := input;
    var subs := HEURISTIC_SUBSTITUTIONS;
    for i := 0 to |subs|
      invariant output == Substitute(input, subs[..i])
    {
      assert subs[..i + 1][..i] == subs[..i];
      output := ApplySubstitution(output, subs[i]);
    }
    assert subs[..|subs|] == subs;
    if FolksPrefixApplies(trimmed) {
      output := PrefixFirst(output, trimmed);
    }
  }

  // ---------------------------------------------------------------------------
  // Mode selection

  datatype RewriteMode = Llm | HeuristicMode

  /** After `done` fallback steps: those targets hold the local rewrite of
      their collected text, and nothing else changed. */
  predicate FallbackProgress(orig: seq<TextNode>, cur: seq<TextNode>, targets: seq<Target>, done: nat)
    requires ValidTargets(targets, |orig|) && done <= |targets|
  {
    && |cur| == |orig|
    && (forall x :: 0 <= x < |cur| ==> cur[x].parent == orig[x].parent)
    && (forall x :: 0 <= x < |cur| && !IsTargetNode(targets, x) ==> cur[x] == orig[x])
    && (forall t :: 0 <= t < done ==> cur[targets[t].node].value == Heuristic(targets[t].text))
  }

  /** Rewriting target `done` in place extends the progress by one. */
  lemma FallbackStep(orig: seq<TextNode>, prev: seq<TextNode>, cur: seq<TextNode>, targets: seq<Target>, done: nat)
    requires ValidTargets(targets, |orig|) && done < |targets|
    requires FallbackProgress(orig, prev, targets, done)
    requires var x := targets[done].node;
      && |cur| == |prev|
      && (forall y :: 0 <= y < |cur| && y != x ==> cur[y] == prev[y])
      && cur[x] == prev[x].(value := Heuristic(targets[done].text))
    ensures FallbackProgress(orig, cur, targets, done + 1)
  {
    var x := targets[done].node;
    assert IsTargetNode(targets, x) by {
      assert targets[done].node == x;
    }
    forall y | 0 <= y < |cur| ensures cur[y].parent == orig[y].parent {
      assert cur[y].parent == prev[y].parent;
    }
    forall y | 0 <= y < |cur| && !IsTargetNode(targets, y) ensures cur[y] == orig[y] {
      assert y != x;
      assert cur[y] == prev[y];
    }
    forall t | 0 <= t < done ensures cur[targets[t].node].value == Heuristic(targets[t].text) {
      assert targets[t].node < x;
      assert cur[targets[t].node] == prev[targets[t].node];
    }
    assert cur[x].value == Heuristic(targets[done].text);
  }

  /** The fallback loop of `rewriteArticleHtml`: every target gets the local
      rewrite of the text it had when collected. */
  method FallbackRewrite(doc: array<TextNode>, targets: seq<Target>)
    requires ValidTargets(targets, doc.Length)
    modifies doc
    ensures FallbackProgress(old(doc[..]), doc[..], targets, |targets|)
  {
    ghost var orig := doc[..];
    for t := 0 to |targets|
      invariant FallbackProgress(orig, doc[..], targets, t)
    {
      var x := targets[t].node;
      var rewritten := HeuristicRewrite(targets[t].text);
      ghost var prev := doc[..];
      doc[x] := doc[x].(value := rewritten);
      FallbackStep(orig, prev, doc[..], targets, t);
    }
  }

  /** What `rewriteArticleHtml` does to the collected text nodes. The mode is
      `llm` exactly when there are targets and every batch is accepted, and
      then every target holds the service's text; otherwise every target
      holds the fallback rewrite of its original text (including those an
      earlier batch had already written). Non-qualifying nodes and all
      parents are untouched. */
  predicate ArticleOutcome(orig: seq<TextNode>, cur: seq<TextNode>, service: RewriteService, mode: RewriteMode) {
    var targets := RewriteTargets(orig);
    && |cur| == |orig|
    && (mode == Llm <==> targets != [] && AllAccepted(service, targets))
    && (forall x :: 0 <= x < |cur| ==> cur[x].parent == orig[x].parent)
    && (forall x :: 0 <= x < |cur| && !Qualifies(orig[x]) ==> cur[x] == orig[x])
    && (mode == Llm ==> forall t :: 0 <= t < |targets| ==>
          BatchAccepted(service, targets, BatchOf(t)) && cur[targets[t].node].value == ServiceText(service, targets, t))
    && (mode == HeuristicMode ==> forall t :: 0 <= t < |targets| ==>
          cur[targets[t].node].value == Heuristic(orig[targets[t].node].value))
  }

  /** `rewriteArticleHtml` on the collected text nodes: with no target nothing
      changes and the mode is heuristic; otherwise the service is tried and,
      if it fails, the fallback loop runs over every target. */
  method RewriteArticle(doc: array<TextNode>, service: RewriteService) returns (mode: RewriteMode)
    modifies doc
    ensures ArticleOutcome(old(doc[..]), doc[..], service, mode)
  {
    ghost var orig := doc[..];
    var targets := CollectRewriteTargets(doc);
    if |targets| == 0 {
      NoTargetsOutcome(orig, service);
      return HeuristicMode;
    }
    var llmSucceeded := ApplyLlmRewrite(doc, targets, service);
    if !llmSucceeded {
      ghost var mid := doc[..];
      FallbackRewrite(doc, targets);
      FallbackOutcome(orig, mid, doc[..], service);
      return HeuristicMode;
    }
    LlmArticleOutcome(orig, doc[..], service);
    return Llm;
  }

  /** The collected targets are exactly qualifying nodes, each with the text it had. */
  lemma TargetsQualify(orig: seq<TextNode>)
    ensures var targets := RewriteTargets(orig);
      && (forall x :: 0 <= x < |orig| && !Qualifies(orig[x]) ==> !IsTargetNode(targets, x))
      && (forall t :: 0 <= t < |targets| ==> targets[t].text == orig[targets[t].node].value)
  {
    SelectTargetsSound(orig, Qualifies);
  }

  /** Without a target nothing changes and the mode is heuristic. */
  lemma NoTargetsOutcome(orig: seq<TextNode>, service: RewriteService)
    requires RewriteTargets(orig) == []
    ensures ArticleOutcome(orig, orig, service, HeuristicMode)
  {
  }

  /** An accepted LLM pass gives the `llm` outcome. */
  lemma LlmArticleOutcome(orig: seq<TextNode>, cur: seq<TextNode>, service: RewriteService)
    requires RewriteTargets(orig) != [] && LlmOutcome(orig, cur, service, RewriteTargets(orig), true)
    ensures ArticleOutcome(orig, cur, service, Llm)
  {
    var targets := RewriteTargets(orig);
    TargetsQualify(orig);
    AllBatchesAccepted(service, targets, |targets|);
  }

  /** After a rejected LLM pass and the fallback loop, every target holds the
      fallback rewrite of its original text, whatever the LLM pass had written,
      and nothing else differs from the original. */
  lemma FallbackOutcome(orig: seq<TextNode>, mid: seq<TextNode>, cur: seq<TextNode>, service: RewriteService)
    requires LlmOutcome(orig, mid, service, RewriteTargets(orig), false)
    requires FallbackProgress(mid, cur, RewriteTargets(orig), |RewriteTargets(orig)|)
    ensures ArticleOutcome(orig, cur, service, HeuristicMode)
  {
    TargetsQualify(orig);
  }

  // ---------------------------------------------------------------------------
  // stripHtml

  /** `.replace(/<[^>]*>/g, '')`: a `<` starts a tag only if some `>` follows
      it, and the tag runs to the first such `>`. */
  function StripTags(s: string): (r: string)
    ensures forall c :: c in r ==> c in s
  {
    if s == [] then []
    else if s[0] == '<' && '>' in s[1..] then StripTags(s[1..][IndexOf(s[1..], '>') + 1..])
    else [s[0]] + StripTags(s[1..])
  }

  /** Some `<` is followed, later in the text, by a `>`. */
  predicate HasTag(s: string) {
    exists i, j :: 0 <= i < j < |s| && s[i] == '<' && s[j] == '>'
  }

  /** After tag removal no `<` is followed by a `>`. */
  lemma {:induction false} StripTagsLeavesNoTag(s: string)
    ensures !HasTag(StripTags(s))
  {
    if s == [] {
    } else if s[0] == '<' && '>' in s[1..] {
      StripTagsLeavesNoTag(s[1..][IndexOf(s[1..], '>') + 1..]);
    } else {
      var rest := StripTags(s[1..]);
      StripTagsLeavesNoTag(s[1..]);
      var r := [s[0]] + rest;
      assert forall j :: 0 < j < |r| ==> r[j] == rest[j - 1];
      if s[0] == '<' {
        assert '>' !in rest;
      }
    }
  }

  /** Text without tags goes through tag removal unchanged. */
  lemma {:induction false} StripTagsNoTag(s: string)
    requires !HasTag(s)
    ensures StripTags(s) == s
  {
    if s != [] {
      assert forall j :: 0 < j < |s| ==> s[1..][j - 1] == s[j];
      if s[0] == '<' {
        assert '>' !in s[1..];
      }
      StripTagsNoTag(s[1..]);
      assert s == [s[0]] + s[1..];
    }
  }

  /** `stripHtml`: tags removed, then trimmed. */
  function StripHtml(s: string): (r: string)
    ensures r == "" || (!IsSpace(r[0]) && !IsSpace(r[|r| - 1]))
    ensures !HasTag(r)
  {
    var stripped := StripTags(s);
    StripTagsLeavesNoTag(s);
    var r := Trim(stripped);
    var a := LeadingSpaces(stripped);
    assert forall k :: 0 <= k < |r| ==> r[k] == stripped[a + k];
    r
  }

  /** Stripping twice is stripping once. */
  lemma StripHtmlIdempotent(s: string)
    ensures StripHtml(StripHtml(s)) == StripHtml(s)
  {
    var once := StripHtml(s);
    StripTagsNoTag(once);
    TrimIdempotent(StripTags(s));
  }
}
