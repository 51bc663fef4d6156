/** The batch script that pre-renders the most-read English articles: it
    loads credentials from `.env` files, picks the top articles, and rewrites
    each article's text nodes in batches of 30, five batches at a time,
    writing back only the entries the model returned truthy. */
module BulkTrumpify {
  import opened Wrappers
  import opened Json
  import opened JsText
  import opened Wikipedia
  import Chunking

  // ---------------------------------------------------------------------------
  // loadEnv

  predicate IsQuote(c: char) {
    c == '"' || c == '\''
  }

  /** `.replace(/^["']|["']$/g, '')`: at most one quote character is removed
      at each end, and a lone quote is removed only once. */
  function StripQuotes(s: string): (r: string)
    ensures |r| <= |s| <= |r| + 2
    ensures |s| >= 2 && IsQuote(s[0]) && IsQuote(s[|s| - 1]) ==> r == s[1..|s| - 1]
    ensures (|s| == 0 || !IsQuote(s[0])) && (|s| == 0 || !IsQuote(s[|s| - 1])) ==> r == s
  {
    var a := if |s| > 0 && IsQuote(s[0]) then 1 else 0;
    var b := if |s| > a && IsQuote(s[|s| - 1]) then 1 else 0;
    s[a..|s| - b]
  }

  /** A value written between quotes of either kind reads as itself. */
  lemma StripQuotesQuoted(open: char, v: string, close: char)
    requires IsQuote(open) && IsQuote(close)
    ensures StripQuotes([open] + v + [close]) == v
  {
    var s := [open] + v + [close];
    assert s[1..|s| - 1] == v;
  }

  /** One assignment `KEY=value` of an env file. */
  datatype EnvEntry = EnvEntry(key: string, value: string)

  /** `const [key, ...parts] = line.trim().split('=')`, kept when `key` is
      non-empty and there is at least one `=`; the value is the rest rejoined
      with `=` and its quotes stripped. */
  function ParseEnvLine(line: string): (r: Option<EnvEntry>)
    ensures r.Some? <==> '=' in Trim(line) && Trim(line)[0] != '='
    ensures r.Some? ==> r.value.key != "" && '=' !in r.value.key
  {
    var pieces := Split(Trim(line), '=');
    var key := pieces[0];
    if key != "" && |pieces| > 1 then Some(EnvEntry(key, StripQuotes(Join(pieces[1..], '='))))
    else None
  }

  /** The key is the trimmed line up to its first `=`, the value everything
      after it, further `=` included, without its outer quotes. */
  lemma ParseEnvLineSpec(line: string)
    requires ParseEnvLine(line).Some?
    ensures var t := Trim(line);
      var i := IndexOf(t, '=');
      && ParseEnvLine(line).value.key == t[..i]
      && ParseEnvLine(line).value.value == StripQuotes(t[i + 1..])
  {
    SplitAtFirst(Trim(line), '=');
  }

  /** `content.split(/\r?\n/)`: lines end at `\n`, and a `\r` right before a
      `\n` belongs to the line break. */
  function EnvLines(content: string): (lines: seq<string>)
    ensures |lines| == |Split(content, '\n')|
  {
    var parts := Split(content, '\n');
    seq(|parts|, i requires 0 <= i < |parts| =>
      if i < |parts| - 1 && |parts[i]| > 0 && parts[i][|parts[i]| - 1] == '\r' then parts[i][..|parts[i]| - 1]
      else parts[i])
  }

  /** `!process.env[key]`: missing or empty. */
  predicate Unset(vars: map<string, string>, key: string) {
    key !in vars || vars[key] == ""
  }

  /** One line's effect on the environment: an assignment to an unset key
      takes effect; no variable is removed and none but the assigned key is added. */
  function ApplyEnvLine(vars: map<string, string>, line: string): (r: map<string, string>)
    ensures vars.Keys <= r.Keys
    ensures forall k :: k in r && k !in vars ==> ParseEnvLine(line).Some? && k == ParseEnvLine(line).value.key
    ensures ParseEnvLine(line).Some? && Unset(vars, ParseEnvLine(line).value.key) ==>
      r == vars[ParseEnvLine(line).value.key := ParseEnvLine(line).value.value]
    ensures ParseEnvLine(line).None? || !Unset(vars, ParseEnvLine(line).value.key) ==> r == vars
  {
    match ParseEnvLine(line)
    case Some(entry) => if Unset(vars, entry.key) then vars[entry.key := entry.value] else vars
    case None => vars
  }

  /** The lines applied first to last; no variable is removed. */
  function ApplyEnvLines(vars: map<string, string>, lines: seq<string>): (r: map<string, string>)
    ensures vars.Keys <= r.Keys
  {
    if lines == [] then vars else ApplyEnvLine(ApplyEnvLines(vars, lines[..|lines| - 1]), lines[|lines| - 1])
  }

  /** One file, `None` when it does not exist. */
  function ApplyEnvFile(vars: map<string, string>, content: Option<string>): map<string, string> {
    if content.Some? then ApplyEnvLines(vars, EnvLines(content.value)) else vars
  }

  /** The files applied in the order listed; no variable is removed. */
  function ApplyEnvFiles(vars: map<string, string>, files: seq<Option<string>>): (r: map<string, string>)
    ensures vars.Keys <= r.Keys
  {
    if files == [] then vars else ApplyEnvFile(ApplyEnvFiles(vars, files[..|files| - 1]), files[|files| - 1])
  }

  /** A line never changes a key that is already set, and sets nothing it does not name. */
  lemma EnvLineKeepsSet(vars: map<string, string>, line: string, key: string)
    requires !Unset(vars, key)
    ensures key in ApplyEnvLine(vars, line) && ApplyEnvLine(vars, line)[key] == vars[key]
    ensures forall k :: k in vars ==> k in ApplyEnvLine(vars, line)
  {
  }

  /** Whole files never change a key that is already set. */
  lemma {:induction false} EnvFilesKeepSet(vars: map<string, string>, files: seq<Option<string>>, key: string)
    requires !Unset(vars, key)
    ensures key in ApplyEnvFiles(vars, files) && ApplyEnvFiles(vars, files)[key] == vars[key]
  {
    if files != [] {
      var init := ApplyEnvFiles(vars, files[..|files| - 1]);
      EnvFilesKeepSet(vars, files[..|files| - 1], key);
      var last := files[|files| - 1];
      if last.Some? {
        EnvLinesKeepSet(init, EnvLines(last.value), key);
      }
    }
  }

  lemma {:induction false} EnvLinesKeepSet(vars: map<string, string>, lines: seq<string>, key: string)
    requires !Unset(vars, key)
    ensures key in ApplyEnvLines(vars, lines) && ApplyEnvLines(vars, lines)[key] == vars[key]
  {
    if lines != [] {
      EnvLinesKeepSet(vars, lines[..|lines| - 1], key);
      EnvLineKeepsSet(ApplyEnvLines(vars, lines[..|lines| - 1]), lines[|lines| - 1], key);
    }
  }

  /** A non-empty value from `.env.local` is what the process ends up with,
      whatever `.env` says. */
  lemma EnvLocalWins(vars: map<string, string>, envLocal: Option<string>, env: Option<string>, key: string)
    requires !Unset(ApplyEnvFile(vars, envLocal), key)
    ensures key in ApplyEnvFiles(vars, [envLocal, env])
    ensures ApplyEnvFiles(vars, [envLocal, env])[key] == ApplyEnvFile(vars, envLocal)[key]
  {
    var files := [envLocal, env];
    assert files[..1] == [envLocal];
    assert ApplyEnvFiles(vars, files[..1]) == ApplyEnvFile(vars, envLocal) by {
      assert files[..1][..0] == [];
    }
    EnvFilesKeepSet(ApplyEnvFile(vars, envLocal), [env], key);
    assert [env][..0] == [];
  }

  /** `process.env` as the script sees it. */
  class ProcessEnv {
    var vars: map<string, string>

    constructor (initial: map<string, string>)
      ensures vars == initial
    {
      vars := initial;
    }

    /** `loadEnv`: `.env.local`, then `.env` (the contents, `None` for a
        missing file), line by line, never overriding a set variable. */
    method LoadEnv(envLocal: Option<string>, env: Option<string>)
      modifies this
      ensures vars == ApplyEnvFiles(old(vars), [envLocal, env])
    {
      var files := [envLocal, env];
      for f := 0 to |files|
        invariant vars == ApplyEnvFiles(old(vars), files[..f])
      {
        assert files[..f + 1][..f] == files[..f];
        if files[f].Some? {
          LoadLines(EnvLines(files[f].value));
        }
      }
      assert files[..|files|] == files;
    }

    /** The `forEach` over one file's lines. */
    method LoadLines(lines: seq<string>)
      modifies this
      ensures vars == ApplyEnvLines(old(vars), lines)
    {
      for l := 0 to |lines|
        invariant vars == ApplyEnvLines(old(vars), lines[..l])
      {
        assert lines[..l + 1][..l] == lines[..l];
        var entry := ParseEnvLine(lines[l]);
        if entry.Some? && Unset(vars, entry.value.key) {
          vars := vars[entry.value.key := entry.value.value];
        }
      }
      assert lines[..|lines|] == lines;
    }
  }

  // ---------------------------------------------------------------------------
  // getTopArticles

  const EXCLUDED_PREFIXES: seq<string> := ["Main_Page", "Special:Search", "File:", "Category:", "Talk:", "Template:", "User:"]

  predicate Excluded(title: string) {
    exists p :: p in EXCLUDED_PREFIXES && StartsWith(title, p)
  }

  /** The filter step: titles with none of the excluded prefixes. */
  function KeepArticles(titles: seq<string>): (r: seq<string>)
    ensures |r| <= |titles|
    ensures forall x :: x in r <==> x in titles && !Excluded(x)
  {
    if titles == [] then []
    else
      var init := KeepArticles(titles[..|titles| - 1]);
      var last := titles[|titles| - 1];
      assert titles == titles[..|titles| - 1] + [last];
      if Excluded(last) then init else init + [last]
  }

  /** The filter keeps order: filtering a concatenation filters each part. */
  lemma {:induction false} KeepArticlesAppend(a: seq<string>, b: seq<string>)
    ensures KeepArticles(a + b) == KeepArticles(a) + KeepArticles(b)
    decreases |b|
  {
    if b == [] {
      assert a + b == a;
    } else {
      var init := b[..|b| - 1];
      KeepArticlesAppend(a, init);
      assert (a + b)[..|a + b| - 1] == a + init;
    }
  }

  /** `getTopArticles(limit)` once the ranking is fetched: the first `limit`
      titles that survive the filter, in ranking order. */
  function TopArticles(titles: seq<string>, limit: nat): (r: seq<string>)
    ensures |r| == Chunking.Min(limit, |KeepArticles(titles)|)
    ensures r == KeepArticles(titles)[..|r|]
    ensures forall x :: x in r ==> x in titles && !Excluded(x)
  {
    var kept := KeepArticles(titles);
    kept[..Chunking.Min(limit, |kept|)]
  }

  // ---------------------------------------------------------------------------
  // collectTargets

  const BULK_SKIP_TAGS: set<string> := {"SCRIPT", "STYLE", "CODE", "PRE", "MATH", "SVG"}
  const BULK_SKIP_CLASSES: seq<string> := ["reference", "reflist", "mw-editsection", "navbox", "toc", "metadata"]
  /** What the runtime reports for `.includes` on an SVG element's `className`. */
  const CLASS_NOT_A_STRING := "className.includes is not a function"

  /** The first test: more than three characters after trimming, under an
      element that is not skipped. */
  predicate BulkCandidate(n: TextNode) {
    && |Trim(n.value)| > 3
    && n.parent.Some?
    && n.parent.value.tagName !in BULK_SKIP_TAGS
  }

  /** The second test, on a string `className` (`''` when empty). */
  predicate BulkQualifies(n: TextNode) {
    && BulkCandidate(n)
    && n.parent.value.className.ClassString?
    && !HasSkipClass(n.parent.value.className, BULK_SKIP_CLASSES)
  }

  /** A candidate under an SVG element: `className.includes` throws. */
  predicate BulkThrows(n: TextNode) {
    BulkCandidate(n) && n.parent.value.className.ClassAnimated?
  }

  /** Some node of `nodes` satisfies `p`, found by looking from the back. */
  predicate AnyMatch(nodes: seq<TextNode>, p: TextNode -> bool) {
    nodes != [] && (AnyMatch(nodes[..|nodes| - 1], p) || p(nodes[|nodes| - 1]))
  }

  lemma {:induction false} AnyMatchExists(nodes: seq<TextNode>, p: TextNode -> bool)
    ensures AnyMatch(nodes, p) <==> exists x :: 0 <= x < |nodes| && p(nodes[x])
  {
    if nodes != [] {
      var n := |nodes| - 1;
      var init := nodes[..n];
      AnyMatchExists(init, p);
      if AnyMatch(init, p) {
        var x :| 0 <= x < |init| && p(init[x]);
        assert init[x] == nodes[x];
      }
      if exists x :: 0 <= x < |nodes| && p(nodes[x]) {
        var x :| 0 <= x < |nodes| && p(nodes[x]);
        if x < n {
          assert init[x] == nodes[x];
        }
      }
    }
  }

  /** A matching prefix means a match in the whole sequence. */
  lemma {:induction false} AnyMatchPrefix(nodes: seq<TextNode>, p: TextNode -> bool, i: nat)
    requires i <= |nodes| && AnyMatch(nodes[..i], p)
    ensures AnyMatch(nodes, p)
    decreases |nodes| - i
  {
    if i < |nodes| {
      assert nodes[..i + 1][..i] == nodes[..i];
      AnyMatchPrefix(nodes, p, i + 1);
    } else {
      assert nodes[..i] == nodes;
    }
  }

  /** What `collectTargets` returns, or the error it throws: the runtime's
      message for `includes` on a non-string class, or node handles in range
      and in document order. */
  function BulkTargets(nodes: seq<TextNode>): (r: Result<seq<Target>, string>)
    ensures r.Err? ==> r.error == CLASS_NOT_A_STRING
    ensures r.Ok? ==> ValidTargets(r.value, |nodes|)
  {
    if AnyMatch(nodes, BulkThrows) then Err(CLASS_NOT_A_STRING)
    else Ok(SelectTargets(nodes, BulkQualifies))
  }

  /** `collectTargets` succeeds exactly when no candidate sits under an SVG
      element, and then lists, in document order and with their texts,
      exactly the nodes that pass both tests. */
  lemma BulkTargetsExact(nodes: seq<TextNode>)
    ensures BulkTargets(nodes).Err? <==> exists x :: 0 <= x < |nodes| && BulkThrows(nodes[x])
    ensures BulkTargets(nodes).Ok? ==>
      var targets := BulkTargets(nodes).value;
      && ValidTargets(targets, |nodes|)
      && (forall t :: 0 <= t < |targets| ==>
            BulkQualifies(nodes[targets[t].node]) && targets[t].text == nodes[targets[t].node].value)
      && (forall x :: 0 <= x < |nodes| && BulkQualifies(nodes[x]) ==> IsTargetNode(targets, x))
  {
    AnyMatchExists(nodes, BulkThrows);
    SelectTargetsSound(nodes, BulkQualifies);
    SelectTargetsComplete(nodes, BulkQualifies);
  }

  /** What the walk does with one node: skip it, keep it, or throw. */
  datatype Verdict = Skip | Keep | Throw

  /** The two tests of the walk in the order they run. */
  function Judge(n: TextNode): (v: Verdict)
    ensures v == Throw <==> BulkThrows(n)
    ensures v == Keep <==> BulkQualifies(n)
  {
    if !BulkCandidate(n) then Skip
    else if n.parent.value.className.ClassAnimated? then Throw
    else if HasSkipClass(n.parent.value.className, BULK_SKIP_CLASSES) then Skip
    else Keep
  }

  /** The tree walk as a loop; the first candidate under an SVG element throws. */
  method CollectTargets(doc: array<TextNode>) returns (r: Result<seq<Target>, string>)
    ensures r == BulkTargets(doc[..])
  {
    var targets: seq<Target> := [];
    ghost var nodes := doc[..];
    var i := 0;
    while i < doc.Length
      invariant 0 <= i <= doc.Length
      invariant !AnyMatch(nodes[..i], BulkThrows)
      invariant targets == SelectTargets(nodes[..i], BulkQualifies)
    {
      var node := doc[i];
      assert node == nodes[i] && nodes[..i + 1][..i] == nodes[..i];
      SelectTargetsStep(nodes, BulkQualifies, i);
      var verdict := Judge(node);
      if verdict == Throw {
        assert AnyMatch(nodes[..i + 1], BulkThrows);
        AnyMatchPrefix(nodes, BulkThrows, i + 1);
        return Err(CLASS_NOT_A_STRING);
      }
      if verdict == Keep {
        targets := targets + [Target(i, node.value)];
      }
      i := i + 1;
    }
    assert nodes[..i] == nodes;
    return Ok(targets);
  }

  // ---------------------------------------------------------------------------
  // Link normalisation

  /** `if (href?.startsWith('/wiki/')) a.setAttribute('href', 'https://en.wikipedia.org' + href)`. */
  function BulkLink(href: Option<string>): (r: Option<string>)
    ensures r.Some? <==> href.Some?
    ensures href.Some? && StartsWith(href.value, WIKI_PREFIX) ==> r == Some("https://en.wikipedia.org" + href.value)
    ensures href.Some? && !StartsWith(href.value, WIKI_PREFIX) ==> r == href
  {
    if href.Some? && StartsWith(href.value, WIKI_PREFIX) then Some("https://en.wikipedia.org" + href.value)
    else href
  }

  /** Normalising twice is normalising once. */
  lemma BulkLinkIdempotent(href: Option<string>)
    ensures BulkLink(BulkLink(href)) == BulkLink(href)
  {
    if href.Some? && StartsWith(href.value, WIKI_PREFIX) {
      assert BulkLink(href).value[0] == 'h';
    }
  }

  /** The loop over every anchor's `href`. */
  method NormalizeAnchors(hrefs: array<Option<string>>)
    modifies hrefs
    ensures forall i :: 0 <= i < hrefs.Length ==> hrefs[i] == BulkLink(old(hrefs[i]))
  {
    for i := 0 to hrefs.Length
      invariant forall k :: 0 <= k < i ==> hrefs[k] == BulkLink(old(hrefs[k]))
      invariant forall k :: i <= k < hrefs.Length ==> hrefs[k] == old(hrefs[k])
    {
      hrefs[i] := BulkLink(hrefs[i]);
    }
  }

  // ---------------------------------------------------------------------------
  // Batches, groups and write-back

  const BULK_BATCH_SIZE: nat := 30
  const CONCURRENCY: nat := 5

  /** How `rewriteBatch` settles: it throws (failed request, unparsable
      content, `null` content), or resolves to `content.segments`, `None`
      when that is undefined. */
  datatype BatchReply = Threw | Returned(segments: Option<Json>)

  /** The model call: global batch number and segments sent, to the outcome. */
  type BatchRewriter = (nat, seq<string>) -> BatchReply

  predicate IsArrayReply(reply: BatchReply) {
    reply.Returned? && reply.segments.Some? && reply.segments.value.JArr?
  }

  /** The text node at index j of a batch after the reply: `rewritten[j]` when
      the reply is an array and that entry is truthy, converted with `String`;
      otherwise the node keeps its text. */
  function WriteBack(reply: BatchReply, j: nat, current: string): (r: string)
    ensures !IsArrayReply(reply) ==> r == current
    ensures r != current ==>
      IsArrayReply(reply) && j < |reply.segments.value.items| && Truthy(reply.segments.value.items[j])
    ensures IsArrayReply(reply) && j < |reply.segments.value.items| ==>
      var entry := reply.segments.value.items[j];
      entry.JStr? && entry.s != "" ==> r == entry.s
  {
    if IsArrayReply(reply) && j < |reply.segments.value.items| && Truthy(reply.segments.value.items[j]) then
      ToJsString(reply.segments.value.items[j])
    else current
  }

  /** A reply shorter than the batch leaves the nodes past its end as they were,
      and a longer one has its extra entries ignored: there is no count check. */
  lemma WriteBackIgnoresLength(reply: BatchReply, values: seq<string>)
    requires IsArrayReply(reply)
    ensures forall j :: |reply.segments.value.items| <= j < |values| ==> WriteBack(reply, j, values[j]) == values[j]
  {
  }

  /** `slice.map(n => n.nodeValue)`. */
  function ValuesAt(nodes: seq<TextNode>, slice: seq<Target>): (r: seq<string>)
    requires forall j :: 0 <= j < |slice| ==> slice[j].node < |nodes|
    ensures |r| == |slice| && forall j :: 0 <= j < |slice| ==> r[j] == nodes[slice[j].node].value
  {
    seq(|slice|, j requires 0 <= j < |slice| => nodes[slice[j].node].value)
  }

  function BulkBatchOf(t: nat): nat {
    t / BULK_BATCH_SIZE
  }

  lemma BulkBatchOfBounds()
    ensures forall t: nat :: BULK_BATCH_SIZE * BulkBatchOf(t) <= t < BULK_BATCH_SIZE * BulkBatchOf(t) + BULK_BATCH_SIZE
  {
  }

  /** The batch that carries target t. */
  function BulkBatch(targets: seq<Target>, t: nat): seq<Target>
    requires t < |targets|
  {
    BulkBatchOfBounds();
    Chunking.ChunkAt(targets, BULK_BATCH_SIZE, BulkBatchOf(t))
  }

  /** The text target t ends with: its batch's reply written back over its text. */
  function BulkText(rewriter: BatchRewriter, targets: seq<Target>, t: nat): string
    requires t < |targets|
  {
    BulkBatchOfBounds();
    var b := BulkBatchOf(t);
    WriteBack(rewriter(b, Texts(BulkBatch(targets, t))), t - BULK_BATCH_SIZE * b, targets[t].text)
  }

  /** A batch whose call threw or resolved to something other than an array
      leaves every one of its nodes with its text. */
  lemma FailedBatchUnchanged(rewriter: BatchRewriter, targets: seq<Target>, t: nat)
    requires t < |targets|
    requires !IsArrayReply(rewriter(BulkBatchOf(t), Texts(BulkBatch(targets, t))))
    ensures BulkText(rewriter, targets, t) == targets[t].text
  {
  }

  /** After the batches carrying the first `written` targets: those hold their
      write-back text, later targets and all non-targets are as in `orig`. */
  predicate BulkProgress(orig: seq<TextNode>, cur: seq<TextNode>, rewriter: BatchRewriter, targets: seq<Target>, written: nat)
    requires ValidTargets(targets, |orig|) && written <= |targets|
  {
    && |cur| == |orig|
    && (forall x :: 0 <= x < |cur| ==> cur[x].parent == orig[x].parent)
    && (forall x :: 0 <= x < |cur| && !IsTargetNode(targets, x) ==> cur[x] == orig[x])
    && (forall t :: 0 <= t < written ==> cur[targets[t].node].value == BulkText(rewriter, targets, t))
    && (forall t :: written <= t < |targets| ==> cur[targets[t].node] == orig[targets[t].node])
  }

  /** `cur` differs from `prev` only in the texts of targets lo .. hi - 1,
      each of which is its text in `prev` written back with `reply`. */
  predicate WrittenBack(prev: seq<TextNode>, cur: seq<TextNode>, targets: seq<Target>, lo: nat, hi: nat, reply: BatchReply)
    requires ValidTargets(targets, |prev|) && lo <= hi <= |targets|
  {
    && |cur| == |prev|
    && (forall x :: 0 <= x < |cur| ==> cur[x].parent == prev[x].parent)
    && (forall x :: 0 <= x < |cur| && !IsTargetNode(targets, x) ==> cur[x] == prev[x])
    && (forall t :: 0 <= t < |targets| && !(lo <= t < hi) ==> cur[targets[t].node] == prev[targets[t].node])
    && (forall t :: lo <= t < hi ==> cur[targets[t].node].value == WriteBack(reply, t - lo, prev[targets[t].node].value))
  }

  /** Writing back entry j of the batch extends the written range by one. */
  lemma WrittenBackStep(orig: seq<TextNode>, prev: seq<TextNode>, cur: seq<TextNode>, targets: seq<Target>,
                        lo: nat, j: nat, reply: BatchReply)
    requires ValidTargets(targets, |orig|) && lo + j < |targets|
    requires WrittenBack(orig, prev, targets, lo, lo + j, reply)
    requires var x := targets[lo + j].node;
      && |cur| == |prev|
      && (forall y :: 0 <= y < |cur| && y != x ==> cur[y] == prev[y])
      && cur[x].parent == prev[x].parent
      && cur[x].value == WriteBack(reply, j, prev[x].value)
    ensures WrittenBack(orig, cur, targets, lo, lo + j + 1, reply)
  {
    var x := targets[lo + j].node;
    assert prev[x] == orig[x];
    forall t | 0 <= t < |targets| && t != lo + j ensures targets[t].node != x {
      if t < lo + j {
        assert targets[t].node < x;
      } else {
        assert x < targets[t].node;
      }
    }
  }

  /** The `forEach` over one batch: entry j of an array reply is written to
      the batch's j-th node when truthy; any other reply writes nothing. */
  method WriteBackBatch(doc: array<TextNode>, targets: seq<Target>, lo: nat, hi: nat, reply: BatchReply)
    requires ValidTargets(targets, doc.Length) && lo <= hi <= |targets|
    modifies doc
    ensures WrittenBack(old(doc[..]), doc[..], targets, lo, hi, reply)
  {
    if IsArrayReply(reply) {
      var rewritten := reply.segments.value.items;
      for j := 0 to hi - lo
        invariant WrittenBack(old(doc[..]), doc[..], targets, lo, lo + j, reply)
      {
        var x := targets[lo + j].node;
        ghost var prev := doc[..];
        if j < |rewritten| && Truthy(rewritten[j]) {
          doc[x] := doc[x].(value := ToJsString(rewritten[j]));
        }
        WrittenBackStep(old(doc[..]), prev, doc[..], targets, lo, j, reply);
      }
    }
  }

  /** Target t of batch b, whose node still had its collected text when the
      batch was sent, holds its write-back text afterwards. */
  lemma BulkStepAt(prevValue: string, curValue: string, rewriter: BatchRewriter, targets: seq<Target>, b: nat, t: nat)
    requires BULK_BATCH_SIZE * b <= t < |targets| && t < BULK_BATCH_SIZE * b + BULK_BATCH_SIZE
    requires prevValue == targets[t].text
    requires var slice := Chunking.ChunkAt(targets, BULK_BATCH_SIZE, b);
      curValue == WriteBack(rewriter(b, Texts(slice)), t - BULK_BATCH_SIZE * b, prevValue)
    ensures curValue == BulkText(rewriter, targets, t)
  {
    BulkBatchOfBounds();
    assert BulkBatchOf(t) == b;
  }

  /** One batch of the group loop: sending batch b with its collected texts
      and writing back the reply extends the progress by that batch. */
  lemma BulkStep(orig: seq<TextNode>, prev: seq<TextNode>, cur: seq<TextNode>,
                 rewriter: BatchRewriter, targets: seq<Target>, b: nat)
    requires ValidTargets(targets, |orig|) && BULK_BATCH_SIZE * b < |targets|
    requires forall t :: 0 <= t < |targets| ==> orig[targets[t].node].value == targets[t].text
    requires BulkProgress(orig, prev, rewriter, targets, BULK_BATCH_SIZE * b)
    requires var hi := Chunking.Min(BULK_BATCH_SIZE * b + BULK_BATCH_SIZE, |targets|);
      WrittenBack(prev, cur, targets, BULK_BATCH_SIZE * b, hi, rewriter(b, Texts(Chunking.ChunkAt(targets, BULK_BATCH_SIZE, b))))
    ensures BulkProgress(orig, cur, rewriter, targets, Chunking.Min(BULK_BATCH_SIZE * b + BULK_BATCH_SIZE, |targets|))
  {
    var lo := BULK_BATCH_SIZE * b;
    var hi := Chunking.Min(lo + BULK_BATCH_SIZE, |targets|);
    forall t | lo <= t < hi
      ensures cur[targets[t].node].value == BulkText(rewriter, targets, t)
    {
      var x := targets[t].node;
      assert prev[x] == orig[x];
      BulkStepAt(prev[x].value, cur[x].value, rewriter, targets, b, t);
    }
  }

  /** Before batch b is sent its nodes still hold their collected texts, so
      `slice.map(n => n.nodeValue)` sends exactly those texts. */
  lemma SentTexts(orig: seq<TextNode>, cur: seq<TextNode>, rewriter: BatchRewriter, targets: seq<Target>, b: nat)
    requires ValidTargets(targets, |orig|) && BULK_BATCH_SIZE * b < |targets|
    requires forall t :: 0 <= t < |targets| ==> orig[targets[t].node].value == targets[t].text
    requires BulkProgress(orig, cur, rewriter, targets, BULK_BATCH_SIZE * b)
    ensures var slice := Chunking.ChunkAt(targets, BULK_BATCH_SIZE, b);
      && (forall j :: 0 <= j < |slice| ==> slice[j].node < |cur|)
      && ValuesAt(cur, slice) == Texts(slice)
  {
    var lo := BULK_BATCH_SIZE * b;
    var hi := Chunking.Min(lo + BULK_BATCH_SIZE, |targets|);
    var slice := Chunking.ChunkAt(targets, BULK_BATCH_SIZE, b);
    assert b * BULK_BATCH_SIZE == lo;
    assert slice == targets[lo..hi];
    forall j | 0 <= j < |slice| ensures slice[j].node < |cur| {
      assert slice[j] == targets[lo + j];
    }
    forall j | 0 <= j < |slice| ensures ValuesAt(cur, slice)[j] == Texts(slice)[j] {
      assert slice[j] == targets[lo + j];
      assert cur[targets[lo + j].node] == orig[targets[lo + j].node];
    }
  }

  /** One batch of a group: its texts are sent as batch number b and the reply
      is written back. */
  method SendBatch(doc: array<TextNode>, targets: seq<Target>, rewriter: BatchRewriter, b: nat, ghost orig: seq<TextNode>)
    requires ValidTargets(targets, |orig|) && BULK_BATCH_SIZE * b < |targets|
    requires forall t :: 0 <= t < |targets| ==> orig[targets[t].node].value == targets[t].text
    requires BulkProgress(orig, doc[..], rewriter, targets, BULK_BATCH_SIZE * b)
    modifies doc
    ensures BulkProgress(orig, doc[..], rewriter, targets, Chunking.Min(BULK_BATCH_SIZE * b + BULK_BATCH_SIZE, |targets|))
  {
    var lo := BULK_BATCH_SIZE * b;
    var slice := Chunking.ChunkAt(targets, BULK_BATCH_SIZE, b);
    SentTexts(orig, doc[..], rewriter, targets, b);
    var segments := ValuesAt(doc[..], slice);
    var reply := rewriter(b, segments);
    ghost var prev := doc[..];
    WriteBackBatch(doc, targets, lo, lo + |slice|, reply);
    BulkStep(orig, prev, doc[..], rewriter, targets, b);
  }

  /** Batches before the last one start inside the targets. */
  lemma LastBatchBound(n: nat, count: nat, end: nat)
    requires (count - 1) * BULK_BATCH_SIZE < n && end <= count
    ensures end > 0 ==> BULK_BATCH_SIZE * (end - 1) < n
  {
  }

  /** One group of `Promise.all`: batches first .. first + count - 1, each
      sent and written back. */
  method SendGroup(doc: array<TextNode>, targets: seq<Target>, rewriter: BatchRewriter, first: nat, count: nat,
                   ghost orig: seq<TextNode>)
    requires ValidTargets(targets, |orig|)
    requires forall t :: 0 <= t < |targets| ==> orig[targets[t].node].value == targets[t].text
    requires BULK_BATCH_SIZE * first <= |targets|
    requires first + count > 0 ==> BULK_BATCH_SIZE * (first + count - 1) < |targets|
    requires BulkProgress(orig, doc[..], rewriter, targets, Chunking.Min(BULK_BATCH_SIZE * first, |targets|))
    modifies doc
    ensures BulkProgress(orig, doc[..], rewriter, targets, Chunking.Min(BULK_BATCH_SIZE * (first + count), |targets|))
  {
    for c := 0 to count
      invariant BulkProgress(orig, doc[..], rewriter, targets, Chunking.Min(BULK_BATCH_SIZE * (first + c), |targets|))
    {
      assert BULK_BATCH_SIZE * (first + c) < |targets|;
      SendBatch(doc, targets, rewriter, first + c, orig);
    }
  }

  /** The loop over the groups: each group's batches are sent and written
      back before the next group starts. */
  method RunGroups(doc: array<TextNode>, targets: seq<Target>, rewriter: BatchRewriter,
                   batches: seq<seq<Target>>, groups: seq<seq<seq<Target>>>)
    requires ValidTargets(targets, doc.Length)
    requires forall t :: 0 <= t < |targets| ==> doc[targets[t].node].value == targets[t].text
    requires (|batches| - 1) * BULK_BATCH_SIZE < |targets| <= |batches| * BULK_BATCH_SIZE
    requires |batches| <= |groups| * CONCURRENCY
    requires forall g :: 0 <= g < |groups| ==>
      g * CONCURRENCY < |batches| && groups[g] == Chunking.ChunkAt(batches, CONCURRENCY, g)
    modifies doc
    ensures BulkProgress(old(doc[..]), doc[..], rewriter, targets, |targets|)
  {
    ghost var orig := doc[..];
    var b := 0;
    for g := 0 to |groups|
      invariant b == Chunking.Min(CONCURRENCY * g, |batches|)
      invariant BulkProgress(orig, doc[..], rewriter, targets, Chunking.Min(BULK_BATCH_SIZE * b, |targets|))
    {
      var group := groups[g];
      assert b == CONCURRENCY * g && b + |group| <= |batches|;
      LastBatchBound(|targets|, |batches|, b + |group|);
      SendGroup(doc, targets, rewriter, b, |group|, orig);
      b := b + |group|;
    }
    assert b == |batches|;
    assert |targets| <= BULK_BATCH_SIZE * b;
  }

  /** `processArticle`'s batching: the targets cut into batches of 30, the
      batches into groups of 5; the groups run one after the other and every
      batch of a group is sent and written back. Each target ends with its
      batch's write-back text (its own text when the batch failed); nothing
      else changes. */
  method ProcessBatches(doc: array<TextNode>, targets: seq<Target>, rewriter: BatchRewriter)
    returns (batches: seq<seq<Target>>, groups: seq<seq<seq<Target>>>)
    requires ValidTargets(targets, doc.Length)
    requires forall t :: 0 <= t < |targets| ==> doc[targets[t].node].value == targets[t].text
    modifies doc
    ensures Chunking.Flatten(batches) == targets
    ensures forall b :: 0 <= b < |batches| ==> 0 < |batches[b]| <= BULK_BATCH_SIZE
    ensures forall b :: 0 <= b < |batches| - 1 ==> |batches[b]| == BULK_BATCH_SIZE
    ensures Chunking.Flatten(groups) == batches
    ensures forall g :: 0 <= g < |groups| ==> 0 < |groups[g]| <= CONCURRENCY
    ensures forall x :: 0 <= x < doc.Length ==> doc[x].parent == old(doc[x].parent)
    ensures forall x :: 0 <= x < doc.Length && !IsTargetNode(targets, x) ==> doc[x] == old(doc[x])
    ensures forall t :: 0 <= t < |targets| ==> doc[targets[t].node].value == BulkText(rewriter, targets, t)
  {
    batches := Chunking.MakeChunks(targets, BULK_BATCH_SIZE);
    groups := Chunking.MakeChunks(batches, CONCURRENCY);
    ghost var orig := doc[..];
    RunGroups(doc, targets, rewriter, batches, groups);
    BulkDone(orig, doc[..], rewriter, targets);
  }

  /** Once every batch is written back, the document is in its final state. */
  lemma BulkDone(orig: seq<TextNode>, cur: seq<TextNode>, rewriter: BatchRewriter, targets: seq<Target>)
    requires ValidTargets(targets, |orig|)
    requires BulkProgress(orig, cur, rewriter, targets, |targets|)
    ensures |cur| == |orig|
    ensures forall x :: 0 <= x < |cur| ==> cur[x].parent == orig[x].parent
    ensures forall x :: 0 <= x < |cur| && !IsTargetNode(targets, x) ==> cur[x] == orig[x]
    ensures forall t :: 0 <= t < |targets| ==> cur[targets[t].node].value == BulkText(rewriter, targets, t)
  {
  }

  /** The rewriting part of `processArticle` on the parsed article: collect the
      targets, then run the batches. When collecting throws nothing is
      written; otherwise every target ends with its batch's write-back text
      and no other node changes. */
  method BulkRewrite(doc: array<TextNode>, rewriter: BatchRewriter) returns (r: Result<seq<Target>, string>)
    modifies doc
    ensures r == BulkTargets(old(doc[..]))
    ensures r.Err? ==> doc[..] == old(doc[..])
    ensures forall x :: 0 <= x < doc.Length ==> doc[x].parent == old(doc[x].parent)
    ensures r.Ok? ==> forall x :: 0 <= x < doc.Length && !IsTargetNode(r.value, x) ==> doc[x] == old(doc[x])
    ensures r.Ok? ==> forall t :: 0 <= t < |r.value| ==> doc[r.value[t].node].value == BulkText(rewriter, r.value, t)
  {
    r := CollectTargets(doc);
    if r.Ok? {
      SelectTargetsSound(doc[..], BulkQualifies);
      var batches, groups := ProcessBatches(doc, r.value, rewriter);
    }
  }
}
