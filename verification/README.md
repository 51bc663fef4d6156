# Trumpedia rewriting core in Dafny

Trumpedia shows Wikipedia articles with their prose rewritten in a
bombastic voice. This project models the parts of the code that decide
which text gets rewritten and how, and it proves properties of that model:

- **The browser pipeline** (`src/lib/wikipedia.ts`). It validates the
  article URL and makes the links of the fetched HTML absolute. It picks
  the text nodes worth rewriting and sends them to a rewrite back end in
  batches of 40. If any batch fails or comes back with the wrong number of
  segments, every picked node is rewritten instead by a local word-for-word
  heuristic.
- **The hosted rewrite function** (`supabase/functions/rewrite/index.ts`).
  It validates the request and calls the xAI model. A reply with the wrong
  segment count is repaired: extra segments are cut, and missing ones are
  filled from the inputs with a small regex rewrite.
- **The local rewrite server** (`server/rewrite-server.mjs`). This is the
  browser's default back end. It accepts 1 to 60 segments, calls the
  OpenAI model, and rejects any reply whose segment count differs.
- **The bulk script** (`scripts/bulk-trumpify.mjs`). It loads `.env.local`
  and `.env` without overriding variables already set, and picks the
  most-read articles. It collects text nodes with its own rules and
  rewrites them in batches of 30, five batches per group. It writes back
  every truthy entry of whatever array the model returned, with no count
  check.

The article is an `array` of text-node records in document order, and a
node's index is its handle. The loops that walk and update the document
are methods with loop invariants. Each is proved against a specification
function on the document's contents, such as `RewriteTargets`,
`BulkTargets` or `BulkText`. The network, the models and the platform's
JSON and URL functions are function parameters, so every result holds for
every possible answer. The module `SegmentCountPolicies` puts the
components side by side:
- The browser accepts every batch the local server answers with 200.
- The same wrong-count reply is an error on the server, a repaired 200 on
  the hosted function and a rejected batch in the browser.
- The browser and the bulk script choose different text nodes and rewrite
  links differently.

Files: `wrappers.dfy` (Option and Result), `jstext.dfy` (the JavaScript
string operations used), `json.dfy` (parsed JSON values, truthiness,
`String`), `chunking.dfy`, `wikipedia.dfy`, `chat_api.dfy`,
`edge_rewrite.dfy`, `rewrite_server.dfy`, `bulk_trumpify.dfy` and
`policies.dfy`.

## Model

| member | source | states |
|---|---|---|
| JsText.Trim | src/lib/wikipedia.ts:64 | `trim` removes exactly the leading and trailing ECMAScript whitespace. The result starts where the leading run ends, only whitespace follows it, it neither starts nor ends with whitespace, and it is empty iff the input is all whitespace |
| JsText.TrimDecomposes | src/lib/wikipedia.ts:301 | a string is its removed leading whitespace, its trimmed text and its removed trailing whitespace, in that order |
| JsText.TrimIdempotent | src/lib/wikipedia.ts:331 | trimming a trimmed string changes nothing |
| JsText.IndexOf | scripts/bulk-trumpify.mjs:22 | the index of the first occurrence of a character that occurs |
| JsText.Split | scripts/bulk-trumpify.mjs:22 | `split` on one character gives at least one part, no part contains the separator, and there is exactly one part iff the separator does not occur |
| JsText.JoinSplit | scripts/bulk-trumpify.mjs:22-24 | joining the parts of a split with the same separator gives back the original line |
| JsText.SplitNoSep | scripts/bulk-trumpify.mjs:22 | a separator-free string splits into itself alone |
| JsText.SplitAfterPiece | scripts/bulk-trumpify.mjs:22 | a separator-free piece followed by the separator splits off as the first part |
| JsText.SplitJoin | scripts/bulk-trumpify.mjs:22-24 | splitting a join of separator-free parts gives back the parts |
| JsText.SplitAtFirst | scripts/bulk-trumpify.mjs:22-24 | the first part is the text before the first separator, and the other parts rejoined are the text after it |
| JsText.MatchAt | src/lib/wikipedia.ts:308-317 | the alternative found matches at the index as a whole word, case-insensitively; none is found iff no alternative matches there |
| JsText.ReplaceWordsFrom | src/lib/wikipedia.ts:319-320 | the global whole-word replace, scanning from an index: replacing every match by itself gives back the rest of the text unchanged |
| JsText.ReplaceWords | src/lib/wikipedia.ts:319-320 | over the whole text, a replace that finds no whole-word match returns the text unchanged, and replacements never shorter than the words they replace never shorten it |
| JsText.ReplaceWordsFromNoMatch | supabase/functions/rewrite/index.ts:109 | a global word replace with no match leaves the text unchanged |
| JsText.ReplaceWordsFromGrows | src/lib/wikipedia.ts:319-321 | replacements never shorter than the words they replace never shorten the text |
| JsText.IndexOfFrom | src/lib/wikipedia.ts:324 | the first occurrence of the pattern at or after the index; none iff the pattern does not occur there |
| JsText.ExpandTemplate | src/lib/wikipedia.ts:324 | GetSubstitution of a replacement string: one without `$` is inserted literally |
| JsText.ReplaceFirst | src/lib/wikipedia.ts:324 | `replace` with a string pattern changes nothing when the pattern does not occur; with a `$`-free replacement it puts the replacement in place of the first occurrence and copies the rest |
| JsText.ExpandTemplateLiteralPrefix | src/lib/wikipedia.ts:324 | a `$`-free head of a replacement string is copied, and expansion continues after it |
| Json.Field | supabase/functions/rewrite/index.ts:94 | `parsed?.segments` is defined iff the value is an object holding the key |
| Json.NatToString | server/rewrite-server.mjs:84 | the status in the error message is a non-empty string of decimal digits |
| Json.ToJsString | server/rewrite-server.mjs:105 | `String` of a string is the string itself |
| Chunking.MakeChunks | scripts/bulk-trumpify.mjs:183-187 | the slicing loop yields non-empty chunks of at most `size` elements, all but the last full, chunk k being the slice at k·size, in number ⌈n/size⌉; their concatenation is the input |
| Chunking.ChunkStep | scripts/bulk-trumpify.mjs:184-186 | pushing the slice at the next offset keeps every chunk the slice at its offset, non-empty, at most `size` long and full unless last, and the chunks still cover the prefix up to the new offset |
| Chunking.ChunkAppend | scripts/bulk-trumpify.mjs:184-186 | one pass of the slicing loop keeps the chunking and moves the offset on by `size` |
| Chunking.ChunksDone | scripts/bulk-trumpify.mjs:184 | once the offset reaches the end, the chunks concatenate to the whole input |
| Wikipedia.LowerAsciiString | src/lib/wikipedia.ts:76 | the host name is lower-cased character by character |
| Wikipedia.RestoreSlashes | src/lib/wikipedia.ts:100 | `replace(/%2F/g, '/')` never lengthens the text and leaves text without `%` unchanged |
| Wikipedia.EscapeSlashes | src/lib/wikipedia.ts:100 | the inverse direction used by the round trip: the result holds no `/` |
| Wikipedia.RestoreSlashesRoundTrip | src/lib/wikipedia.ts:100 | turning `%2F` back into `/` loses nothing on a slash-free encoding: re-escaping gives the encoding back |
| Wikipedia.SlashFreeEscape | src/lib/wikipedia.ts:100 | escaping leaves a slash-free string unchanged |
| Wikipedia.CanonicalUrl | src/lib/wikipedia.ts:100 | the canonical URL starts with `https://<lang>.wikipedia.org/wiki/`, is followed by at most the encoded title, and by exactly the encoded title when that holds no `%` |
| Wikipedia.ParseWikipediaUrl | src/lib/wikipedia.ts:63-102 | a blank input is rejected with its message iff it is blank, and an unparsable URL with its own message. A success has passed every check: a host `<lang>.wikipedia.org` whose language label is not empty or `www`, and a decoded path of `/wiki/` plus a non-empty title without `:`. The result holds that language, that title and the canonical URL. Every URL passing all checks is accepted |
| Wikipedia.AbsoluteLink | src/lib/wikipedia.ts:146-162 | `//x` becomes `https://x`, `/x` becomes `https://<lang>.wikipedia.org/x`, and anything else is unchanged; the original link is always a suffix of the result |
| Wikipedia.AbsoluteLinkIdempotent | src/lib/wikipedia.ts:146-162 | rewriting a rewritten link changes nothing |
| Wikipedia.NormalizeLinks | src/lib/wikipedia.ts:144-163 | every element's `href` and `src` become their normalised form; absent or empty attributes are untouched |
| Wikipedia.HasLetterRunFrom | src/lib/wikipedia.ts:284 | `/[A-Za-z]{3,}/` matches iff three ASCII letters stand in a row somewhere |
| Wikipedia.LetterRunIsNotBlank | src/lib/wikipedia.ts:280-286 | text with a run of three letters is never blank |
| Wikipedia.ShouldRewriteNode | src/lib/wikipedia.ts:279-298 | a node is rewritten iff all of these hold: the text is not blank, it has three letters in a row, the parent's tag is not one of the nine skipped tags, and a string class name contains none of the seven hints |
| Wikipedia.SelectTargets | src/lib/wikipedia.ts:207-228 | the collected handles are in range and strictly increasing, so they are distinct and in document order |
| Wikipedia.SelectTargetsStep | src/lib/wikipedia.ts:212-225 | one more node of the walk appends it, with its text, exactly when it is accepted |
| Wikipedia.SelectTargetsSound | src/lib/wikipedia.ts:217-222 | every collected node is accepted and is recorded with its text at collection time |
| Wikipedia.SelectTargetsComplete | src/lib/wikipedia.ts:217-222 | every accepted node is collected |
| Wikipedia.CollectRewriteTargets | src/lib/wikipedia.ts:207-228 | the tree walk collects exactly the qualifying nodes, in document order, with their texts |
| Wikipedia.Texts | src/lib/wikipedia.ts:234 | the batch's texts, position by position |
| Wikipedia.BatchOfBounds | src/lib/wikipedia.ts:232-233 | target t lies in batch ⌊t/40⌋ |
| Wikipedia.WriteBatch | src/lib/wikipedia.ts:239-241 | the j-th text returned is written into the j-th node of the batch, and nothing else changes |
| Wikipedia.LlmProgressStep | src/lib/wikipedia.ts:232-242 | writing an accepted batch extends the written prefix by that batch |
| Wikipedia.AcceptedBeforeNext | src/lib/wikipedia.ts:232-242 | all batches before k accepted, plus batch k accepted, means all batches before k+1 accepted |
| Wikipedia.StopAtRejectedBatch | src/lib/wikipedia.ts:235-237 | at the first failed or wrong-length batch the whole pass reports failure; targets before it are written and targets from it on are not |
| Wikipedia.AllBatchesAccepted | src/lib/wikipedia.ts:244 | once every batch has passed, the pass reports success and every target has been written |
| Wikipedia.ApplyLlmRewrite | src/lib/wikipedia.ts:230-248 | returns true iff every batch is accepted. Targets in accepted batches before the first rejection hold the service's text for their position; all other targets, non-target nodes and every parent are unchanged |
| Wikipedia.ApplySubstitution | src/lib/wikipedia.ts:320 | one substitution leaves text without a whole-word match of its word unchanged, and never shortens the text when the replacement is at least as long as the word |
| Wikipedia.Substitute | src/lib/wikipedia.ts:308-321 | the eight substitutions in order never shorten the text |
| Wikipedia.SubstituteNoMatch | src/lib/wikipedia.ts:308-321 | text without any of the eight words is not changed by the substitutions |
| Wikipedia.PrefixFirst | src/lib/wikipedia.ts:324 | inserting `Folks, ` adds exactly seven characters or nothing, and leaves the text unchanged exactly when the trimmed text does not occur in it |
| Wikipedia.PrefixStepRule | src/lib/wikipedia.ts:323-325 | the prefix step, whether its condition holds or not, follows the prefix rule stated for `HeuristicPrefixRule` |
| Wikipedia.Heuristic | src/lib/wikipedia.ts:300-328 | the corrected rewrite: blank input comes back unchanged, and the rewrite never shortens the text |
| Wikipedia.HeuristicPrefixRule | src/lib/wikipedia.ts:319-327 | a non-blank text comes back as its substituted form exactly when it is not over 90 characters, not capitalised or already starts with `Folks,`, or when its trimmed form no longer occurs after the substitutions. Otherwise `Folks, ` is inserted right before the first occurrence of the trimmed form |
| Wikipedia.HeuristicAsWritten | src/lib/wikipedia.ts:300-328 | the rewrite as written: blank input comes back unchanged, and the result is the substituted text alone when the prefix condition fails or the trimmed text no longer occurs |
| Wikipedia.ReplaceFirstLiteral | src/lib/wikipedia.ts:324 | for a `$`-free text, `replace(trimmed, 'Folks, ' + trimmed)` inserts `Folks, ` before the first occurrence |
| Wikipedia.HeuristicAgreesWithoutDollar | src/lib/wikipedia.ts:300-328 | the code as written and the corrected rewrite agree on every text whose trimmed form has no `$` |
| Wikipedia.NoSubstitutedWord | src/lib/wikipedia.ts:308-317 | a text made of `X` and non-word characters contains none of the eight words |
| Wikipedia.HeuristicAsWrittenDropsDollar | src/lib/wikipedia.ts:323-325 | on a long capitalised text ending in `$$`, the code as written loses a `$`, while the corrected rewrite keeps the text whole after `Folks, ` |
| Wikipedia.PrefixOnWholeText | src/lib/wikipedia.ts:323-325 | on a trimmed text that takes the prefix and that the substitutions leave alone, the code as written expands `Folks, ` plus the text as a replacement pattern, while the corrected rewrite gives `Folks, ` plus the text |
| Wikipedia.WholeTextOccurrence | src/lib/wikipedia.ts:324 | a text's first occurrence in itself is the whole text, so the replacement, or the prefix, applies to all of it |
| Wikipedia.DollarSampleTakesPrefix | src/lib/wikipedia.ts:301-325 | the sample is already trimmed, takes the prefix and holds none of the eight words |
| Wikipedia.DollarSampleExpansion | src/lib/wikipedia.ts:324 | read as a replacement pattern, `Folks, ` plus the sample loses one `$` of the closing `$$` |
| Wikipedia.HeuristicPrefixWhenUntouched | src/lib/wikipedia.ts:323-325 | a long capitalised text not starting with `Folks,` that the substitutions leave alone comes back as its leading whitespace, `Folks, `, the trimmed text and its trailing whitespace |
| Wikipedia.PrefixAfterLeading | src/lib/wikipedia.ts:324 | on a non-blank text, `Folks, ` goes right after the leading whitespace |
| Wikipedia.TrimFirstOccurs | src/lib/wikipedia.ts:324 | a non-blank trimmed text first occurs in the untrimmed text right after the leading whitespace |
| Wikipedia.HeuristicRewrite | src/lib/wikipedia.ts:300-328 | the loop over the substitution list followed by the prefix step computes the corrected heuristic rewrite `Heuristic` |
| Wikipedia.FallbackRewrite | src/lib/wikipedia.ts:191-194 | every target gets the corrected heuristic rewrite of the text it had when collected; nothing else changes |
| Wikipedia.FallbackStep | src/lib/wikipedia.ts:192-194 | rewriting one more target in place extends the fallback's progress by that target; non-targets and parents stay as they were |
| Wikipedia.RewriteArticle | src/lib/wikipedia.ts:182-204 | the mode is `llm` iff there are targets and every batch is accepted, and then each target holds the service's text. Otherwise every target holds the corrected heuristic rewrite of its original text, including targets a batch had already written. Non-qualifying nodes and parents never change |
| Wikipedia.TargetsQualify | src/lib/wikipedia.ts:207-228 | only qualifying nodes are targets, and each target carries the text its node had |
| Wikipedia.NoTargetsOutcome | src/lib/wikipedia.ts:182-188 | with no target the document is unchanged and the mode is heuristic |
| Wikipedia.LlmArticleOutcome | src/lib/wikipedia.ts:190-204 | an accepted LLM pass gives the `llm` mode with every target holding the service's text, and nothing else changed |
| Wikipedia.FallbackOutcome | src/lib/wikipedia.ts:190-199 | after a rejected LLM pass and the fallback loop, every target holds the corrected heuristic rewrite of its original text, whatever the pass had written; non-qualifying nodes and parents are as they were |
| Wikipedia.StripTags | src/lib/wikipedia.ts:331 | removing tags only removes characters |
| Wikipedia.StripTagsLeavesNoTag | src/lib/wikipedia.ts:331 | after `/<[^>]*>/g` is removed, no `<` is followed by a `>` |
| Wikipedia.StripTagsNoTag | src/lib/wikipedia.ts:331 | text without a tag is unchanged |
| Wikipedia.StripHtml | src/lib/wikipedia.ts:330-332 | the title has no tag and no surrounding whitespace |
| Wikipedia.StripHtmlIdempotent | src/lib/wikipedia.ts:330-332 | stripping twice is stripping once |
| ChatApi.Excerpt | server/rewrite-server.mjs:84 | `slice(0, 300)` is the prefix of at most 300 characters, the whole text when it is short enough |
| ChatApi.SegmentsField | server/rewrite-server.mjs:82-100 | a reply gets past the shared checks iff the request succeeded with string content that parses, and the result is then the parsed `segments`. A failed request gives the message with the status and the first 300 characters of the body; non-string content and non-JSON content each give their own message |
| EdgeRewrite.OrDefault | supabase/functions/rewrite/index.ts:36-39 | an unset or empty setting falls back to the default |
| EdgeRewrite.Messages | supabase/functions/rewrite/index.ts:45-59 | the system prompt comes first, the stance follows only for a truthy opinion, and the segments come last, so there are two or three messages |
| EdgeRewrite.BuildMessages | supabase/functions/rewrite/index.ts:45-59 | the conditional push builds exactly that message list |
| EdgeRewrite.Tremendously | supabase/functions/rewrite/index.ts:109 | padding a segment never shortens it |
| EdgeRewrite.TremendouslyNoMatch | supabase/functions/rewrite/index.ts:109 | a segment without is/was/are/were as a whole word is padded unchanged |
| EdgeRewrite.PaddingFor | supabase/functions/rewrite/index.ts:107-109 | a missing entry is filled iff the input segment is a string, and then with that segment's padded text |
| EdgeRewrite.Pad | supabase/functions/rewrite/index.ts:106-110 | padding succeeds iff every missing input is a string. Then the reply has the input's length, keeps the model's entries first and fills the rest from the inputs |
| EdgeRewrite.RepairSegments | supabase/functions/rewrite/index.ts:99-112 | a repaired reply always has the input's length. A right-length reply is unchanged and a long one is cut to the first n entries. A short one is padded from the inputs, and this fails iff a missing input is not a string |
| EdgeRewrite.Repair | supabase/functions/rewrite/index.ts:99-112 | the slice and push loop computes the repair |
| EdgeRewrite.RequestSegments | supabase/functions/rewrite/index.ts:29-33 | the request is accepted iff its `segments` is a non-empty array, and then it is that array |
| EdgeRewrite.HandleRewrite | supabase/functions/rewrite/index.ts:22-138 | OPTIONS gets `ok`; every other request gets 200 or 400. A bad body, a `null` body, a missing or empty segment list and a missing key each give their own 400 message. Once the model is called, a failed call, non-string or non-JSON content and a missing or non-array `segments` each give a 400 with their message, and never a 200; a failed repair gives its 400. A 200 carries exactly the repair of the model's `segments`, so as many segments as were sent |
| RewriteServer.ReadJson | server/rewrite-server.mjs:28-41 | an empty body reads as `{}`, an unparsable one is rejected, and anything else is the parsed value |
| RewriteServer.Stringify | server/rewrite-server.mjs:54 | each entry is converted with `String`, in place |
| RewriteServer.ValidateSegments | server/rewrite-server.mjs:43-55 | accepted iff the input is an array of 1 to 60 entries, which are then converted to strings; the non-array, empty and too-long cases each give their message |
| RewriteServer.RewriteWithOpenAI | server/rewrite-server.mjs:57-106 | no key gives an error. It succeeds iff the key is set and the reply's `segments` is an array of exactly the input's length, and then returns those entries converted to strings. Any other parsed reply gives the count error |
| RewriteServer.NoRequestWithoutKey | server/rewrite-server.mjs:58-60 | without a key the model's answer cannot affect the outcome |
| RewriteServer.RewritePipeline | server/rewrite-server.mjs:122-126 | a success read and validated the body, and returns as many segments as it sent, between 1 and 60 |
| RewriteServer.StringsToJson | server/rewrite-server.mjs:127-131 | the response's segments are the rewritten strings, in order |
| RewriteServer.HandleRequest | server/rewrite-server.mjs:108-140 | OPTIONS and health get 200, unknown routes get a 404 `Not found`. A rewrite that succeeds gets 200 with its segments; one that fails gets 400 with its message |
| RewriteServer.RewriteResponseMatchesRequest | server/rewrite-server.mjs:122-131 | a 200 from the rewrite route answers a body whose `segments` is an array, with that many string segments |
| BulkTrumpify.StripQuotes | scripts/bulk-trumpify.mjs:24 | at most one quote is removed at each end; a value quoted at both ends loses both quotes, and one with no quote at either end is unchanged |
| BulkTrumpify.StripQuotesQuoted | scripts/bulk-trumpify.mjs:24 | a value written between quotes of either kind reads as itself |
| BulkTrumpify.ParseEnvLine | scripts/bulk-trumpify.mjs:22-24 | a line is an assignment iff its trimmed text has an `=` that is not its first character; the key is non-empty and `=`-free |
| BulkTrumpify.ParseEnvLineSpec | scripts/bulk-trumpify.mjs:22-24 | the key is the trimmed line up to the first `=`, and the value is everything after it, further `=` included, without its outer quotes |
| BulkTrumpify.EnvLines | scripts/bulk-trumpify.mjs:21 | there are as many lines as `\n`-separated pieces |
| BulkTrumpify.ApplyEnvLine | scripts/bulk-trumpify.mjs:22-24 | a line assigns its key exactly when the line parses and the key is unset; no variable is removed and no other key is added |
| BulkTrumpify.ApplyEnvLines | scripts/bulk-trumpify.mjs:21-25 | applying a file's lines in order removes no variable |
| BulkTrumpify.ApplyEnvFiles | scripts/bulk-trumpify.mjs:15-28 | applying the files in order removes no variable |
| BulkTrumpify.EnvLineKeepsSet | scripts/bulk-trumpify.mjs:23 | a line never changes a variable that is already set, and never removes one |
| BulkTrumpify.EnvLinesKeepSet | scripts/bulk-trumpify.mjs:21-26 | a whole file never changes a variable that is already set |
| BulkTrumpify.EnvFilesKeepSet | scripts/bulk-trumpify.mjs:16-28 | the two files never change a variable that is already set |
| BulkTrumpify.EnvLocalWins | scripts/bulk-trumpify.mjs:16-28 | a non-empty value from `.env.local` is the final one, whatever `.env` says |
| BulkTrumpify.ProcessEnv.LoadEnv | scripts/bulk-trumpify.mjs:15-29 | the environment ends as `.env.local` then `.env` applied line by line to the initial one |
| BulkTrumpify.ProcessEnv.LoadLines | scripts/bulk-trumpify.mjs:21-26 | one file's lines are applied in order to the environment |
| BulkTrumpify.KeepArticles | scripts/bulk-trumpify.mjs:84 | a title is kept iff it starts with none of the seven excluded prefixes |
| BulkTrumpify.KeepArticlesAppend | scripts/bulk-trumpify.mjs:84 | the filter keeps the ranking order |
| BulkTrumpify.TopArticles | scripts/bulk-trumpify.mjs:83-86 | the first `limit` surviving titles in ranking order, or all of them if fewer survive |
| BulkTrumpify.AnyMatchExists | scripts/bulk-trumpify.mjs:113-123 | the walk meets a node of a kind iff the document holds one |
| BulkTrumpify.AnyMatchPrefix | scripts/bulk-trumpify.mjs:113-123 | a node met early is a node of the document |
| BulkTrumpify.BulkTargets | scripts/bulk-trumpify.mjs:109-125 | collection either throws the runtime's message for `includes` on a non-string class, or lists node handles in range and in document order |
| BulkTrumpify.BulkTargetsExact | scripts/bulk-trumpify.mjs:109-125 | collection throws iff some candidate text sits under an SVG element. Otherwise it lists exactly the qualifying nodes, in document order, with their texts |
| BulkTrumpify.Judge | scripts/bulk-trumpify.mjs:116-118 | the two tests throw exactly on an SVG candidate and keep exactly the qualifying nodes |
| BulkTrumpify.CollectTargets | scripts/bulk-trumpify.mjs:109-125 | the tree walk returns what the specification of collection gives, throw included |
| BulkTrumpify.BulkLink | scripts/bulk-trumpify.mjs:177-178 | only `/wiki/` links are made absolute, and always on the English edition |
| BulkTrumpify.BulkLinkIdempotent | scripts/bulk-trumpify.mjs:177-178 | normalising twice is normalising once |
| BulkTrumpify.NormalizeAnchors | scripts/bulk-trumpify.mjs:176-179 | every anchor's `href` is replaced by its normalised form |
| BulkTrumpify.WriteBack | scripts/bulk-trumpify.mjs:198-201 | a node changes only for an array reply whose entry at its position is truthy. A non-array reply changes nothing, and a non-empty string entry is written as is |
| BulkTrumpify.WriteBackIgnoresLength | scripts/bulk-trumpify.mjs:198-201 | with no count check, nodes past the end of a short reply keep their text |
| BulkTrumpify.ValuesAt | scripts/bulk-trumpify.mjs:195 | the batch's current node values, position by position |
| BulkTrumpify.BulkBatchOfBounds | scripts/bulk-trumpify.mjs:185-186 | target t lies in batch ⌊t/30⌋ |
| BulkTrumpify.FailedBatchUnchanged | scripts/bulk-trumpify.mjs:196-209 | a batch that threw or returned a non-array leaves all its nodes as they were |
| BulkTrumpify.WriteBackBatch | scripts/bulk-trumpify.mjs:199-201 | the batch's nodes get their written-back texts, and nothing else changes |
| BulkTrumpify.WrittenBackStep | scripts/bulk-trumpify.mjs:199-201 | writing back position j of a batch extends the batch's written-back prefix by that node and leaves every other node alone |
| BulkTrumpify.BulkStepAt | scripts/bulk-trumpify.mjs:195-201 | a target written back from the texts collected for its batch ends with its final text |
| BulkTrumpify.BulkStep | scripts/bulk-trumpify.mjs:194-210 | writing a batch extends the finished prefix of targets by that batch |
| BulkTrumpify.SentTexts | scripts/bulk-trumpify.mjs:195 | before a batch is sent, its nodes still hold their collected texts |
| BulkTrumpify.SendBatch | scripts/bulk-trumpify.mjs:194-210 | one batch sent and written back extends the finished prefix by that batch |
| BulkTrumpify.LastBatchBound | scripts/bulk-trumpify.mjs:184-186 | every batch up to the batch count starts inside the targets |
| BulkTrumpify.SendGroup | scripts/bulk-trumpify.mjs:192-210 | sending one group's batches extends the finished prefix of targets to the end of that group |
| BulkTrumpify.RunGroups | scripts/bulk-trumpify.mjs:192-211 | the loop over groups of at most five batches finishes every target |
| BulkTrumpify.ProcessBatches | scripts/bulk-trumpify.mjs:183-211 | batches of 30 (all but the last full) and groups of at most 5 concatenate back to the targets. At the end every target holds its batch's write-back, and non-targets and parents are unchanged |
| BulkTrumpify.BulkDone | scripts/bulk-trumpify.mjs:192-211 | when the last batch is written, the document is in its final state |
| BulkTrumpify.BulkRewrite | scripts/bulk-trumpify.mjs:176-211 | collection's throw leaves the document unchanged. Otherwise every collected target holds its batch's write-back, and nothing else changes |
| SegmentCountPolicies.ClientReading | src/lib/wikipedia.ts:264-276 | the browser reads texts back iff the status is 2xx and the body has a `segments` array, and then reads as many as the array holds |
| SegmentCountPolicies.StringifyStrings | src/lib/wikipedia.ts:276 | strings sent as JSON strings and read back with `String` are unchanged |
| SegmentCountPolicies.ServerAnswersClientBatch | server/rewrite-server.mjs:122-137 | for a browser batch of at most 40 texts, the local server answers 200 iff the key is set and the model returned exactly that many segments. The browser reads back a batch iff the answer is 200, and then it has the batch's length |
| SegmentCountPolicies.WrongCountPolicies | server/rewrite-server.mjs:101-103 | a wrong-length reply is a count error on the local server and a repaired reply of the right length on the hosted function, model entries first. In the browser it rejects the batch and the whole LLM pass |
| SegmentCountPolicies.RightCountPolicies | supabase/functions/rewrite/index.ts:99-100 | a right-length reply of strings comes back identical from both back ends |
| SegmentCountPolicies.ServerKeepsRightCount | server/rewrite-server.mjs:101-105 | the local server accepts a right-length reply of strings and returns those same strings |
| SegmentCountPolicies.EdgeKeepsRightCount | supabase/functions/rewrite/index.ts:99-100 | the hosted function's repair returns a right-length reply unchanged |
| SegmentCountPolicies.JsonStrings | server/rewrite-server.mjs:105 | JSON strings read with `String` and written back as JSON strings are unchanged |
| SegmentCountPolicies.BulkSkipsAreClientSkips | scripts/bulk-trumpify.mjs:106-107 | every tag and class the bulk script skips, the browser skips too |
| SegmentCountPolicies.ClientNodeIsBulkNode | scripts/bulk-trumpify.mjs:116-118 | a node the browser rewrites is also taken by the bulk script when its trimmed text is over three characters and its class is a string |
| SegmentCountPolicies.AnimatedClassPolicies | scripts/bulk-trumpify.mjs:117-118 | a text under an SVG element that the browser rewrites makes the bulk script throw |
| SegmentCountPolicies.ShortWordClientOnly | src/lib/wikipedia.ts:284 | a three-letter word is rewritten by the browser only |
| SegmentCountPolicies.DigitsBulkOnly | scripts/bulk-trumpify.mjs:116 | a four-digit number is rewritten by the bulk script only |
| SegmentCountPolicies.LinkPolicies | scripts/bulk-trumpify.mjs:176-179 | on `/wiki/` links the two link rules agree on the English edition; other site-relative links are made absolute by the browser only |

## Left out

- The DOM is not modelled: parsing HTML, serialising `innerHTML`, the tree walker's order beyond "document order", and the `!root` fallback of `rewriteArticleHtml`. The document is an array of text nodes, and elements carry only their tag name and class name.
- `normalizeWikipediaHtml` removes `.mw-editsection` elements. That removal is not modelled, because it is a DOM operation that touches no text-node value the model tracks.
- `fetchAndRewriteArticle` is not modelled beyond its parts above: the Wikipedia API request, its error messages and the title fallback are network I/O.
- `rewriteSegmentsWithApi`: the browser's back end is a function parameter. `SegmentCountPolicies.ClientReading` states how the browser reads a response, but the 25-second `AbortController` timeout is not modelled (it is a clock).
- All network calls (xAI, OpenAI, Wikipedia, Wikimedia, Supabase) are function parameters. `JSON.parse`, `new URL`, `decodeURIComponent` and `encodeURIComponent` are parameters too.
- `Promise.all` over a group of five batches is modelled as running the batches one after another. The batches write disjoint nodes and each sends the texts collected for it, so the final document is the same.
- `BulkTrumpify.BatchRewriter` is keyed by the batch's global number and its texts. It folds `rewriteBatch`'s request, the reading of `choices[0].message.content` and `JSON.parse` into one outcome (threw, or the `segments` value).
- The bulk script's cost metrics, logging, cache lookup, article fetch, upsert, `displayTitle`, `run` and `main` are I/O and bookkeeping, and are not modelled.
- `getTopArticles`: the date arithmetic, the fetch and the "Failed to fetch top articles" error are not modelled. `BulkTrumpify.TopArticles` starts from the ranked titles.
- Strings are sequences of Unicode characters. JavaScript's UTF-16 code-unit lengths (`length > 3`, `length > 90`, `slice(0, 300)`) are not distinguished for characters outside the Basic Multilingual Plane.
- JSON numbers are integers, so `String` of a fractional number is not modelled.
- The prompt texts are fixed values (`SystemPrompt`) and not spelled out, since no check in the code reads them.
- `supabase/functions/opinion` is not part of this model, and neither are `App.tsx`, `main.tsx` and `vite.config.ts`.
- Response headers (CORS, content type) are not modelled.
- Wikipedia.HeuristicRewrite: computes the corrected `Heuristic`, which copies the trimmed text literally after `Folks, `, rather than line 324 as written (`HeuristicAsWritten`), which expands `$` patterns; the two agree whenever the trimmed text has no `$` (`HeuristicAgreesWithoutDollar`), and the Findings table gives the input where they differ.
- Wikipedia.FallbackRewrite: writes the corrected `Heuristic` into each target, not line 324 as written, for the reason above.
- Wikipedia.FallbackOutcome: states the fallback state with the corrected `Heuristic`, not line 324 as written, for the reason above.
- Wikipedia.RewriteArticle: in heuristic mode the targets hold the corrected `Heuristic`, not line 324 as written, for the reason above.
- The `duration` field of the hosted function's response is a parameter, because it is a clock reading.

## Findings

| source | as written | input that shows it | evidently intended | confidence | as-written member | corrected member |
|---|---|---|---|---|---|---|
| src/lib/wikipedia.ts:324 | the `Folks, ` prefix is added with `output.replace(trimmed, \`Folks, ${trimmed}\`)`, whose second argument is a replacement pattern, so `$$`, `$&`, `` $` `` and `$'` in the article text are expanded | `"X"` followed by 89 spaces and `"$$"` (92 characters, capitalised, not starting with `Folks,`) comes out as `Folks, ` plus the text with only one `$` | the trimmed text copied literally after `Folks, ` | not executed | Wikipedia.HeuristicAsWrittenDropsDollar | Wikipedia.Heuristic |
