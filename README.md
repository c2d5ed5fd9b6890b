# Translator core, modelled in Dafny

This project models the core of a JSON translation service. A client posts a
JSON document. A queue worker walks the document to its string leaves,
translates them in batches of fifty, writes the translations back at the
same paths and queues a callback that reports the result. Around that flow
sit four helpers:

- an HTML splitter, which cuts markup at block tags into translatable
  fragments and a template of numbered placeholders, and puts translations
  back into the template;
- a sentence splitter and translation cache, which maps source texts to
  stored translations through a hash of the text;
- a length-capping fallback, which asks a chat model to shorten a text and
  cuts the answer to the budget;
- the worker's handler itself.

Modules (one file each, all given to the verifier together):

- `Wrappers` (`wrappers.dfy`): `Option` and `Result`.
- `JsText` (`js_text.dfy`): JavaScript's `trim` and its whitespace set, and
  the decimal strings that `toString` prints for array indices and that
  `parseInt` reads back.
- `JsonTraversal` (`json_traversal.dfy`): `extractStrings` and
  `reconstructJson` over a JSON datatype.
  - A write through a path follows JavaScript's rules in strict mode:
    assigning a property on a primitive throws, and a write past an array's
    end pads with holes, which serialise as `null`.
  - The write-back loop is a method proved against a specification function.
- `HtmlHandler` (`html_handler.dfy`): `isHtml`, the live part of `extract`,
  `restore`, and the inline-tag list.
  - `extract` is a method with the source's loop, proved against `Fragments`
    and `Template` functions.
  - The round trip and the skeleton properties are lemmas about those
    functions.
- `CacheService` (`cache_service.dfy`): the sentence splitter, and a class
  whose store is a map from (hash, source language, target language) to a
  row.
  - The splitter's global regular-expression match is a recursive scanner.
    It is proved to compute the unique leftmost, non-overlapping sequence of
    matches.
  - Lookup and save are methods proved against specification functions.
    Lemmas relate the two operations.
- `AiService` (`ai_service.dfy`): the constructor and `shortenText`. The
  outcome of the chat call is a parameter.
- `TranslationWorker` (`translation_worker.dfy`):
  - The chunked translation loop, proved against a recursive specification
    in which the first failing request ends the job.
  - The zip of paths with translations.
  - The callback queue as a class.
  - The handler, which always queues exactly one callback and rethrows on
    failure.

## Model

| member | source | states |
|---|---|---|
| JsText.HasContentAt | src/utils/html-handler.ts:69 | a string is "non-blank" exactly when some character of it is not JavaScript whitespace |
| JsText.TrimStart | src/services/cache.service.ts:28 | trimming the front drops a whitespace-only prefix and leaves a suffix that is empty or starts with non-whitespace |
| JsText.TrimEnd | src/services/cache.service.ts:28 | trimming the back drops a whitespace-only suffix and leaves a prefix that is empty or ends with non-whitespace |
| JsText.TrimIsSlice | src/services/cache.service.ts:28 | `trim()` returns a contiguous slice with only whitespace outside it, and its first and last characters are not whitespace |
| JsText.TrimEmptyIffBlank | src/utils/html-handler.ts:69 | `trim()` gives the empty (falsy) string exactly when the text has no non-whitespace character |
| JsText.NatToString | src/utils/json-traversal.ts:16 | `i.toString()` is a non-empty run of decimal digits without a leading zero |
| JsText.DigitsValueOfNatToString | src/utils/html-handler.ts:94 | `parseInt` of the decimal an index prints as gives back that index |
| JsText.NatToStringInjective | src/utils/json-traversal.ts:16 | different indices print as different keys |
| JsText.IndexKeys | src/utils/json-traversal.ts:15-16 | definition: an array of length n contributes the keys "0" to "n-1", in order |
| JsText.IndexKeysDistinct | src/utils/json-traversal.ts:15-16 | the keys of an array's elements are pairwise distinct |
| JsonTraversal.IndexOf | src/utils/json-traversal.ts:38 | a property lookup on an object finds the first position holding the key, or none when the key is absent |
| JsonTraversal.ChildIndex | src/utils/json-traversal.ts:38 | reading `current[key]` selects an existing child: an own key of an object, or a canonical index below an array's length |
| JsonTraversal.ExtractStrings | src/utils/json-traversal.ts:9-27 | every extracted path extends the path given, and strictly extends it unless the value is itself a string |
| JsonTraversal.ExtractChildren | src/utils/json-traversal.ts:14-23 | each node found under the child loop sits below the key of one of the children still to visit |
| JsonTraversal.ExtractLeaves | src/utils/json-traversal.ts:12-13 | a string yields exactly one node at the current path; numbers, booleans and null yield none |
| JsonTraversal.ExtractContainerOrder | src/utils/json-traversal.ts:14-23 | an array's or object's nodes are its children's nodes concatenated in index or key order, each under its own key |
| JsonTraversal.ExtractedNodesResolve | src/utils/json-traversal.ts:9-27 | soundness: following any extracted path from the root reaches a string holding exactly the extracted value |
| JsonTraversal.EveryLeafExtracted | src/utils/json-traversal.ts:9-27 | completeness: every string leaf reachable by a path is extracted with that path and value |
| JsonTraversal.ExtractPathsUnique | src/utils/json-traversal.ts:19-22 | no two extracted nodes share a path |
| JsonTraversal.ReconstructJson | src/utils/json-traversal.ts:32-44 | the clone-and-write loop computes the specification `Reconstructed`: the writes applied in order, stopping at the first one that throws |
| JsonTraversal.ReconstructFailureSticks | src/utils/json-traversal.ts:35-41 | once a write throws, the later nodes cannot undo the failure |
| JsonTraversal.SetAtLeafShape | src/utils/json-traversal.ts:36-40 | writing at the path of a string leaf succeeds, keeps the value well formed and its shape unchanged, and the leaf then holds the new string |
| JsonTraversal.SetAtLeaf | src/utils/json-traversal.ts:36-40 | after that write, extraction gives the same nodes with only that path relabelled |
| JsonTraversal.SetAtSame | src/utils/json-traversal.ts:36-40 | writing a leaf's own value back leaves the document unchanged |
| JsonTraversal.IndexSlot | src/utils/json-traversal.ts:40 | a new array-index key enters after exactly the leading index keys of smaller value |
| JsonTraversal.InsertIndexKey | src/utils/json-traversal.ts:40 | inserting a new index key at that slot keeps the keys distinct and in JavaScript's enumeration order |
| JsonTraversal.AssignObjWellFormed | src/utils/json-traversal.ts:40 | assigning a key on an object keeps it well formed: keys unique and in enumeration order |
| JsonTraversal.SetAtWellFormed | src/utils/json-traversal.ts:40 | any write that succeeds keeps keys unique and in enumeration order, and arrays within JavaScript's length bound |
| JsonTraversal.IndexKeyEntersInOrder | src/utils/json-traversal.ts:40 | writing `x` at `["a","5"]` into `{"a":{"b":"y"}}` gives `{"a":{"5":"x","b":"y"}}`: the index key comes first |
| JsonTraversal.SetAtTwice | src/utils/json-traversal.ts:40 | writing twice at one path is the same as writing the second value once |
| JsonTraversal.ReconstructOverwrite | src/utils/json-traversal.ts:35-41 | of two adjacent nodes with the same non-empty path, the later one decides the result, even when the first added the key |
| JsonTraversal.ReconstructedWellFormed | src/utils/json-traversal.ts:35-41 | every list of writes that does not throw leaves a well-formed document |
| JsonTraversal.ReconstructedAppend | src/utils/json-traversal.ts:35-41 | writing a list in two parts writes the second part into the result of the first |
| JsonTraversal.SetAtKeepsLeaf | src/utils/json-traversal.ts:36-40 | a write at a string leaf succeeds and leaves every string leaf a string leaf |
| JsonTraversal.SetAtCommute | src/utils/json-traversal.ts:36-40 | writes at two different string leaves succeed and commute |
| JsonTraversal.LaterWinsAtLeaves | src/utils/json-traversal.ts:35-41 | an earlier write at a leaf path, followed by any writes at string leaves and then a later write at the same path, can be dropped |
| JsonTraversal.ReconstructLaterWins | src/utils/json-traversal.ts:35-41 | for any writes `a` before, writing `a`, n1, `b`, n2 equals writing `a`, `b`, n2 when n1 and n2 share a path and n1 and `b` hit string leaves |
| JsonTraversal.ReconstructIdentity | src/utils/json-traversal.ts:32-44 | rebuilding a (non-string) document from its own extracted nodes gives the document back |
| JsonTraversal.RootStringNotReplaced | src/utils/json-traversal.ts:37-40 | a bare string is extracted at the empty path, and writing at that path throws instead of replacing it |
| JsonTraversal.ReconstructTranslated | src/utils/json-traversal.ts:32-44 | rebuilding with new values on the extracted paths succeeds, keeps every key, number, boolean, null and array length, and extraction then gives exactly the new nodes |
| JsonTraversal.ReconstructTranslatedPrefix | src/utils/json-traversal.ts:35-41 | after the first k writes, the first k leaves carry the new values and the rest are untouched |
| JsonTraversal.WriteTranslatedNode | src/utils/json-traversal.ts:36-40 | one write at the path of the j-th extracted node replaces exactly the j-th node |
| HtmlHandler.IsHtmlFrom | src/utils/html-handler.ts:19 | the scan from position i succeeds iff a `<` followed by an ASCII letter occurs at or after i with a `>` later on |
| HtmlHandler.IsHtml | src/utils/html-handler.ts:18-20 | `isHtml` holds iff the text contains `<`, then a letter of either case, then a later `>` |
| HtmlHandler.TagAt | src/utils/html-handler.ts:54 | `<[^>]+>` matches from i to j exactly when that text is `<`, at least one character other than `>`, then `>`; the match is unique, and none means no tag starts at i |
| HtmlHandler.NameRun | src/utils/html-handler.ts:55 | the greedy `[a-z1-6]+` group is the longest run of name characters at that point: a slice of the tag followed by a non-name character or the end |
| HtmlHandler.TagNameFrom | src/utils/html-handler.ts:55 | a tag's name, when the pattern finds one, is non-empty |
| HtmlHandler.TagNameLeftmost | src/utils/html-handler.ts:55 | there is no name exactly when no `<` or `</` followed by a name character occurs; otherwise the name is the lower-cased longest run after the leftmost such occurrence |
| HtmlHandler.MatchAllFrom | src/utils/html-handler.ts:54 | every match the global search returns is `<`, characters other than `>`, then `>` |
| HtmlHandler.FilterBlock | src/utils/html-handler.ts:54-57 | the filter keeps exactly the matches whose name is present and not inline |
| HtmlHandler.BlockTagsFromLayout | src/utils/html-handler.ts:54-57 | the block tags kept from a position are matches of the tag pattern at their positions, left to right, non-overlapping, and none is inline |
| HtmlHandler.MatchAllIsTagMatches | src/utils/html-handler.ts:54 | the scan returns the global matches: the leftmost match, then the leftmost from its end, and so on, with no match after the last |
| HtmlHandler.TagMatchesUnique | src/utils/html-handler.ts:54 | any sequence with that leftmost-and-resume property is the one the scan returns |
| HtmlHandler.BlockTagsAreBlockMatches | src/utils/html-handler.ts:54-57 | the block tags are the global matches filtered by block-ness, in order, so every block-tag match is a split point |
| HtmlHandler.BlockTagsLayout | src/utils/html-handler.ts:54-57 | the block tags of a document lie in it at their positions, in order, without overlap, and none is inline |
| HtmlHandler.BlockTagExamples | src/utils/html-handler.ts:54-57 | `<p>` and `</div>` are block tags |
| HtmlHandler.BlockTagNameExamples | src/utils/html-handler.ts:55-56 | names are matched case-insensitively and may carry attributes or a self-closing slash |
| HtmlHandler.InlineTagExamples | src/utils/html-handler.ts:13 | tags named in the inline list, opening or closing, stay inside fragments |
| HtmlHandler.InlineTagNameExamples | src/utils/html-handler.ts:13 | an inline tag in upper case is still inline, and a comment has no name and stays in the text |
| HtmlHandler.GapAt | src/utils/html-handler.ts:67 | the text between two consecutive block tags is the slice of the document between them |
| HtmlHandler.IsNonBlank | src/utils/html-handler.ts:69 | the test on the trimmed text is true exactly for text with some non-whitespace character |
| HtmlHandler.Extract | src/utils/html-handler.ts:54-86 | `extract` returns the fragments and template that the specification functions define for the document |
| HtmlHandler.SplitAtTags | src/utils/html-handler.ts:64-84 | the loop plus the trailing text produce the fragments and template of all gaps |
| HtmlHandler.SplitLoop | src/utils/html-handler.ts:64-77 | after the loop over the tags, the fragments and template cover every gap before a tag, and the last position is the end of the last tag |
| HtmlHandler.AppendSegment | src/utils/html-handler.ts:67-76 | one step appends the gap as a new fragment with placeholder `[n]` when it is non-blank, then the tag |
| HtmlHandler.FragmentsPrefix | src/utils/html-handler.ts:70-71 | fragments are only appended, so an earlier list of fragments is a prefix of a later one |
| HtmlHandler.FragmentsHaveContent | src/utils/html-handler.ts:69-73 | every fragment has a non-whitespace character |
| HtmlHandler.ExtractFragmentsNonBlank | src/utils/html-handler.ts:69-84 | a document's fragments are all non-blank, and there is at most one more than there are block tags |
| HtmlHandler.ExtractWithoutBlockTags | src/utils/html-handler.ts:79-86 | non-blank text without block tags becomes one fragment and the template `[0]` |
| HtmlHandler.GapsInterleave | src/utils/html-handler.ts:64-79 | gaps and tags, interleaved up to a tag, spell the document up to the end of that tag |
| HtmlHandler.HtmlIsInterleaving | src/utils/html-handler.ts:64-84 | gaps and block tags, interleaved, spell the whole document |
| HtmlHandler.DigitRun | src/utils/html-handler.ts:93 | the `\d+` part of a placeholder is the longest run of digits at that point |
| HtmlHandler.PlaceholderAt | src/utils/html-handler.ts:93-94 | `\[(\d+)\]` matches the first n characters exactly when they are `[`, one or more digits, then `]`; the match is unique, its index is `parseInt` of the digits, and none means no match |
| HtmlHandler.PlaceholderTexts | src/utils/html-handler.ts:93 | a placeholder at the start ends right after the run of digits that follows `[` |
| HtmlHandler.LeadingZerosPlaceholder | src/utils/html-handler.ts:93-95 | `[007]` is read as index 7 and replaced by translation 7 |
| HtmlHandler.PlaceholderAtOf | src/utils/html-handler.ts:93-94 | the placeholder written for fragment k is recognised at the start of the template and read back as k |
| HtmlHandler.RestoreConcat | src/utils/html-handler.ts:93 | replacing placeholders distributes over a concatenation whose left part cannot end inside a placeholder |
| HtmlHandler.RestoreNoPlaceholder | src/utils/html-handler.ts:92-98 | text without placeholders comes back unchanged |
| HtmlHandler.RestoreAnyPlaceholder | src/utils/html-handler.ts:93-96 | any `[digits]` text, leading zeros included, is replaced by the translation its `parseInt` value names when one exists and kept as written otherwise; the text after it is restored on its own |
| HtmlHandler.RestorePlaceholder | src/utils/html-handler.ts:93-96 | the placeholder `[k]` that extract writes is replaced by translation k when it exists and kept as written otherwise |
| HtmlHandler.RestoreLonePlaceholder | src/utils/html-handler.ts:94-96 | a template that is a single `[digits]` text naming no translation comes back as it is |
| HtmlHandler.RestoreOutOfRange | src/utils/html-handler.ts:94-96 | a template that is the placeholder `[k]` with no translation k comes back as it is |
| HtmlHandler.LeadingZerosOutOfRange | src/utils/html-handler.ts:93-96 | with seven translations or fewer, `[007]` comes back as written |
| HtmlHandler.RestoreTemplate | src/utils/html-handler.ts:92-98 | restoring a template puts translation number n in the slot of the n-th non-blank gap and keeps every block tag as it was |
| HtmlHandler.AssembledWithOwnFragments | src/utils/html-handler.ts:64-84 | filling the slots with the fragments themselves gives the gaps and tags interleaved again |
| HtmlHandler.AssembledWithEmptyFragments | src/utils/html-handler.ts:64-77 | filling the slots with empty strings leaves only the tags |
| HtmlHandler.ExtractRestoreRoundTrip | src/utils/html-handler.ts:54-98 | restoring a document's template with its own fragments gives the document back, when no gap is whitespace-only and no block tag contains a placeholder |
| HtmlHandler.ExtractRestoreTranslated | src/utils/html-handler.ts:54-98 | when no block tag contains a `[digits]` text, restoring with a translation per fragment gives the block tags unchanged, in place, with the i-th non-blank gap replaced by the i-th translation |
| HtmlHandler.ExtractTemplateSkeleton | src/utils/html-handler.ts:64-77 | when no block tag contains a `[digits]` text, restoring the template with every fragment emptied gives the block tags verbatim, in document order |
| CacheService.RunEnd | src/services/cache.service.ts:25 | the greedy run of punctuation (or of non-punctuation) from p ends at the first character of the other kind |
| CacheService.Scan | src/services/cache.service.ts:25 | every match the scanner returns is a match of the sentence pattern at or after the start, and the matches are ordered and non-overlapping |
| CacheService.RunEndUnique | src/services/cache.service.ts:25 | a run's end is determined by the run's characters and the one after it |
| CacheService.MatchDetermined | src/services/cache.service.ts:25 | a match is determined by its start: both greedy runs are maximal |
| CacheService.MatchUnique | src/services/cache.service.ts:25 | two matches at the same start are equal |
| CacheService.NoMatchJoin | src/services/cache.service.ts:25 | two adjacent match-free stretches form one match-free stretch |
| CacheService.GlobalMatchesExtend | src/services/cache.service.ts:25 | a global match sequence from a later start is also one from an earlier start when no match begins in between |
| CacheService.NoMatchBeforeFailedStop | src/services/cache.service.ts:25 | when the lookahead fails after the punctuation run, no match starts anywhere up to the end of that run |
| CacheService.MatchHasPunct | src/services/cache.service.ts:25 | a match contains at least one punctuation character |
| CacheService.NoMatchInTail | src/services/cache.service.ts:25 | a tail without punctuation holds no match |
| CacheService.ScanIsGlobalMatch | src/services/cache.service.ts:25 | the scanner computes the global, leftmost, non-overlapping matches of the sentence pattern |
| CacheService.GlobalMatchesUnique | src/services/cache.service.ts:25 | a text has only one such sequence of matches |
| CacheService.SplitIntoSentences | src/services/cache.service.ts:20-29 | the splitter never returns an empty list |
| CacheService.SplitKeepsWhole | src/services/cache.service.ts:21-27 | a text under 100 characters, or with at most one match, comes back whole |
| CacheService.SplitIntoMatches | src/services/cache.service.ts:25-28 | otherwise there is one piece per global match, each the trimmed match text, each a sentence, in text order without overlap |
| CacheService.TrimmedRunsAreSentence | src/services/cache.service.ts:28 | trimming a run that ends in punctuation gives a non-empty sentence that ends in punctuation and has no surrounding whitespace |
| CacheService.TrimEndKeeps | src/services/cache.service.ts:28 | text ending in a non-whitespace character loses nothing at the back when trimmed |
| CacheService.SuffixSplitsAt | src/services/cache.service.ts:28 | dropping leading characters keeps the split between body and punctuation |
| CacheService.MatchIsSentence | src/services/cache.service.ts:25-28 | every trimmed match is a sentence |
| CacheService.Hashes | src/services/cache.service.ts:39 | definition: one hash per text, position by position |
| CacheService.CachedTranslations | src/services/cache.service.ts:31-54 | an empty input gives an empty map without querying the store |
| CacheService.FoundTextsDistinct | src/services/cache.service.ts:41-51 | in a store whose rows carry their text's hash, the selected rows have pairwise different source texts |
| CacheService.TextMapAdd | src/services/cache.service.ts:49-51 | adding one more row to the loop sets one more key of the map |
| CacheService.CachedTranslationsExact | src/services/cache.service.ts:39-51 | each entry of the result comes from a stored row for the language pair whose hash is one of the inputs' hashes, and every such row appears in the result |
| CacheService.CachedKeysAreInputs | src/services/cache.service.ts:39-51 | with a collision-free hash, only input texts come back as keys |
| CacheService.CacheService.GetCachedTranslations | src/services/cache.service.ts:31-54 | the lookup method returns the specification's map and leaves the store as it was |
| CacheService.Rows | src/services/cache.service.ts:59-65 | definition: one row per item, with its text's hash and the item's four fields |
| CacheService.InsertKeepsStored | src/services/cache.service.ts:69-72 | skip-duplicates insertion never changes a stored row, and the keys afterwards are the old keys plus the batch's keys |
| CacheService.InsertFirstWins | src/services/cache.service.ts:69-72 | a new key takes the first row of the batch that carries it |
| CacheService.InsertAllTaken | src/services/cache.service.ts:69-72 | a batch whose keys are all stored changes nothing |
| CacheService.InsertIdempotent | src/services/cache.service.ts:56-73 | saving the same batch twice is the same as saving it once |
| CacheService.InsertConsistent | src/services/cache.service.ts:59-72 | saving rows that carry their text's hash keeps every stored row consistent with its hash |
| CacheService.SaveThenLookup | src/services/cache.service.ts:31-73 | after saving a new item, looking its text up for its language pair returns its translation |
| CacheService.CacheService.SaveTranslations | src/services/cache.service.ts:56-73 | the save method inserts the batch skipping duplicates, changes nothing for an empty batch, and keeps the store consistent |
| AiService.NewAiService | src/services/ai.service.ts:10-17 | a client exists exactly when the key is a non-empty string |
| AiService.SubstringPrefix | src/services/ai.service.ts:47 | `substring(0, n)` is the prefix of length n clamped into the string; a negative n gives the empty string |
| AiService.Candidate | src/services/ai.service.ts:43 | the answer, trimmed, when it has non-whitespace content; otherwise the original text |
| AiService.ShortenText | src/services/ai.service.ts:19-55 | no client gives the text unchanged; a thrown call gives the longest prefix of the text within the budget; an answer within the budget is returned as it is; a longer one becomes a prefix of the answer followed by "...", max(budget, 3) characters in all |
| AiService.RepliedWithinBudget | src/services/ai.service.ts:46-50 | with a budget of at least 3 an answered call never exceeds it; below 3 an over-long answer becomes "..." |
| AiService.BlankReplyUsesText | src/services/ai.service.ts:43-50 | a missing or blank answer falls back to the original text |
| AiService.UnconfiguredServiceKeepsText | src/services/ai.service.ts:10-23 | a service built without a key returns every text unchanged |
| TranslationWorker.ChunksCover | src/queue/translation.worker.ts:26-27 | the chunks, concatenated, are exactly the texts; each holds 1 to 50 texts, and all but the last exactly 50 |
| TranslationWorker.PrependPrepend | src/queue/translation.worker.ts:34 | helper (proof step): concatenating batch results is associative |
| TranslationWorker.TranslateInChunks | src/queue/translation.worker.ts:23-35 | the loop returns what the recursive specification gives: the translations concatenated in chunk order, or the first request's error |
| TranslationWorker.TranslateChunksLength | src/queue/translation.worker.ts:26-35 | with a translator that answers one text per text, a successful run gives one translation per text |
| TranslationWorker.ZipNodes | src/queue/translation.worker.ts:37-40 | definition: the translated nodes keep the extracted paths, in order, and carry the translations by position |
| TranslationWorker.Texts | src/queue/translation.worker.ts:21 | definition: the texts are the nodes' values, in order |
| TranslationWorker.CallbackFor | src/queue/translation.worker.ts:45-67 | the callback goes to the job's URL with its metadata; it is `completed` with the data exactly when the job succeeded, and `failed` with the error otherwise |
| TranslationWorker.NoLeavesNoRequests | src/queue/translation.worker.ts:20-42 | a document without string leaves sends no request and completes with a copy of itself |
| TranslationWorker.TranslatedJsonSuccess | src/queue/translation.worker.ts:20-42 | when every request succeeds, a non-string document completes with the same shape and with its leaves carrying the translations, path by path and in order |
| TranslationWorker.RootStringJobFails | src/queue/translation.worker.ts:37-42 | a document that is a bare string fails even when translation succeeds |
| TranslationWorker.CallbackQueue.Add | src/queue/callback.queue.ts:32-34 | adding a callback job appends it to the queue |
| TranslationWorker.HandleTranslationJob | src/queue/translation.worker.ts:14-70 | the handler queues exactly one callback, the one `CallbackFor` gives for the job's outcome; it returns normally exactly when the job succeeded, and otherwise rethrows the same error |

## Left out

- Lines 27-53 of `src/utils/html-handler.ts` are not modelled. That first attempt at `extract` builds values that the rest of the function never reads, and `fragments` is only declared there.
- Strings are sequences of characters. JavaScript counts UTF-16 code units, so lengths, `substring` bounds and the 100-character threshold are exact only for text without surrogate pairs.
- Regular expressions are modelled for the patterns used, character by character. `\s` and `trim` use JavaScript's whitespace set.
- `parseInt` is modelled for the digit runs the placeholder pattern matches. Indices large enough to lose precision as a JavaScript number are read exactly.
- Error messages are opaque strings. The wording of the `TypeError` a failed write raises is not modelled.
- SHA-256 is not modelled. The hash is a parameter of the cache, and lemmas that need a collision-free hash take that as a hypothesis.
- The database is an in-memory map keyed by (hash, source language, target language). The schema's uniqueness constraint is not part of this model, and that key is the one assumed for `skipDuplicates`.
- `findMany` returns rows in no particular order. The model uses a set of rows, which is enough because the selected rows have distinct source texts.
- The chat call is not modelled. Its outcome is the `ChatOutcome` parameter, and the prompt, model name and temperature do not affect the result.
- `maxLength` is an integer. Fractions and `NaN` are not modelled.
- The translator (`src/services/deepl.service.ts:11-31`) is a function parameter. For an array input the vendor library returns an array of the same length.
- HandleTranslationJob: requires `LengthPreserving(translate)`. A translator that answered fewer texts would make the source write `value: undefined` for the missing positions (`src/queue/translation.worker.ts:37-40`); on serialisation such an object key disappears and such an array slot becomes `null`. That case is not modelled.
- TranslatedJson: requires `LengthPreserving(translate)`, for the same reason as HandleTranslationJob.
- The clock is the parameter `now`, shared by both timestamps.
- Logging, BullMQ scheduling, retries, back-off and concurrency are left out.
- The callback queue is a list of added jobs. A failure of `addCallbackJob` itself is not modelled; in the source, a throw on the completed path would also queue a `failed` callback.
- The worker does not pass the `apiKey`, `sourceLang` and `targetLang` fields of `CallbackJobData` (`src/queue/callback.queue.ts:18-30`), so the payload datatype omits them.
- An object's keys are held in JavaScript's enumeration order: array-index keys ascending, then the other keys in insertion order. A key the write-back adds is placed where JavaScript places it: an array-index key at its numeric place among the leading index keys, any other key at the end.
- ReconstructLaterWins: proved when the earlier write and every write between the two hit existing string leaves. When writes in between add keys, the results can differ in key order even in JavaScript (add `x`, add `y`, write `x` again gives keys `x, y`; dropping the first write gives `y, x`), so no equality is claimed there.
- A request without `json` passes the route's schema (`z.any()` at `src/routes/translate.ts:6`) and reaches the worker as `undefined`. No strings are extracted, and the deep clone at `src/utils/json-traversal.ts:33` throws on `JSON.parse("undefined")`, so the job sends a `failed` callback and rethrows. The model's job data always holds a JSON value, so this path is not represented.
- Writing through a path into prototype properties, or to `length`, is not modelled: `current[key]` reads own keys and canonical array indices only.
- ExtractRestoreTranslated: requires that no block tag contains a `[digits]` text. Otherwise `restore` (`src/utils/html-handler.ts:93`) rewrites it inside the tag too (`<div title="[0]">`), and the tags do not come back unchanged.
- ExtractTemplateSkeleton: requires that no block tag contains a `[digits]` text, for the same reason as ExtractRestoreTranslated.
- ExtractRestoreRoundTrip: holds only when no gap between block tags is whitespace-only and no block tag contains a placeholder-like `[n]`. Otherwise the source drops the blank gap or rewrites the tag, and the equality fails.
- `src/config/env.ts:6-13` declares no `AI_API_KEY`, and schema parsing drops undeclared keys, so the deployed service is always built without a key. UnconfiguredServiceKeepsText states that case. The configured case is modelled as well.
- CacheService.IsSentence: a sentence is a run of non-punctuation followed by a run of punctuation. After trimming, the non-punctuation part may be empty (a match of spaces then `!`), so the model does not require it to be non-empty.
