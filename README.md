# SefariaPlugin, modelled in Dafny

SefariaPlugin is a browser custom element, `<sefaria-plugin sref="...">`, with two versions:

- plugin.js is the current one.
- template.js is an older copy.

The element loads the English text of a Sefaria reference. It asks OpenAI for search queries about that text, sends every query to Wikipedia or YouTube, and lists the merged results with duplicate titles removed. A Wikipedia entry links to the article. A YouTube entry plays the video in an embedded player, and a Back button returns to the list.

The model has these parts:

- `JsStrings`: the ECMAScript string operations the code relies on. `trim` uses the full ECMAScript white-space and line-terminator set. `split` on one character always yields at least one piece. `replace(/ /g, '_')` is `ReplaceAll`.
- `UriComponent`: `encodeURIComponent`. Unreserved characters are kept. Every other character becomes the `%XY` encoding (upper-case hex) of each byte of its UTF-8 form, as in section 2.1 of RFC 3986. A percent-decoder is included, so the encoding can be shown to lose nothing.
- `Queries`: the reply parse of `generateSearchQueries`. The whole reply is trimmed, split on `;` and each piece trimmed. Empty pieces are kept.
- `FanOut`: the merge in `searchWikipedia` and `searchYouTube`. `Promise.all` becomes an in-order map over an oracle. Each failure counts as `[]`, and the per-query lists are concatenated in query order.
- `Results`: the records, the entries `displayResults` builds from them, and its title-keyed de-duplication. `Dedup` is the specification of that one pass with a set of the titles seen.
- `Widget`: what both versions share. It holds the fixed texts, the abstraction of the result panel and of `style.display`, and the rule that ties the API-key fields to the visible component.
- `Plugin.SefariaPlugin`: the plugin.js element, as a class with one field per element property its methods change. `DisplayResults` clears the list, and its `forEach` loop, `AppendUnique`, is proved against `Dedup` and `Entries`.
- `Template.SefariaPlugin`: the template.js element. Its `handleSearch` checks the API keys first. It calls `displayResults`, `searchWikipedia` and `searchTwitter` without defining them; such a call throws, and `handleSearch` catches it and shows "An error occurred during search.".

Network results are parameters:

- `reply: Option<string>` is the OpenAI `message.content`. `None` means the request failed or threw.
- `fetch(i, q)` is the outcome of the i-th provider request, for query `q`. `None` means it threw or its payload had no `query.search` or `items` field.
- `fetched: Option<string>` is the Sefaria text, or `None` when that request failed.

Each method is one atomic step that receives those outcomes.

The reply parse and the YouTube merge of template.js (template.js:187-188 and 195-210) are the same code as in plugin.js (plugin.js:213-214 and 252-268), so `Queries` and `FanOut` model both, and `Template.SefariaPlugin` uses them.

## Model

| member | source | states |
|---|---|---|
| JsStrings.Trim | plugin.js:213-214 | the result has no leading or trailing white space and is no longer than the input |
| JsStrings.TrimDecomposes | plugin.js:213-214 | the input is white space, then the trimmed string, then white space: trimming removes only white space at the two ends |
| JsStrings.TrimKeepsCharacters | plugin.js:213-214 | every character of the trimmed string occurs in the input |
| JsStrings.TrimIdempotent | plugin.js:213-214 | trimming twice is trimming once |
| JsStrings.TrimOfTrimmed | plugin.js:213-214 | a string with no white space at either end is its own trim |
| JsStrings.TrimEmptyIff | plugin.js:213-214 | the trim is empty exactly when the input is all white space |
| JsStrings.OccurrencesTrim | plugin.js:213-214 | trimming keeps the number of `;` (any non-white-space character) |
| JsStrings.Split | plugin.js:214 | `split` on one character gives one more piece than there are separators, and no piece contains the separator |
| JsStrings.JoinSplit | plugin.js:214 | joining the pieces with the separator gives back the split string |
| JsStrings.SplitJoin | plugin.js:214 | splitting a join of separator-free pieces gives back the pieces, empty ones included |
| JsStrings.SplitPiece | plugin.js:214 | for `;`-free `p`, splitting `p;t` is `p` followed by the split of `t` |
| JsStrings.ReplaceAll | plugin.js:300 | `replace(/ /g, '_')` changes each space and no other character |
| JsStrings.ReplaceAllRemoves | plugin.js:300 | after replacing, no space is left, and replacing again changes nothing |
| Queries.Parse | plugin.js:213-214 | the query list is never empty and every query is trimmed |
| Queries.TrimEach | plugin.js:214 | `map(q => q.trim())` trims each piece and keeps their number and order |
| Queries.ParseNoSeparator | plugin.js:214 | no query contains `;` |
| Queries.ParseCount | plugin.js:213-214 | there are exactly as many queries as `;` in the reply, plus one, so the "No queries generated." branch (plugin.js:140-143) is never taken after a successful generation |
| Queries.ParseJoin | plugin.js:213-214 | trimmed, `;`-free queries joined with `;` parse back to themselves |
| Queries.ParseOfPieces | plugin.js:213-214 | any `;`-free pieces joined with `;`, white space at their ends and empty pieces included, parse to the trimmed pieces |
| Queries.ParseUntrimmed | plugin.js:213-214 | trimming the whole reply first changes nothing: the parse is the untrimmed reply's pieces, each trimmed |
| Queries.ParseKeepsEmpty | plugin.js:213-214 | `";;"` parses to three empty queries and `""` to one: empty pieces are kept |
| FanOut.MergeAppend | plugin.js:238 | the merge of two groups of queries is the first group's records followed by the second's |
| FanOut.MergeAt | plugin.js:237-238 | the i-th query's records sit, unchanged, between the records of the queries before it and after it |
| FanOut.MergeFailureIsolated | plugin.js:224-238 | a failing query contributes nothing and leaves every other query's records in place |
| FanOut.OracleFailureIsolated | plugin.js:222-238 | if one query's request fails and every other request answers as before, the merge is the other queries' records, in order, with nothing from the failed one |
| FanOut.MergeEmptyIff | plugin.js:238-241 | the merge is empty exactly when every query contributed nothing |
| FanOut.MergeMembers | plugin.js:238 | a record is merged exactly when some query returned it |
| FanOut.MergeLength | plugin.js:238 | the merge is as long as all per-query lists together |
| UriComponent.HexDigit | plugin.js:300 | each hex digit `encodeURIComponent` writes is itself unreserved |
| UriComponent.Utf8 | plugin.js:300 | a character is one byte, equal to its code, exactly when it is ASCII, and at most four bytes otherwise |
| UriComponent.PercentBytes | plugin.js:300 | `%XY` per byte: three characters per byte, each `%` or unreserved |
| UriComponent.Encode | plugin.js:300 | every character of the encoding is `%` or unreserved |
| UriComponent.DecodeEncode | plugin.js:300 | percent-decoding the encoding gives exactly the UTF-8 bytes of the string |
| UriComponent.EncodeIdentityIff | plugin.js:300 | a string is its own encoding exactly when all its characters are unreserved |
| UriComponent.EncodeLength | plugin.js:300 | the encoding is never shorter than the string |
| Results.WikiUrl | plugin.js:300 | the link starts with `https://en.wikipedia.org/wiki/`, and the rest has no space and only `%` or unreserved characters |
| Results.WikiUrlDecodes | plugin.js:300 | the page path decodes to the UTF-8 bytes of the title with every space turned into `_` |
| Results.TitlesMembers | plugin.js:294-309 | a title is among those seen exactly when some record so far carries it |
| Results.DedupTitles | plugin.js:293-309 | the kept records have exactly the input's titles |
| Results.DedupDistinct | plugin.js:307-309 | no two kept records share a title |
| Results.DedupSubsequence | plugin.js:296-323 | the kept records are a subsequence of the input, in input order |
| Results.DedupKeepsFirst | plugin.js:307-321 | the first record with each title is kept |
| Results.DedupOnlyFirsts | plugin.js:307-321 | every kept record is the first input record with its title |
| Results.DedupLength | plugin.js:293-323 | one record is kept per distinct title, never more than the input has |
| Results.DistinctTitlesCount | plugin.js:294 | records with distinct titles have as many titles as records |
| Results.TitlesAtMost | plugin.js:294 | there are never more titles than records |
| Results.DedupOfDistinct | plugin.js:307-321 | records whose titles are already distinct are all kept, in order |
| Results.DedupIdempotent | plugin.js:293-323 | de-duplicating twice is de-duplicating once |
| Results.DedupEntryForTitle | plugin.js:302-321 | for each title there is exactly one entry, and it is the entry of the first record with that title; no two entries share a text |
| Results.EntriesDistinctTexts | plugin.js:307-321 | records with distinct titles give entries with distinct texts |
| Results.SameTitleVideosCollapse | plugin.js:302-315 | two videos with the same title and different ids give one entry, which plays the first video |
| Widget.ResultsPanel | plugin.js:240-244 | an empty merge shows "No results found."; otherwise the panel lists one entry per distinct title |
| Plugin.SefariaPlugin.constructor | plugin.js:6-97 | no keys, setup shown, search hidden, no text, nothing in the panel, and the invariant holds |
| Plugin.SefariaPlugin.SaveKeys | plugin.js:100-115 | with an empty trimmed key only the error text changes; otherwise both trimmed keys are stored, the components swap and the error is cleared |
| Plugin.SefariaPlugin.HandleSearch | plugin.js:129-158 | with no text nothing changes; otherwise only the panel changes: the error text after a failed generation, the provider's results, the Twitter notice, or "Searching..." for an unknown source |
| Plugin.SefariaPlugin.SearchWikipedia | plugin.js:218-245 | only the panel changes, to "No results found." for an empty merge and to the de-duplicated Wikipedia entries otherwise |
| Plugin.SefariaPlugin.SearchYouTube | plugin.js:248-275 | only the panel changes, to "No results found." for an empty merge and to the de-duplicated YouTube entries otherwise |
| Plugin.SefariaPlugin.SearchTwitter | plugin.js:278-281 | only the panel changes, to the fixed not-implemented notice |
| Plugin.SefariaPlugin.DisplayResults | plugin.js:283-324 | only the panel changes: the warning for no records, otherwise the entries of the first record of each title, in order |
| Plugin.SefariaPlugin.AppendUnique | plugin.js:293-323 | the pass over the records, with its set of titles seen, leaves exactly the entries of the first record of each title, in order, and changes nothing but the list |
| Plugin.SefariaPlugin.ShowYouTubeVideo | plugin.js:326-330 | the list is hidden, the player shown and its source is the embed URL of the video; nothing else changes |
| Plugin.SefariaPlugin.HandleBack | plugin.js:332-336 | the source is cleared, the player hidden and the list shown, from any state, so a second call changes nothing; the list's entries are untouched |
| Plugin.SefariaPlugin.AttributeChanged | plugin.js:161-170 | only a new value of `sref` does anything: the loaded text is stored, or on failure the text is kept and the panel says so |
| Plugin.SefariaPlugin.FetchSefariaText | plugin.js:172-186 | the panel shows the loading text, then "Sefaria text loaded." if the request succeeded; the text returned is the fetched one |
| Template.SefariaPlugin.constructor | template.js:6-98 | no keys, setup shown, search hidden, no text |
| Template.SefariaPlugin.SaveKeys | template.js:112-127 | with an empty trimmed key only the error text changes; otherwise both trimmed keys are stored, the components swap and the error is cleared |
| Template.SefariaPlugin.HandleSearch | template.js:129-161 | without both keys only the error text changes, checked before the text; with no text nothing changes; otherwise only the panel changes, ending in the error text for a failed generation, for Wikipedia and Twitter, and for a non-empty YouTube merge, in "No results found." for an empty one, and in "Searching..." for an unknown source |
| Template.SefariaPlugin.SearchYouTube | template.js:191-217 | it throws exactly when the merge is non-empty, and then changes nothing; otherwise the panel says "No results found." |

Some members are definitions with no contract of their own. What the code promises about them is stated by the lemmas built on them:

- `FanOut.Payload` and `FanOut.Outcomes`, the per-query `catch` and the `Promise.all` map (plugin.js:222-237): `FanOut.MergeAt`, `FanOut.MergeFailureIsolated` and `FanOut.OracleFailureIsolated`.
- `FanOut.Merge`, the `[].concat(...resultsArrays)` of plugin.js:238, plugin.js:268 and template.js:210: `FanOut.MergeAppend`, `FanOut.MergeAt`, `FanOut.MergeFailureIsolated`, `FanOut.MergeEmptyIff`, `FanOut.MergeMembers` and `FanOut.MergeLength`.
- `Results.Titles` and `Results.Dedup`, the `titles` set and the records kept by the pass of `displayResults` (plugin.js:293-323), which `Plugin.SefariaPlugin.AppendUnique` is proved to compute: `Results.TitlesMembers`, `Results.DedupTitles`, `Results.DedupDistinct`, `Results.DedupSubsequence`, `Results.DedupKeepsFirst` and `Results.DedupOnlyFirsts`.
- `Results.EntryFor` and `Results.Entries`, the entry built for each kept record (plugin.js:302-319): `Results.WikiUrl`, `Results.DedupEntryForTitle`, `Results.EntriesDistinctTexts` and `Results.SameTitleVideosCollapse`.

The class invariant `Valid` of `Plugin.SefariaPlugin` is proved to be kept by every method. It says three things:

- Either no key is stored and the setup component is shown, or both keys are stored, trimmed and non-empty, and the search component is shown.
- Exactly one of the result list and the player is visible.
- The iframe has an embed URL while the player is visible, and no source otherwise.

In `Template.SefariaPlugin`, `Valid` holds only the first of these.

## Left out

- The shadow-DOM markup and CSS, and the lookups of its elements: each element the code changes is a plain field. The stylesheet hides the player until its style is first set; `Widget.PlayerVisible` models that.
- Event-listener wiring and unwiring (`connectedCallback`, `disconnectedCallback`): browser plumbing. Each method models what one event does.
- Every `fetch` to Sefaria, OpenAI, Wikipedia or YouTube, and the JSON decoding of the answers: network I/O, passed in as oracle values. The request URLs are built from these values with `encodeURIComponent`, but they only reach the network, so they are not modelled.
- The prompt text and the request parameters (`model`, `max_tokens`, `temperature`, `maxResults=5`). The YouTube limit of five is a hint to the server that the code never enforces, so no bound is stated.
- Concurrency. `Promise.all` is modelled as an in-order map. Overlapping `attributeChangedCallback` and `handleSearch` calls are not modelled: each operation is one atomic step, and the code has no rule that the last call wins.
- `alert`, `console.error` and `customElements.define`: they change no modelled state.
- Records missing `title`, `snippet` or `id`: `displayResults` would throw on them, and an uncaught throw inside `searchWikipedia`/`searchYouTube` would end in the `handleSearch` error text. The model takes each record as its `Hit(title, videoId)`.
- A YouTube record that has `snippet` and `id` but no `snippet.title` or no `id.videoId` (plugin.js:302-303): nothing throws. A missing title is the key `undefined` in the `titles` set, distinct from every string, so the first such record gets an entry with empty text and later ones are dropped; a missing video id makes the entry open the embed URL ending in `undefined`. Titles and ids are strings in the model, so these `undefined` values are not represented.
- `encodeURIComponent` on a string with a lone surrogate throws `URIError`; Dafny strings hold only Unicode scalar values, so no such input exists in the model.
- `sefariaText` is modelled as a string. `data.versions[0].text` can be an array, which the code stores as it is and later places in the prompt.
- The YouTube watch URL that `displayResults` computes for its records (plugin.js:304) is never used, so no entry carries it.
- Template.SefariaPlugin: the class never assigns `sefariaText` after its constructor and has no `attributeChangedCallback`, so in the deployed class `handleSearch` always stops at the text check. The model still states `HandleSearch` for any text. The class also has no `handleBack`, and its player is never shown, so it has no display fields.
- `Plugin.SefariaPlugin.HandleSearch` leaves out the "No queries generated." branch because `Queries.Parse` is proved never empty. The code keeps empty pieces (`Queries.ParseKeepsEmpty`), and the model follows the code.
- `Plugin.SefariaPlugin.AttributeChanged`: `newValue !== oldValue` is modelled as inequality of two optional strings (`null` is `None`). A removed attribute therefore requests the text for `"null"`; that request is part of the oracle.
