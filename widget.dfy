/** What the two versions of the `SefariaPlugin` element share: the texts they
    show, the abstraction of the result panel and of inline display styles,
    and the rule for the API-key fields. */
module Widget {
  import opened Options
  import opened JsStrings
  import opened Results

  /** A value of `style.display`: never assigned (the stylesheet decides), `none`, or `block` */
  datatype Display = Inherited | Hidden | Block

  /** What `searchResultsDiv` holds: markup assigned to `innerHTML`, or the anchors appended
      after `innerHTML` was cleared */
  datatype Panel = Message(html: string) | Listing(entries: seq<Entry>)

  const KeysRequired := "Both OpenAI and YouTube API keys are required."
  const KeysNotSet := "API keys are not set."
  const GeneratingQueries := "Generating queries..."
  const Searching := "Searching..."
  const SearchFailed := "An error occurred during search."
  const NoResults := "No results found."
  const NoResultsAlert := "<div class=\"alert alert-warning\">No results found.</div>"
  const TwitterUnavailable := "Twitter API access requires authentication. This functionality is not implemented."
  const FetchingText := "Fetching Sefaria text..."
  const TextLoaded := "Sefaria text loaded."
  const FetchFailed := "Failed to fetch Sefaria text."
  const EmbedBase := "https://www.youtube.com/embed/"

  /** JavaScript truthiness of an `apiKeys` field: set, and not the empty string */
  predicate Truthy(key: Option<string>) {
    key.Some? && key.value != ""
  }

  /** What `saveKeys` stores: a trimmed, non-empty key */
  ghost predicate StoredKey(key: Option<string>) {
    key.Some? && key.value != "" && IsTrimmed(key.value)
  }

  /** The key fields and the two components agree: either no key is stored and the setup
      component is the one shown, or both keys are stored and the search component is. */
  ghost predicate KeysAgree(openAIKey: Option<string>, youTubeKey: Option<string>, setupHidden: bool, searchHidden: bool) {
    || (openAIKey.None? && youTubeKey.None? && !setupHidden && searchHidden)
    || (StoredKey(openAIKey) && StoredKey(youTubeKey) && setupHidden && !searchHidden)
  }

  /** The result list is visible unless its style says `none` */
  predicate ListVisible(d: Display) {
    d != Hidden
  }

  /** The player is visible only once its style says `block`; the stylesheet hides it */
  predicate PlayerVisible(d: Display) {
    d == Block
  }

  /** What a Wikipedia or YouTube search leaves in the panel for the merged records `found`:
      the "no results" text when nothing was found, otherwise one entry per distinct title */
  function ResultsPanel(found: seq<Hit>, source: Provider): (p: Panel)
    ensures found == [] <==> p == Message(NoResults)
    ensures found != [] ==> p.Listing? && |p.entries| == |Titles(found)| > 0
  {
    DedupLength(found);
    if found == [] then Message(NoResults) else
      assert found[|found| - 1].title in Titles(found);
      Listing(Entries(Dedup(found), source))
  }
}
