/** The older `SefariaPlugin` of template.js. It has the same key setup as the
    current element, a `handleSearch` that first checks that both API keys are
    set, and only one provider search, `searchYouTube`. It calls
    `displayResults`, `searchWikipedia` and `searchTwitter` without defining
    them: each such call throws, and `handleSearch` catches the error and shows
    "An error occurred during search.". The class never assigns `sefariaText`
    after its constructor. */
module Template {
  import opened Options
  import opened JsStrings
  import opened Queries
  import opened FanOut
  import opened Results
  import opened Widget

  /** The element's observable state, field by field */
  datatype Snapshot = Snapshot(
    openAIKey: Option<string>,
    youTubeKey: Option<string>,
    setupHidden: bool,
    searchHidden: bool,
    errorText: string,
    panel: Panel,
    sefariaText: string)

  const Initial := Snapshot(None, None, false, true, "", Message(""), "")

  class SefariaPlugin {
    var openAIKey: Option<string>    // apiKeys.openai
    var youTubeKey: Option<string>   // apiKeys.youtube
    var setupHidden: bool            // setupComponent has class d-none
    var searchHidden: bool           // searchComponent has class d-none
    var errorText: string            // errorMessage.textContent
    var panel: Panel                 // searchResultsDiv contents
    var sefariaText: string

    function State(): Snapshot
      reads this
    {
      Snapshot(openAIKey, youTubeKey, setupHidden, searchHidden, errorText, panel, sefariaText)
    }

    /** The key fields agree with the visible component. */
    ghost predicate Valid()
      reads this
    {
      KeysAgree(openAIKey, youTubeKey, setupHidden, searchHidden)
    }

    constructor ()
      ensures Valid() && State() == Initial
    {
      openAIKey, youTubeKey := None, None;
      setupHidden, searchHidden := false, true;
      errorText := "";
      panel := Message("");
      sefariaText := "";
    }

    /** `saveKeys`, as in the current element: with either trimmed input empty only the error
        text changes; otherwise both trimmed keys are stored and the components swapped. */
    method SaveKeys(openAIInput: string, youTubeInput: string)
      requires Valid()
      modifies this
      ensures Valid()
      ensures var openAI, youTube := Trim(openAIInput), Trim(youTubeInput);
              if openAI == "" || youTube == "" then
                State() == old(State()).(errorText := KeysRequired)
              else
                State() == old(State()).(openAIKey := Some(openAI), youTubeKey := Some(youTube),
                                         setupHidden := true, searchHidden := false, errorText := "")
    {
      var openAI := Trim(openAIInput);
      var youTube := Trim(youTubeInput);
      if openAI == "" || youTube == "" {
        errorText := KeysRequired;
        return;
      }
      openAIKey := Some(openAI);
      youTubeKey := Some(youTube);
      setupHidden := true;
      searchHidden := false;
      errorText := "";
    }

    /** `handleSearch`: without both keys only the error text changes, and this is checked
        before the text; with no text nothing changes; otherwise only the panel changes. A
        failed generation, the Wikipedia and Twitter sources (whose search methods are not
        defined) and a non-empty YouTube merge (whose `displayResults` is not defined) all end
        in the error text; an empty YouTube merge ends in "No results found." and an unknown
        source in "Searching...". */
    method HandleSearch(dataSource: string, reply: Option<string>, fetch: (nat, string) -> Option<seq<Hit>>)
      requires Valid()
      modifies this
      ensures Valid()
      ensures !Truthy(old(openAIKey)) || !Truthy(old(youTubeKey)) ==>
                State() == old(State()).(errorText := KeysNotSet)
      ensures Truthy(old(openAIKey)) && Truthy(old(youTubeKey)) && old(sefariaText) == "" ==>
                State() == old(State())
      ensures Truthy(old(openAIKey)) && Truthy(old(youTubeKey)) && old(sefariaText) != "" ==>
                State() == old(State()).(panel := panel)
                && panel == (if reply.None? then Message(SearchFailed)
                             else if dataSource == "wikipedia" || dataSource == "twitter" then Message(SearchFailed)
                             else if dataSource == "youtube" then
                               (if Merge(Outcomes(Parse(reply.value), fetch)) == [] then Message(NoResults)
                                else Message(SearchFailed))
                             else Message(Searching))
    {
      if !Truthy(openAIKey) || !Truthy(youTubeKey) {
        errorText := KeysNotSet;
        return;
      }
      if sefariaText == "" {
        return;
      }
      panel := Message(GeneratingQueries);
      if reply.None? {
        panel := Message(SearchFailed);
        return;
      }
      var queries := Parse(reply.value);
      panel := Message(Searching);
      var threw := false;
      if dataSource == "wikipedia" {
        threw := true;
      } else if dataSource == "youtube" {
        threw := SearchYouTube(queries, fetch);
      } else if dataSource == "twitter" {
        threw := true;
      }
      if threw {
        panel := Message(SearchFailed);
      }
    }

    /** `searchYouTube`: merges the per-query item lists; an empty merge shows "No results found."
        and returns normally, any other merge reaches the undefined `displayResults` and throws
        with the panel untouched. */
    method SearchYouTube(queries: seq<string>, fetch: (nat, string) -> Option<seq<Hit>>) returns (threw: bool)
      requires Valid()
      modifies this
      ensures Valid()
      ensures threw <==> Merge(Outcomes(queries, fetch)) != []
      ensures State() == if threw then old(State()) else old(State()).(panel := Message(NoResults))
    {
      var resultsArrays := Outcomes(queries, fetch);
      var allResults := Merge(resultsArrays);
      if |allResults| == 0 {
        panel := Message(NoResults);
        return false;
      }
      return true;
    }
  }
}
