/** The `SefariaPlugin` custom element of plugin.js, as a class whose fields are
    the parts of the element its methods change. Network outcomes are
    parameters: `fetched` for the Sefaria text, `reply` for the OpenAI reply
    (`None` when the request failed or threw), and `fetch(i, q)` for the
    provider's answer to the i-th query `q` (`None` when the request threw or
    the payload had no result list). */
module Plugin {
  import opened Options
  import opened JsStrings
  import opened Queries
  import opened FanOut
  import opened Results
  import opened Widget

  /** The element's observable state, field by field */
  datatype Snapshot = Snapshot(
    openAIKey: Option<string>,
    youTubeKey: Option<string>,
    setupHidden: bool,
    searchHidden: bool,
    errorText: string,
    panel: Panel,
    listDisplay: Display,
    playerDisplay: Display,
    iframeSrc: string,
    sefariaText: string)

  const Initial := Snapshot(None, None, false, true, "", Message(""), Inherited, Inherited, "", "")

  class SefariaPlugin {
    var openAIKey: Option<string>    // apiKeys.openai
    var youTubeKey: Option<string>   // apiKeys.youtube
    var setupHidden: bool            // setupComponent has class d-none
    var searchHidden: bool           // searchComponent has class d-none
    var errorText: string            // errorMessage.textContent
    var panel: Panel                 // searchResultsDiv contents
    var listDisplay: Display         // searchResultsDiv.style.display
    var playerDisplay: Display       // videoPlayerDiv.style.display
    var iframeSrc: string            // youtubeIframe.src
    var sefariaText: string

    function State(): Snapshot
      reads this
    {
      Snapshot(openAIKey, youTubeKey, setupHidden, searchHidden, errorText, panel,
               listDisplay, playerDisplay, iframeSrc, sefariaText)
    }

    /** The key fields agree with the visible component, exactly one of the list and the
        player is visible, and the iframe has a source exactly while the player is visible. */
    ghost predicate Valid()
      reads this`openAIKey, this`youTubeKey, this`setupHidden, this`searchHidden
      reads this`listDisplay, this`playerDisplay, this`iframeSrc
    {
      && KeysAgree(openAIKey, youTubeKey, setupHidden, searchHidden)
      && ListVisible(listDisplay) != PlayerVisible(playerDisplay)
      && (PlayerVisible(playerDisplay) ==> |iframeSrc| >= |EmbedBase| && iframeSrc[..|EmbedBase|] == EmbedBase)
      && (!PlayerVisible(playerDisplay) ==> iframeSrc == "")
    }

    constructor ()
      ensures Valid() && State() == Initial
    {
      openAIKey, youTubeKey := None, None;
      setupHidden, searchHidden := false, true;
      errorText := "";
      panel := Message("");
      listDisplay, playerDisplay := Inherited, Inherited;
      iframeSrc := "";
      sefariaText := "";
    }

    /** `saveKeys`: with either trimmed input empty only the error text changes; otherwise both
        trimmed keys are stored, the setup component is hidden, the search component shown and
        the error text cleared. */
    method SaveKeys(openAIInput: string, youTubeInput: string)
      requires Valid()
      modifies this
      ensures Valid()
      ensures var openAI, youTube := Trim(openAIInput), Trim(youTubeInput);
              if openAI == "" || youTube == "" then
                State() == old(State()).(errorText := KeysRequired)
              else
                State() == old(State()).(openAIKey := Some(openAI), youTubeKey := Some(youTube),
                                         setupHidden := true, searchHidden := false, errorText := "")
    {
      var openAI := Trim(openAIInput);
      var youTube := Trim(youTubeInput);
      if openAI == "" || youTube == "" {
        errorText := KeysRequired;
        return;
      }
      openAIKey := Some(openAI);
      youTubeKey := Some(youTube);
      setupHidden := true;
      searchHidden := false;
      errorText := "";
    }

    /** `handleSearch`: nothing changes before the text is loaded; otherwise only the panel
        changes, and it ends with the error text when query generation fails, with the results
        of the chosen provider, with the Twitter notice, or with "Searching..." for a source it
        does not know. The "No queries generated." branch cannot be taken: a parse is never empty. */
    method HandleSearch(dataSource: string, reply: Option<string>, fetch: (nat, string) -> Option<seq<Hit>>)
      requires Valid()
      modifies this
      ensures Valid()
      ensures old(sefariaText) == "" ==> State() == old(State())
      ensures old(sefariaText) != "" ==> State() == old(State()).(panel := panel)
      ensures old(sefariaText) != "" && reply.None? ==> panel == Message(SearchFailed)
      ensures old(sefariaText) != "" && reply.Some? ==>
                var found := Merge(Outcomes(Parse(reply.value), fetch));
                panel == (if dataSource == "wikipedia" then ResultsPanel(found, Wikipedia)
                          else if dataSource == "youtube" then ResultsPanel(found, YouTube)
                          else if dataSource == "twitter" then Message(TwitterUnavailable)
                          else Message(Searching))
    {
      if sefariaText == "" {
        return;
      }
      panel := Message(GeneratingQueries);
      if reply.None? {
        panel := Message(SearchFailed);
        return;
      }
      var queries := Parse(reply.value);
      panel := Message(Searching);
      if dataSource == "wikipedia" {
        SearchWikipedia(queries, fetch);
      } else if dataSource == "youtube" {
        SearchYouTube(queries, fetch);
      } else if dataSource == "twitter" {
        SearchTwitter(queries);
      }
    }

    /** `searchWikipedia`: the panel shows the merged records of all queries, or "No results found." */
    method SearchWikipedia(queries: seq<string>, fetch: (nat, string) -> Option<seq<Hit>>)
      requires Valid()
      modifies this
      ensures Valid()
      ensures State() == old(State()).(panel := ResultsPanel(Merge(Outcomes(queries, fetch)), Wikipedia))
    {
      var resultsArrays := Outcomes(queries, fetch);
      var allResults := Merge(resultsArrays);
      if |allResults| == 0 {
        panel := Message(NoResults);
      } else {
        assert ResultsPanel(allResults, Wikipedia) == Listing(Entries(Dedup(allResults), Wikipedia));
        DisplayResults(allResults, Wikipedia);
      }
    }

    /** `searchYouTube`: as `searchWikipedia`, with entries that play the video */
    method SearchYouTube(queries: seq<string>, fetch: (nat, string) -> Option<seq<Hit>>)
      requires Valid()
      modifies this
      ensures Valid()
      ensures State() == old(State()).(panel := ResultsPanel(Merge(Outcomes(queries, fetch)), YouTube))
    {
      var resultsArrays := Outcomes(queries, fetch);
      var allResults := Merge(resultsArrays);
      if |allResults| == 0 {
        panel := Message(NoResults);
      } else {
        assert ResultsPanel(allResults, YouTube) == Listing(Entries(Dedup(allResults), YouTube));
        DisplayResults(allResults, YouTube);
      }
    }

    /** `searchTwitter`: a fixed notice, whatever the queries */
    method SearchTwitter(queries: seq<string>)
      requires Valid()
      modifies this
      ensures Valid()
      ensures State() == old(State()).(panel := Message(TwitterUnavailable))
    {
      panel := Message(TwitterUnavailable);
    }

    /** `displayResults`: clears the list and appends, in input order, one entry for each record
        whose title has not been seen yet. */
    method DisplayResults(results: seq<Hit>, source: Provider)
      requires Valid()
      modifies this
      ensures Valid()
      ensures State() == old(State()).(panel := if results == [] then Message(NoResultsAlert)
                                                else Listing(Entries(Dedup(results), source)))
    {
      panel := Listing([]);
      if |results| == 0 {
        panel := Message(NoResultsAlert);
        return;
      }
      AppendUnique(results, source);
    }

    /** The `forEach` pass of `displayResults` over a cleared list: a set of the titles seen so
        far, and an entry appended for each record whose title is not in it yet. It changes the
        list and nothing else. */
    method AppendUnique(results: seq<Hit>, source: Provider)
      requires panel == Listing([])
      modifies this`panel
      ensures panel == Listing(Entries(Dedup(results), source))
    {
      var titles: set<string> := {};
      ghost var seen: seq<Hit> := [];
      for i := 0 to |results|
        invariant seen == results[..i]
        invariant titles == Titles(seen)
        invariant panel == Listing(Entries(Dedup(seen), source))
      {
        var result := results[i];
        ghost var next := seen + [result];
        assert Titles(next) == titles + {result.title} by {
          ListingSnoc(seen, result, source);
        }
        if result.title !in titles {
          assert Entries(Dedup(next), source) == panel.entries + [EntryFor(result, source)] by {
            ListingSnoc(seen, result, source);
          }
          titles := titles + {result.title};
          panel := Listing(panel.entries + [EntryFor(result, source)]);
        } else {
          assert Entries(Dedup(next), source) == panel.entries by {
            ListingSnoc(seen, result, source);
          }
        }
        seen := next;
      }
      assert seen == results;
    }

    /** `showYouTubeVideo`: hides the list, shows the player and points it at the video. */
    method ShowYouTubeVideo(videoId: string)
      requires Valid()
      modifies this
      ensures Valid()
      ensures State() == old(State()).(listDisplay := Hidden, playerDisplay := Block,
                                       iframeSrc := EmbedBase + videoId)
    {
      listDisplay := Hidden;
      playerDisplay := Block;
      iframeSrc := EmbedBase + videoId;
    }

    /** `handleBack`: stops the video, hides the player and shows the list, whatever was
        shown before, so a second call changes nothing; the list is left as it was. */
    method HandleBack()
      requires Valid()
      modifies this
      ensures Valid()
      ensures State() == old(State()).(iframeSrc := "", playerDisplay := Hidden, listDisplay := Block)
    {
      iframeSrc := "";
      playerDisplay := Hidden;
      listDisplay := Block;
    }

    /** `attributeChangedCallback`: a new value of `sref` loads its text; on failure the text
        is kept and the panel says so. Any other change does nothing. */
    method AttributeChanged(name: string, oldValue: Option<string>, newValue: Option<string>, fetched: Option<string>)
      requires Valid()
      modifies this
      ensures Valid()
      ensures !(name == "sref" && newValue != oldValue) ==> State() == old(State())
      ensures name == "sref" && newValue != oldValue && fetched.Some? ==>
                State() == old(State()).(sefariaText := fetched.value, panel := Message(TextLoaded))
      ensures name == "sref" && newValue != oldValue && fetched.None? ==>
                State() == old(State()).(panel := Message(FetchFailed))
    {
      if name == "sref" && newValue != oldValue {
        var text := FetchSefariaText(fetched);
        if text.Some? {
          sefariaText := text.value;
        } else {
          panel := Message(FetchFailed);
        }
      }
    }

    /** The status updates of `fetchSefariaText` around its request, whose outcome is `fetched` */
    method FetchSefariaText(fetched: Option<string>) returns (text: Option<string>)
      requires Valid()
      modifies this
      ensures Valid() && text == fetched
      ensures State() == old(State()).(panel := Message(if fetched.Some? then TextLoaded else FetchingText))
    {
      panel := Message(FetchingText);
      if fetched.None? {
        return None;
      }
      panel := Message(TextLoaded);
      return fetched;
    }
  }
}
