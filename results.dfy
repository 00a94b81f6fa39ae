/** The records a search returns, the entries `displayResults` builds from them,
    and its de-duplication: one pass over the merged records with a set of the
    titles seen so far, where the first record with a title wins. The key is
    the title for Wikipedia and for YouTube alike. */
module Results {
  import opened JsStrings
  import opened Options
  import opened UriComponent

  /** The two fields `displayResults` reads from a provider record: the title
      (`result.title` for Wikipedia, `result.snippet.title` for YouTube) and
      the video id (`result.id.videoId`, read for YouTube only). */
  datatype Hit = Hit(title: string, videoId: string)

  /** The source tag `displayResults` is called with */
  datatype Provider = Wikipedia | YouTube

  /** What clicking an entry does: open a link in a new tab, or play a video in place */
  datatype Action = Link(href: string) | Play(videoId: string)

  /** One anchor appended to the result list: its text and its action */
  datatype Entry = Entry(text: string, action: Action)

  const WikiBase := "https://en.wikipedia.org/wiki/"

  /** `https://en.wikipedia.org/wiki/${encodeURIComponent(title.replace(/ /g, '_'))}` */
  function WikiUrl(title: string): (url: string)
    ensures |url| >= |WikiBase| && url[..|WikiBase|] == WikiBase
    ensures forall i :: |WikiBase| <= i < |url| ==> url[i] != ' ' && (url[i] == '%' || IsUnreserved(url[i]))
  {
    WikiBase + Encode(ReplaceAll(title, ' ', '_'))
  }

  /** The page path of a Wikipedia link percent-decodes to the UTF-8 bytes of the title
      with every space turned into `_`. */
  lemma WikiUrlDecodes(title: string)
    ensures Decode(WikiUrl(title)[|WikiBase|..]) == Some(Utf8String(ReplaceAll(title, ' ', '_')))
  {
    assert WikiUrl(title)[|WikiBase|..] == Encode(ReplaceAll(title, ' ', '_'));
    DecodeEncode(ReplaceAll(title, ' ', '_'));
  }

  /** The entry for one record: a Wikipedia entry links to the article, a YouTube entry plays the video */
  function EntryFor(hit: Hit, source: Provider): Entry {
    Entry(hit.title, if source == YouTube then Play(hit.videoId) else Link(WikiUrl(hit.title)))
  }

  /** `entries[i]` is the entry for `hits[i]` */
  function Entries(hits: seq<Hit>, source: Provider): seq<Entry> {
    seq(|hits|, i requires 0 <= i < |hits| => EntryFor(hits[i], source))
  }

  /** One more record adds its entry at the end. */
  lemma EntriesSnoc(hits: seq<Hit>, h: Hit, source: Provider)
    ensures Entries(hits + [h], source) == Entries(hits, source) + [EntryFor(h, source)]
  {
    var l, r := Entries(hits + [h], source), Entries(hits, source) + [EntryFor(h, source)];
    assert |l| == |r|;
    forall i | 0 <= i < |l| ensures l[i] == r[i] {
      if i < |hits| { assert (hits + [h])[i] == hits[i]; }
    }
  }

  /** One step of the `displayResults` pass: the record's title joins the seen titles, and its
      entry is appended exactly when the title was not seen before. */
  lemma ListingSnoc(seen: seq<Hit>, h: Hit, source: Provider)
    ensures Titles(seen + [h]) == Titles(seen) + {h.title}
    ensures Entries(Dedup(seen + [h]), source)
            == if h.title in Titles(seen) then Entries(Dedup(seen), source)
               else Entries(Dedup(seen), source) + [EntryFor(h, source)]
  {
    DedupSnoc(seen, h);
    EntriesSnoc(Dedup(seen), h, source);
  }

  /** The titles of `hits`: the contents of the `titles` set after a pass over them */
  function Titles(hits: seq<Hit>): set<string> {
    if hits == [] then {} else Titles(hits[..|hits| - 1]) + {hits[|hits| - 1].title}
  }

  /** The records `displayResults` keeps: a record is kept when no earlier record has its title */
  function Dedup(hits: seq<Hit>): seq<Hit> {
    if hits == [] then []
    else
      var earlier, last := hits[..|hits| - 1], hits[|hits| - 1];
      if last.title in Titles(earlier) then Dedup(earlier) else Dedup(earlier) + [last]
  }

  /** No earlier record of `hits` has the title of `hits[i]` */
  ghost predicate FirstOfTitle(hits: seq<Hit>, i: int)
    requires 0 <= i < |hits|
  {
    forall j :: 0 <= j < i ==> hits[j].title != hits[i].title
  }

  ghost predicate DistinctTitles(hits: seq<Hit>) {
    forall i, j :: 0 <= i < j < |hits| ==> hits[i].title != hits[j].title
  }

  /** `a` is `b` with some records left out, the rest in their order */
  ghost predicate IsSubsequence(a: seq<Hit>, b: seq<Hit>)
    decreases |b|
  {
    if b == [] then a == []
    else
      (a != [] && a[|a| - 1] == b[|b| - 1] && IsSubsequence(a[..|a| - 1], b[..|b| - 1]))
      || IsSubsequence(a, b[..|b| - 1])
  }

  /** One pass step: a record is kept exactly when its title has not been seen. */
  lemma DedupSnoc(hits: seq<Hit>, h: Hit)
    ensures Titles(hits + [h]) == Titles(hits) + {h.title}
    ensures Dedup(hits + [h]) == if h.title in Titles(hits) then Dedup(hits) else Dedup(hits) + [h]
  {
    assert (hits + [h])[..|hits|] == hits;
  }

  /** A title is in `Titles(hits)` exactly when some record carries it. */
  lemma {:induction false} TitlesMembers(hits: seq<Hit>, t: string)
    ensures t in Titles(hits) <==> exists i :: 0 <= i < |hits| && hits[i].title == t
  {
    if hits != [] {
      var earlier := hits[..|hits| - 1];
      TitlesMembers(earlier, t);
      if t in Titles(earlier) {
        var i :| 0 <= i < |earlier| && earlier[i].title == t;
        assert hits[i].title == t;
      }
      if exists i :: 0 <= i < |hits| && hits[i].title == t {
        var i :| 0 <= i < |hits| && hits[i].title == t;
        if i < |hits| - 1 { assert earlier[i].title == t; }
      }
    }
  }

  /** Every title of the input is the title of an output record, and no other title is. */
  lemma {:induction false} DedupTitles(hits: seq<Hit>)
    ensures Titles(Dedup(hits)) == Titles(hits)
  {
    if hits != [] {
      var earlier, last := hits[..|hits| - 1], hits[|hits| - 1];
      DedupTitles(earlier);
      var d := Dedup(earlier);
      if last.title !in Titles(earlier) {
        assert (d + [last])[..|d + [last]| - 1] == d;
      }
    }
  }

  /** No two output records share a title. */
  lemma {:induction false} DedupDistinct(hits: seq<Hit>)
    ensures DistinctTitles(Dedup(hits))
  {
    if hits != [] {
      var earlier, last := hits[..|hits| - 1], hits[|hits| - 1];
      DedupDistinct(earlier);
      var d := Dedup(earlier);
      if last.title !in Titles(earlier) {
        DedupTitles(earlier);
        forall i | 0 <= i < |d| ensures d[i].title != last.title {
          TitlesMembers(d, last.title);
        }
      }
    }
  }

  /** The output keeps the input's order: it is a subsequence of the input. */
  lemma {:induction false} DedupSubsequence(hits: seq<Hit>)
    ensures IsSubsequence(Dedup(hits), hits)
  {
    if hits != [] {
      var earlier, last := hits[..|hits| - 1], hits[|hits| - 1];
      DedupSubsequence(earlier);
      var d := Dedup(earlier);
      if last.title !in Titles(earlier) {
        var kept := d + [last];
        assert kept[..|kept| - 1] == d;
      }
    }
  }

  /** The first record with each title is in the output: the first one seen wins. */
  lemma {:induction false} DedupKeepsFirst(hits: seq<Hit>, i: int)
    requires 0 <= i < |hits| && FirstOfTitle(hits, i)
    ensures hits[i] in Dedup(hits)
  {
    var earlier, last := hits[..|hits| - 1], hits[|hits| - 1];
    if i == |hits| - 1 {
      forall j | 0 <= j < |earlier| ensures earlier[j].title != last.title {
        assert earlier[j] == hits[j];
      }
      TitlesMembers(earlier, last.title);
    } else {
      assert earlier[i] == hits[i];
      DedupKeepsFirst(earlier, i);
    }
  }

  /** Every output record is the first input record with its title. */
  lemma {:induction false} DedupOnlyFirsts(hits: seq<Hit>, h: Hit)
    requires h in Dedup(hits)
    ensures exists i :: 0 <= i < |hits| && FirstOfTitle(hits, i) && hits[i] == h
  {
    var earlier, last := hits[..|hits| - 1], hits[|hits| - 1];
    if h in Dedup(earlier) {
      DedupOnlyFirsts(earlier, h);
      var i :| 0 <= i < |earlier| && FirstOfTitle(earlier, i) && earlier[i] == h;
      forall j | 0 <= j < i ensures hits[j].title != hits[i].title {
        assert hits[j] == earlier[j];
      }
      assert hits[i] == h;
    } else {
      assert h == last && last.title !in Titles(earlier);
      TitlesMembers(earlier, last.title);
      forall j | 0 <= j < |hits| - 1 ensures hits[j].title != last.title {
        assert earlier[j] == hits[j];
      }
      assert FirstOfTitle(hits, |hits| - 1);
    }
  }

  /** Each input title appears exactly once, so the output has one record per distinct title. */
  lemma DedupLength(hits: seq<Hit>)
    ensures |Dedup(hits)| == |Titles(hits)| <= |hits|
  {
    DedupTitles(hits);
    DedupDistinct(hits);
    DistinctTitlesCount(Dedup(hits));
    TitlesAtMost(hits);
  }

  lemma {:induction false} DistinctTitlesCount(hits: seq<Hit>)
    requires DistinctTitles(hits)
    ensures |Titles(hits)| == |hits|
  {
    if hits != [] {
      var earlier, last := hits[..|hits| - 1], hits[|hits| - 1];
      DistinctTitlesCount(earlier);
      forall j | 0 <= j < |earlier| ensures earlier[j].title != last.title {
        assert earlier[j] == hits[j];
      }
      TitlesMembers(earlier, last.title);
    }
  }

  lemma {:induction false} TitlesAtMost(hits: seq<Hit>)
    ensures |Titles(hits)| <= |hits|
  {
    if hits != [] { TitlesAtMost(hits[..|hits| - 1]); }
  }

  /** Records that already have distinct titles pass through unchanged, so de-duplicating twice
      is de-duplicating once. */
  lemma {:induction false} DedupOfDistinct(hits: seq<Hit>)
    requires DistinctTitles(hits)
    ensures Dedup(hits) == hits
  {
    if hits != [] {
      var earlier, last := hits[..|hits| - 1], hits[|hits| - 1];
      DedupOfDistinct(earlier);
      forall j | 0 <= j < |earlier| ensures earlier[j].title != last.title {
        assert earlier[j] == hits[j];
      }
      TitlesMembers(earlier, last.title);
    }
  }

  lemma DedupIdempotent(hits: seq<Hit>)
    ensures Dedup(Dedup(hits)) == Dedup(hits)
  {
    DedupDistinct(hits);
    DedupOfDistinct(Dedup(hits));
  }

  /** For the first record with a given title, the list shows exactly one entry with that
      title, and it is that record's entry: for YouTube, later videos with the same title but
      another id are dropped and the entry plays the first video. */
  lemma DedupEntryForTitle(hits: seq<Hit>, i: int, source: Provider)
    requires 0 <= i < |hits| && FirstOfTitle(hits, i)
    ensures var entries := Entries(Dedup(hits), source);
            forall k :: 0 <= k < |entries| && entries[k].text == hits[i].title ==>
              entries[k] == EntryFor(hits[i], source)
    ensures exists k :: 0 <= k < |Entries(Dedup(hits), source)| && Entries(Dedup(hits), source)[k] == EntryFor(hits[i], source)
    ensures var entries := Entries(Dedup(hits), source);
            forall k1, k2 :: 0 <= k1 < k2 < |entries| ==> entries[k1].text != entries[k2].text
  {
    var d := Dedup(hits);
    var entries := Entries(d, source);
    DedupKeepsFirst(hits, i);
    DedupDistinct(hits);
    var k0 :| 0 <= k0 < |d| && d[k0] == hits[i];
    assert entries[k0] == EntryFor(hits[i], source);
    forall k | 0 <= k < |entries| && entries[k].text == hits[i].title
      ensures entries[k] == EntryFor(hits[i], source)
    {
      assert entries[k] == EntryFor(d[k], source);
      assert k == k0;
    }
    EntriesDistinctTexts(d, source);
  }

  /** Records with distinct titles give entries with distinct texts. */
  lemma EntriesDistinctTexts(hits: seq<Hit>, source: Provider)
    requires DistinctTitles(hits)
    ensures var entries := Entries(hits, source);
            forall k1, k2 :: 0 <= k1 < k2 < |entries| ==> entries[k1].text != entries[k2].text
  {
    var entries := Entries(hits, source);
    forall k1, k2 | 0 <= k1 < k2 < |entries| ensures entries[k1].text != entries[k2].text {
      assert entries[k1] == EntryFor(hits[k1], source) && entries[k2] == EntryFor(hits[k2], source);
    }
  }

  /** Two videos with one title and different ids give a single entry, which plays the first. */
  lemma SameTitleVideosCollapse(first: Hit, second: Hit)
    requires first.title == second.title
    ensures Entries(Dedup([first, second]), YouTube) == [Entry(first.title, Play(first.videoId))]
  {
    var hits := [first, second];
    assert hits[..1] == [first];
    assert Titles([first]) == {first.title} by {
      assert [first][..0] == [];
    }
    assert Dedup([first]) == [first] by {
      assert [first][..0] == [];
    }
  }
}
