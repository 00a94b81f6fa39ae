/** The merge half of `searchWikipedia` and `searchYouTube`: every query is sent
    to the provider, a query whose request threw or whose payload lacks the
    result list counts as `[]`, and the per-query lists are concatenated in
    query order (`[].concat(...await Promise.all(...))`). The requests
    themselves are an oracle: `fetch(i, q)` is what the i-th request, for
    query `q`, produced. */
module FanOut {
  import opened Options

  /** What one query contributes: its records, or `[]` when it failed */
  function Payload<T>(outcome: Option<seq<T>>): seq<T> {
    outcome.GetOr([])
  }

  /** The settled outcome of every query, in query order (`Promise.all` over `queries.map`) */
  function Outcomes<T>(queries: seq<string>, fetch: (nat, string) -> Option<seq<T>>): seq<Option<seq<T>>> {
    seq(|queries|, i requires 0 <= i < |queries| => fetch(i, queries[i]))
  }

  /** `[].concat(...resultsArrays)` after every failure has become `[]` */
  function Merge<T>(outcomes: seq<Option<seq<T>>>): seq<T> {
    if outcomes == [] then [] else Payload(outcomes[0]) + Merge(outcomes[1..])
  }

  /** Merging is concatenation: the results of two groups of queries follow each other. */
  lemma {:induction false} MergeAppend<T>(a: seq<Option<seq<T>>>, b: seq<Option<seq<T>>>)
    ensures Merge(a + b) == Merge(a) + Merge(b)
  {
    if a != [] {
      assert (a + b)[0] == a[0];
      assert (a + b)[1..] == a[1..] + b;
      MergeAppend(a[1..], b);
    } else {
      assert a + b == b;
    }
  }

  /** The i-th query's records sit, unchanged, between those of the queries before and after it. */
  lemma {:induction false} MergeAt<T>(outcomes: seq<Option<seq<T>>>, i: nat)
    requires i < |outcomes|
    ensures Merge(outcomes) == Merge(outcomes[..i]) + Payload(outcomes[i]) + Merge(outcomes[i + 1..])
  {
    var before, after := outcomes[..i], outcomes[i + 1..];
    var rest := [outcomes[i]] + after;
    assert outcomes == before + rest;
    MergeAppend(before, rest);
    assert rest[0] == outcomes[i] && rest[1..] == after;
    assert Merge(rest) == Payload(outcomes[i]) + Merge(after);
  }

  /** A failing query contributes nothing and leaves every other query's records where they were. */
  lemma {:induction false} MergeFailureIsolated<T>(outcomes: seq<Option<seq<T>>>, i: nat)
    requires i < |outcomes|
    ensures Merge(outcomes[i := None]) == Merge(outcomes[..i]) + Merge(outcomes[i + 1..])
  {
    var failed := outcomes[i := None];
    MergeAt(failed, i);
    assert failed[..i] == outcomes[..i];
    assert failed[i + 1..] == outcomes[i + 1..];
  }

  /** The same on the requests themselves: if the request for query `i` fails under `f`, and `f`
      and `g` agree on every other query, then merging under `f` gives the merge under `g` with
      query `i`'s records taken out and everything else in place. */
  lemma OracleFailureIsolated<T>(queries: seq<string>, f: (nat, string) -> Option<seq<T>>,
                                 g: (nat, string) -> Option<seq<T>>, i: nat)
    requires i < |queries|
    requires forall j :: 0 <= j < |queries| && j != i ==> f(j, queries[j]) == g(j, queries[j])
    requires f(i, queries[i]).None?
    ensures var others := Outcomes(queries, g);
            Merge(Outcomes(queries, f)) == Merge(others[..i]) + Merge(others[i + 1..])
  {
    var others := Outcomes(queries, g);
    assert Outcomes(queries, f) == others[i := None];
    MergeFailureIsolated(others, i);
  }

  /** The merge is empty exactly when every query contributed nothing. */
  lemma {:induction false} MergeEmptyIff<T>(outcomes: seq<Option<seq<T>>>)
    ensures Merge(outcomes) == [] <==> forall i :: 0 <= i < |outcomes| ==> Payload(outcomes[i]) == []
  {
    if outcomes != [] {
      MergeEmptyIff(outcomes[1..]);
      assert forall i :: 1 <= i < |outcomes| ==> outcomes[i] == outcomes[1..][i - 1];
    }
  }

  /** A record is in the merge exactly when some query returned it. */
  lemma {:induction false} MergeMembers<T>(outcomes: seq<Option<seq<T>>>, x: T)
    ensures x in Merge(outcomes) <==> exists i :: 0 <= i < |outcomes| && x in Payload(outcomes[i])
  {
    if outcomes != [] {
      MergeMembers(outcomes[1..], x);
      if x in Merge(outcomes[1..]) {
        var j :| 0 <= j < |outcomes[1..]| && x in Payload(outcomes[1..][j]);
        assert x in Payload(outcomes[j + 1]);
      }
      if exists i :: 0 <= i < |outcomes| && x in Payload(outcomes[i]) {
        var i :| 0 <= i < |outcomes| && x in Payload(outcomes[i]);
        if i > 0 { assert outcomes[1..][i - 1] == outcomes[i]; }
      }
    }
  }

  /** The merge is as long as all per-query lists together. */
  function TotalLength<T>(outcomes: seq<Option<seq<T>>>): nat {
    if outcomes == [] then 0 else |Payload(outcomes[0])| + TotalLength(outcomes[1..])
  }

  lemma {:induction false} MergeLength<T>(outcomes: seq<Option<seq<T>>>)
    ensures |Merge(outcomes)| == TotalLength(outcomes)
  {
    if outcomes != [] { MergeLength(outcomes[1..]); }
  }
}
