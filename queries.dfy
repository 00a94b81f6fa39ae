/** The parse half of `generateSearchQueries` (plugin.js and template.js share it
    verbatim): the model's reply is trimmed, split on `;`, and every piece is trimmed. */
module Queries {
  import opened JsStrings

  const Separator := ';'

  /** `reply.trim().split(';').map((query) => query.trim())` */
  function Parse(reply: string): (queries: seq<string>)
    ensures |queries| > 0
    ensures forall i :: 0 <= i < |queries| ==> IsTrimmed(queries[i])
  {
    TrimEach(Split(Trim(reply), Separator))
  }

  /** `parts.map((query) => query.trim())` */
  function TrimEach(parts: seq<string>): (r: seq<string>)
    ensures |r| == |parts|
    ensures forall i :: 0 <= i < |r| ==> r[i] == Trim(parts[i])
  {
    if parts == [] then [] else [Trim(parts[0])] + TrimEach(parts[1..])
  }

  /** No query contains the separator. */
  lemma ParseNoSeparator(reply: string)
    ensures forall i :: 0 <= i < |Parse(reply)| ==> Separator !in Parse(reply)[i]
  {
    var parts := Split(Trim(reply), Separator);
    forall i | 0 <= i < |parts| ensures Separator !in Trim(parts[i]) {
      if Separator in Trim(parts[i]) { TrimKeepsCharacters(parts[i], Separator); }
    }
  }

  /** There is one query more than there are separators in the reply. */
  lemma ParseCount(reply: string)
    ensures |Parse(reply)| == Occurrences(reply, Separator) + 1
  {
    OccurrencesTrim(reply, Separator);
  }

  /** Queries that are already trimmed and free of `;` survive being joined with `;` and
      parsed back, whatever their number and even when some are empty. */
  lemma ParseJoin(queries: seq<string>)
    requires |queries| > 0
    requires forall i :: 0 <= i < |queries| ==> IsTrimmed(queries[i]) && Separator !in queries[i]
    ensures Parse(Join(queries, Separator)) == queries
  {
    var text := Join(queries, Separator);
    JoinTrimmed(queries);
    TrimOfTrimmed(text);
    SplitJoin(queries, Separator);
    ParseOfTrimmedPieces(text, queries);
  }

  lemma ParseOfTrimmedPieces(text: string, queries: seq<string>)
    requires Trim(text) == text && Split(text, Separator) == queries
    requires forall i :: 0 <= i < |queries| ==> IsTrimmed(queries[i])
    ensures Parse(text) == queries
  {
    var parsed := Parse(text);
    forall i | 0 <= i < |queries| ensures parsed[i] == queries[i] {
      TrimOfTrimmed(queries[i]);
    }
  }

  /** Joining trimmed pieces with the (non-blank) separator gives a trimmed string. */
  lemma {:induction false} JoinTrimmed(queries: seq<string>)
    requires |queries| > 0
    requires forall i :: 0 <= i < |queries| ==> IsTrimmed(queries[i])
    ensures IsTrimmed(Join(queries, Separator))
    ensures |queries| > 1 ==> |Join(queries, Separator)| > 0
  {
    if |queries| > 1 {
      JoinTrimmed(queries[1..]);
      var tail := Join(queries[1..], Separator);
      var text := queries[0] + [Separator] + tail;
      assert text == Join(queries, Separator);
      if queries[0] == [] {
        assert text[0] == Separator;
      } else {
        assert text[0] == queries[0][0];
      }
      if tail == [] {
        assert text[|text| - 1] == Separator;
      } else {
        assert text[|text| - 1] == tail[|tail| - 1];
      }
    }
  }

  /** The outer `trim()` changes no query: the white space it removes would sit at the outer
      ends of the first and last piece, which their own trims remove anyway. */
  lemma ParseUntrimmed(reply: string)
    ensures Parse(reply) == TrimEach(Split(reply, Separator))
  {
    var lead, trail := TrimDecomposes(reply);
    var p := Split(Trim(reply), Separator);
    forall i | 0 <= i < |lead| ensures lead[i] != Separator { }
    forall i | 0 <= i < |trail| ensures trail[i] != Separator { }
    SplitAround(lead, Trim(reply), trail, Separator);
    var r := Split(reply, Separator);
    forall k | 0 <= k < |p| ensures Trim(r[k]) == Trim(p[k]) {
      TrimWithWhiteSpace(if k == 0 then lead else [], p[k], if k == |p| - 1 then trail else []);
    }
  }

  /** Parsing pieces joined by `;` trims each piece, white space at the outer ends and empty
      pieces included. */
  lemma ParseOfPieces(pieces: seq<string>)
    requires |pieces| > 0
    requires forall i :: 0 <= i < |pieces| ==> Separator !in pieces[i]
    ensures Parse(Join(pieces, Separator)) == TrimEach(pieces)
  {
    ParseUntrimmed(Join(pieces, Separator));
    SplitJoin(pieces, Separator);
  }

  /** Empty pieces are kept: a reply of separators alone gives one empty query per piece,
      and an empty reply gives one empty query, so the parse never yields an empty list. */
  lemma ParseKeepsEmpty()
    ensures Parse(";;") == ["", "", ""]
    ensures Parse("") == [""]
  {
    ParseJoin(["", "", ""]);
    assert Join(["", "", ""], Separator) == ";;";
    ParseJoin([""]);
  }
}
