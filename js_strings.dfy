/** The ECMAScript string built-ins the widget relies on, over `seq<char>`:
    `String.prototype.trim`, `split` with a one-character separator and
    `replace` of one character by another with the global flag. */
module JsStrings {

  /** WhiteSpace and LineTerminator code points of ECMAScript, the characters `trim` strips */
  predicate IsWhiteSpace(c: char) {
    || c == '\t' || c == '\n' || c == '\U{000B}' || c == '\U{000C}' || c == '\r' || c == ' '
    || c == '\U{00A0}' || c == '\U{1680}' || ('\U{2000}' <= c <= '\U{200A}')
    || c == '\U{2028}' || c == '\U{2029}' || c == '\U{202F}' || c == '\U{205F}'
    || c == '\U{3000}' || c == '\U{FEFF}'
  }

  ghost predicate AllWhiteSpace(s: string) {
    forall i :: 0 <= i < |s| ==> IsWhiteSpace(s[i])
  }

  /** Neither end of `s` is white space: what `trim` returns */
  predicate IsTrimmed(s: string) {
    s == [] || (!IsWhiteSpace(s[0]) && !IsWhiteSpace(s[|s| - 1]))
  }

  /** `s` without its longest white-space prefix */
  function TrimStart(s: string): string {
    if s != [] && IsWhiteSpace(s[0]) then TrimStart(s[1..]) else s
  }

  /** `s` without its longest white-space suffix */
  function TrimEnd(s: string): string {
    if s != [] && IsWhiteSpace(s[|s| - 1]) then TrimEnd(s[..|s| - 1]) else s
  }

  /** `TrimStart` drops a white-space prefix, and the longest one. */
  lemma {:induction false} TrimStartSpec(s: string)
    ensures |TrimStart(s)| <= |s| && TrimStart(s) == s[|s| - |TrimStart(s)|..]
    ensures AllWhiteSpace(s[..|s| - |TrimStart(s)|])
    ensures TrimStart(s) == [] || !IsWhiteSpace(TrimStart(s)[0])
  {
    if s != [] && IsWhiteSpace(s[0]) {
      TrimStartSpec(s[1..]);
      var r := TrimStart(s[1..]);
      assert s[..|s| - |r|] == [s[0]] + s[1..][..|s| - 1 - |r|];
    }
  }

  /** `TrimEnd` drops a white-space suffix, and the longest one. */
  lemma {:induction false} TrimEndSpec(s: string)
    ensures |TrimEnd(s)| <= |s| && TrimEnd(s) == s[..|TrimEnd(s)|]
    ensures AllWhiteSpace(s[|TrimEnd(s)|..])
    ensures TrimEnd(s) == [] || !IsWhiteSpace(TrimEnd(s)[|TrimEnd(s)| - 1])
  {
    if s != [] && IsWhiteSpace(s[|s| - 1]) {
      TrimEndSpec(s[..|s| - 1]);
      var r := TrimEnd(s[..|s| - 1]);
      assert s[|r|..] == s[..|s| - 1][|r|..] + [s[|s| - 1]];
    }
  }

  /** `String.prototype.trim`: `s` without its white-space prefix and suffix */
  function Trim(s: string): (r: string)
    ensures IsTrimmed(r) && |r| <= |s|
  {
    TrimStartSpec(s);
    TrimEndSpec(TrimStart(s));
    var r := TrimEnd(TrimStart(s));
    assert r == [] || !IsWhiteSpace(r[0]) by {
      if r != [] { assert r[0] == TrimStart(s)[0]; }
    }
    r
  }

  /** Trimming keeps exactly the middle: `s` is white space around `Trim(s)`. */
  lemma TrimDecomposes(s: string) returns (lead: string, trail: string)
    ensures s == lead + Trim(s) + trail
    ensures AllWhiteSpace(lead) && AllWhiteSpace(trail)
  {
    var t := TrimStart(s);
    var r := TrimEnd(t);
    TrimStartSpec(s);
    TrimEndSpec(t);
    assert r == Trim(s);
    var k := |s| - |t|;
    lead, trail := s[..k], t[|r|..];
    assert t == r + trail;
    assert s == lead + t;
    assert s == lead + (r + trail);
  }

  /** Every character of `Trim(s)` is a character of `s`. */
  lemma TrimKeepsCharacters(s: string, c: char)
    requires c in Trim(s)
    ensures c in s
  {
    var lead, trail := TrimDecomposes(s);
    var k :| 0 <= k < |Trim(s)| && Trim(s)[k] == c;
    assert s[|lead| + k] == c;
  }

  /** A trimmed string is a fixed point of `trim`, so trimming twice is trimming once. */
  lemma {:induction false} TrimOfTrimmed(s: string)
    requires IsTrimmed(s)
    ensures Trim(s) == s
  {
    assert TrimStart(s) == s;
    assert TrimEnd(s) == s;
  }

  lemma TrimIdempotent(s: string)
    ensures Trim(Trim(s)) == Trim(s)
  {
    TrimOfTrimmed(Trim(s));
  }

  /** `trim` yields the empty string exactly when `s` is all white space. */
  lemma TrimEmptyIff(s: string)
    ensures Trim(s) == [] <==> AllWhiteSpace(s)
  {
    var lead, trail := TrimDecomposes(s);
    if Trim(s) != [] {
      assert s[|lead|] == Trim(s)[0];
    }
  }

  /** White space in front of `p` makes no difference to `trimStart`. */
  lemma {:induction false} TrimStartAfterWhiteSpace(w: string, p: string)
    requires AllWhiteSpace(w)
    ensures TrimStart(w + p) == TrimStart(p)
  {
    if w != [] {
      assert (w + p)[0] == w[0];
      assert (w + p)[1..] == w[1..] + p;
      TrimStartAfterWhiteSpace(w[1..], p);
    } else {
      assert w + p == p;
    }
  }

  /** White space after `p` makes no difference to `trimEnd`. */
  lemma {:induction false} TrimEndBeforeWhiteSpace(p: string, w: string)
    requires AllWhiteSpace(w)
    ensures TrimEnd(p + w) == TrimEnd(p)
  {
    if w != [] {
      var pw := p + w;
      assert pw[|pw| - 1] == w[|w| - 1];
      assert pw[..|pw| - 1] == p + w[..|w| - 1];
      TrimEndBeforeWhiteSpace(p, w[..|w| - 1]);
    } else {
      assert p + w == p;
    }
  }

  /** `trimStart` of `p + w` strips all of `p` and goes on into `w` only when `p` is all white space. */
  lemma {:induction false} TrimStartAppend(p: string, w: string)
    ensures TrimStart(p + w) == if AllWhiteSpace(p) then TrimStart(w) else TrimStart(p) + w
  {
    if p == [] {
      assert p + w == w;
    } else {
      var pw := p + w;
      assert pw[0] == p[0] && pw[1..] == p[1..] + w;
      TrimStartAppend(p[1..], w);
      assert AllWhiteSpace(p) <==> IsWhiteSpace(p[0]) && AllWhiteSpace(p[1..]) by {
        if IsWhiteSpace(p[0]) && AllWhiteSpace(p[1..]) {
          forall i | 0 <= i < |p| ensures IsWhiteSpace(p[i]) {
            if i > 0 { assert p[i] == p[1..][i - 1]; }
          }
        }
      }
    }
  }

  /** White space added at either end of `p` does not change its trim. */
  lemma TrimWithWhiteSpace(lead: string, p: string, trail: string)
    requires AllWhiteSpace(lead) && AllWhiteSpace(trail)
    ensures Trim(lead + p + trail) == Trim(p)
  {
    assert lead + p + trail == lead + (p + trail);
    TrimStartAfterWhiteSpace(lead, p + trail);
    TrimStartAppend(p, trail);
    if AllWhiteSpace(p) {
      TrimStartAfterWhiteSpace(trail, []);
      TrimStartAfterWhiteSpace(p, []);
      assert trail + [] == trail && p + [] == p;
    } else {
      TrimEndBeforeWhiteSpace(TrimStart(p), trail);
    }
  }

  /** Number of occurrences of `d` in `s` */
  function Occurrences(s: string, d: char): nat {
    if s == [] then 0 else (if s[0] == d then 1 else 0) + Occurrences(s[1..], d)
  }

  lemma {:induction false} OccurrencesAppend(a: string, b: string, d: char)
    ensures Occurrences(a + b, d) == Occurrences(a, d) + Occurrences(b, d)
  {
    if a != [] {
      var ab := a + b;
      assert ab[0] == a[0];
      assert ab[1..] == a[1..] + b;
      OccurrencesAppend(a[1..], b, d);
      assert Occurrences(ab, d) == (if ab[0] == d then 1 else 0) + Occurrences(ab[1..], d);
    } else {
      assert a + b == b;
    }
  }

  lemma {:induction false} OccurrencesNone(s: string, d: char)
    requires d !in s
    ensures Occurrences(s, d) == 0
  {
    if s != [] { OccurrencesNone(s[1..], d); }
  }

  /** Trimming never removes a character that is not white space. */
  lemma OccurrencesTrim(s: string, d: char)
    requires !IsWhiteSpace(d)
    ensures Occurrences(Trim(s), d) == Occurrences(s, d)
  {
    var lead, trail := TrimDecomposes(s);
    OccurrencesAppend(lead + Trim(s), trail, d);
    OccurrencesAppend(lead, Trim(s), d);
    assert d !in lead && d !in trail;
    OccurrencesNone(lead, d);
    OccurrencesNone(trail, d);
  }

  /** `s.split(d)`: the pieces between the occurrences of `d`, empty pieces
      included; the empty string splits into one empty piece. */
  function Split(s: string, d: char): (parts: seq<string>)
    ensures |parts| == Occurrences(s, d) + 1
    ensures forall i :: 0 <= i < |parts| ==> d !in parts[i]
  {
    if s == [] then [[]]
    else
      var rest := Split(s[1..], d);
      if s[0] == d then [[]] + rest
      else [[s[0]] + rest[0]] + rest[1..]
  }

  /** `parts.join(d)`: the inverse of `Split` */
  function Join(parts: seq<string>, d: char): string
    requires |parts| > 0
  {
    if |parts| == 1 then parts[0] else parts[0] + [d] + Join(parts[1..], d)
  }

  /** Text in front of a join belongs to its first piece. */
  lemma JoinPrepend(w: string, parts: seq<string>, d: char)
    requires |parts| > 0
    ensures w + Join(parts, d) == Join([w + parts[0]] + parts[1..], d)
  {
    var q := [w + parts[0]] + parts[1..];
    assert q[0] == w + parts[0] && q[1..] == parts[1..];
    if |parts| > 1 {
      assert w + (parts[0] + [d] + Join(parts[1..], d)) == (w + parts[0]) + [d] + Join(parts[1..], d);
    }
  }

  /** Text after a join belongs to its last piece. */
  lemma {:induction false} JoinAppend(parts: seq<string>, w: string, d: char)
    requires |parts| > 0
    ensures Join(parts, d) + w == Join(parts[..|parts| - 1] + [parts[|parts| - 1] + w], d)
  {
    var n := |parts|;
    var q := parts[..n - 1] + [parts[n - 1] + w];
    if n > 1 {
      var rest := parts[1..];
      JoinAppend(rest, w, d);
      assert q[0] == parts[0];
      assert q[1..] == rest[..|rest| - 1] + [rest[|rest| - 1] + w];
      assert Join(parts, d) + w == parts[0] + [d] + (Join(rest, d) + w);
    } else {
      assert q == [parts[0] + w];
    }
  }

  /** Text without the separator around `t` joins the first and the last piece of its split. */
  lemma SplitAround(lead: string, t: string, trail: string, d: char)
    requires d !in lead && d !in trail
    ensures var p, r := Split(t, d), Split(lead + t + trail, d);
            |r| == |p| &&
            forall k :: 0 <= k < |p| ==>
              r[k] == (if k == 0 then lead else []) + p[k] + (if k == |p| - 1 then trail else [])
  {
    var p := Split(t, d);
    var n := |p|;
    JoinSplit(t, d);
    var q := p[..n - 1] + [p[n - 1] + trail];
    JoinAppend(p, trail, d);
    var r := [lead + q[0]] + q[1..];
    JoinPrepend(lead, q, d);
    assert lead + t + trail == lead + (t + trail);
    forall k | 0 <= k < n
      ensures r[k] == (if k == 0 then lead else []) + p[k] + (if k == n - 1 then trail else [])
    {
      if k > 0 { assert r[k] == q[k]; }
      if k < n - 1 { assert q[k] == p[k]; }
    }
    forall k | 0 <= k < n ensures d !in r[k] { }
    SplitJoin(r, d);
  }

  /** Joining the pieces of a split gives back the string. */
  lemma {:induction false} JoinSplit(s: string, d: char)
    ensures Join(Split(s, d), d) == s
  {
    if s != [] {
      var rest := Split(s[1..], d);
      JoinSplit(s[1..], d);
      if s[0] != d {
        if |rest| > 1 {
          assert Join(rest, d) == rest[0] + [d] + Join(rest[1..], d);
        }
      }
    }
  }

  /** Splitting a join of pieces that do not contain the separator gives back the pieces. */
  lemma {:induction false} SplitJoin(parts: seq<string>, d: char)
    requires |parts| > 0
    requires forall i :: 0 <= i < |parts| ==> d !in parts[i]
    ensures Split(Join(parts, d), d) == parts
  {
    if |parts| == 1 {
      SplitPiece(parts[0], [], d);
    } else {
      SplitJoin(parts[1..], d);
      SplitPiece(parts[0], Join(parts[1..], d), d);
      assert parts == [parts[0]] + parts[1..];
    }
  }

  /** Splitting `p + d + t` (or `p` alone, when `t` is empty and there is no
      separator) where `p` is free of `d` puts `p` in front of the pieces of `t`. */
  lemma {:induction false} SplitPiece(p: string, t: string, d: char)
    requires d !in p
    ensures t == [] ==> Split(p, d) == [p]
    ensures Split(p + [d] + t, d) == [p] + Split(t, d)
  {
    if p == [] {
      assert ([] + [d] + t)[1..] == t;
      assert Split(p, d) == [[]];
    } else {
      SplitPiece(p[1..], t, d);
      assert (p + [d] + t)[1..] == p[1..] + [d] + t;
      assert [p[0]] + p[1..] == p;
      if t == [] {
        assert Split(p[1..], d) == [p[1..]];
      }
    }
  }

  /** `s.replace(/<from>/g, to)` for a one-character pattern */
  function ReplaceAll(s: string, from: char, to: char): (r: string)
    ensures |r| == |s|
    ensures forall i :: 0 <= i < |s| ==> r[i] == (if s[i] == from then to else s[i])
  {
    if s == [] then [] else [if s[0] == from then to else s[0]] + ReplaceAll(s[1..], from, to)
  }

  /** After replacing every `from` by a different character, no `from` is left and nothing else moved. */
  lemma ReplaceAllRemoves(s: string, from: char, to: char)
    requires from != to
    ensures from !in ReplaceAll(s, from, to)
    ensures ReplaceAll(ReplaceAll(s, from, to), from, to) == ReplaceAll(s, from, to)
  {
    var r := ReplaceAll(s, from, to);
    assert forall i :: 0 <= i < |r| ==> r[i] != from;
    assert ReplaceAll(r, from, to) == r;
  }
}
