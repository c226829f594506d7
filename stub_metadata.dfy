/** The two patterns index.js runs over a stub's text: `extractURL`, which finds the
    source URL and removes its `utm_` query segments, and `extractDate`, which finds the
    clipped date. Both are the label search of LabelScan with their own labels, gap and
    target. */
module StubMetadata {
  import opened Wrappers
  import opened Text
  import opened LabelScan

  // ---------------------------------------------------------------- extractURL

  /** The label group `(URL|source|src)`, in the order the alternation lists it. */
  const UrlLabels: seq<string> := ["URL", "source", "src"]

  /** `[^\n]`: the gap between label and URL ends only at a line feed. */
  predicate NotLineFeed(c: char) {
    c != '\n'
  }

  /** `[^\s\)]`: a character a URL may contain. */
  predicate IsUrlChar(c: char) {
    !IsSpace(c) && c != ')'
  }

  /** Starts with `http://` or `https://`, letters in any case. */
  predicate HasScheme(u: string) {
    MatchesCI(u, 0, "http://") || MatchesCI(u, 0, "https://")
  }

  /** End of the run of URL characters that starts at `i`. */
  function UrlRunEnd(text: string, i: nat): (j: nat)
    requires i <= |text|
    ensures i <= j <= |text|
    ensures forall k :: i <= k < j ==> IsUrlChar(text[k])
    ensures j == |text| || !IsUrlChar(text[j])
    decreases |text| - i
  {
    if i < |text| && IsUrlChar(text[i]) then UrlRunEnd(text, i + 1) else i
  }

  /** `https?:\/\/[^\s\)]+` at position `q`: the greedy `s?` tries `https://` first,
      and the run of URL characters is taken whole. It fails only when neither scheme,
      in any case, stands at `q` followed by a URL character. */
  function UrlAt(text: string, q: nat): (r: Option<string>)
    ensures r.Some? ==> && HasScheme(r.value) && MatchesAt(text, q, r.value)
                        && (q + |r.value| == |text| || !IsUrlChar(text[q + |r.value|]))
    ensures r.None? ==> && !(MatchesCI(text, q, "https://") && q + 8 < |text| && IsUrlChar(text[q + 8]))
                        && !(MatchesCI(text, q, "http://") && q + 7 < |text| && IsUrlChar(text[q + 7]))
  {
    if MatchesCI(text, q, "https://") && q + 8 < |text| && IsUrlChar(text[q + 8]) then
      Some(text[q..UrlRunEnd(text, q + 8)])
    else if MatchesCI(text, q, "http://") && q + 7 < |text| && IsUrlChar(text[q + 7]) then
      Some(text[q..UrlRunEnd(text, q + 7)])
    else None
  }

  /** A URL the pattern matches holds neither white space nor `)`. */
  lemma UrlAtChars(text: string, q: nat)
    requires UrlAt(text, q).Some?
    ensures forall k :: 0 <= k < |UrlAt(text, q).value| ==> IsUrlChar(UrlAt(text, q).value[k])
  {
    var u := UrlAt(text, q).value;
    var n := if MatchesCI(text, q, "https://") && q + 8 < |text| && IsUrlChar(text[q + 8]) then 8 else 7;
    forall k | 0 <= k < n ensures IsUrlChar(u[k]) {
      assert Lower(u[k]) == Lower("https://"[k]) || Lower(u[k]) == Lower("http://"[k]);
    }
  }

  predicate IsQuerySep(c: char) {
    c == '?' || c == '&'
  }

  /** A `(\?|&)utm_[^?&]+` segment starts at position `i` of `u` (case matters: this
      pattern has no `i` flag). */
  predicate UtmAt(u: string, i: nat) {
    && i + 5 < |u| && IsQuerySep(u[i])
    && u[i + 1] == 'u' && u[i + 2] == 't' && u[i + 3] == 'm' && u[i + 4] == '_'
    && !IsQuerySep(u[i + 5])
  }

  /** The first `?` or `&` at or after `i`, or the end of `u`. */
  function SegmentEnd(u: string, i: nat): (j: nat)
    requires i <= |u|
    ensures i <= j <= |u|
    ensures forall k :: i <= k < j ==> !IsQuerySep(u[k])
    ensures j == |u| || IsQuerySep(u[j])
    decreases |u| - i
  {
    if i < |u| && !IsQuerySep(u[i]) then SegmentEnd(u, i + 1) else i
  }

  /** `u.replace(/(\?|&)utm_[^?&]+/g, '')`: every `utm_` segment, with the `?` or `&`
      that opens it, is deleted, scanning left to right; nothing else changes. */
  function StripUtm(u: string): (r: string)
    ensures |r| <= |u|
    decreases |u|
  {
    if |u| == 0 then ""
    else if UtmAt(u, 0) then StripUtm(u[SegmentEnd(u, 5)..])
    else [u[0]] + StripUtm(u[1..])
  }

  /** `extractURL` (index.js:191-204): the URL after the first label that has one on its
      line, without its `utm_` segments; None when there is none. */
  function ExtractURL(text: string): Option<string> {
    match FindFrom(text, 0, UrlLabels, NotLineFeed, UrlAt)
    case None => None
    case Some(u) => Some(StripUtm(u))
  }

  /** A label of the URL pattern at `p`, then the URL at `q` on the same line. */
  ghost predicate LabeledUrl(text: string, p: nat, li: nat, q: nat) {
    MatchAt(text, UrlLabels, NotLineFeed, UrlAt, p, li, q)
  }

  /** Text without `?`/`&` is copied through, and the stripping goes on after it. */
  lemma {:induction false} StripUtmPlainPrefix(p: string, rest: string)
    requires forall k :: 0 <= k < |p| ==> !IsQuerySep(p[k])
    ensures StripUtm(p + rest) == p + StripUtm(rest)
    decreases |p|
  {
    if |p| > 0 {
      var u := p + rest;
      assert u[0] == p[0];
      assert !UtmAt(u, 0);
      assert StripUtm(u) == [u[0]] + StripUtm(u[1..]);
      assert u[1..] == p[1..] + rest;
      StripUtmPlainPrefix(p[1..], rest);
      calc {
        StripUtm(u);
        [p[0]] + StripUtm(p[1..] + rest);
        [p[0]] + (p[1..] + StripUtm(rest));
        { assert [p[0]] + p[1..] == p; }
        p + StripUtm(rest);
      }
    } else {
      assert p + rest == rest;
    }
  }

  /** Stripping only deletes: every character of the result comes from the URL. */
  lemma {:induction false} StripUtmChars(u: string)
    ensures forall c :: c in StripUtm(u) ==> c in u
    decreases |u|
  {
    if |u| > 0 {
      if UtmAt(u, 0) {
        var v := u[SegmentEnd(u, 5)..];
        StripUtmChars(v);
        forall c | c in v ensures c in u {
          var k :| 0 <= k < |v| && v[k] == c;
          assert u[SegmentEnd(u, 5) + k] == c;
        }
      } else {
        StripUtmChars(u[1..]);
        forall c | c in u[1..] ensures c in u {
          var k :| 0 <= k < |u| - 1 && u[1..][k] == c;
          assert u[k + 1] == c;
        }
      }
    }
  }

  /** Everything before the first `utm_` segment is copied unchanged. */
  lemma {:induction false} StripUtmCopiesUntilSegment(u: string, i: nat)
    requires i <= |u|
    requires forall k :: 0 <= k < i ==> !UtmAt(u, k)
    ensures StripUtm(u) == u[..i] + StripUtm(u[i..])
    decreases i
  {
    if i > 0 {
      var v := u[1..];
      forall k | 0 <= k < i - 1 ensures !UtmAt(v, k) {
        assert !UtmAt(u, k + 1);
      }
      StripUtmCopiesUntilSegment(v, i - 1);
      StripUtmKeep(u);
      ShiftedCut(u, i);
    }
  }

  /** Cutting a text after its first character and then at `i - 1`. */
  lemma ShiftedCut(u: string, i: nat)
    requires 0 < i <= |u|
    ensures u[1..][i - 1..] == u[i..] && [u[0]] + u[1..][..i - 1] == u[..i]
  {
    assert [u[0]] + u[1..][..i - 1] == u[..i];
  }

  /** A URL without `utm_` segments is returned as it is. */
  lemma StripUtmUntouched(u: string)
    requires forall k :: 0 <= k < |u| ==> !UtmAt(u, k)
    ensures StripUtm(u) == u
  {
    StripUtmCopiesUntilSegment(u, |u|);
    assert u[..|u|] == u;
  }

  /** At a `utm_` segment the segment is dropped and the stripping resumes at the next
      `?`, `&` or the end; in particular the `&` that follows a stripped `?utm_...` is kept
      as it is, not turned into `?`. */
  lemma StripUtmAtSegment(u: string, i: nat)
    requires UtmAt(u, i)
    requires forall k :: 0 <= k < i ==> !UtmAt(u, k)
    ensures StripUtm(u) == u[..i] + StripUtm(u[SegmentEnd(u, i + 5)..])
  {
    StripUtmCopiesUntilSegment(u, i);
    var v := u[i..];
    assert UtmAt(v, 0);
    var e := SegmentEnd(v, 5);
    var e' := SegmentEnd(u, i + 5);
    assert e' == i + e;
    assert v[e..] == u[e'..];
  }

  /** A `?utm_...` segment at the front is dropped up to the next `?` or `&`. */
  lemma StripUtmDropsFront(value: string, rest: string)
    requires |value| > 0 && forall k :: 0 <= k < |value| ==> !IsQuerySep(value[k])
    requires |rest| > 0 && IsQuerySep(rest[0])
    ensures StripUtm("?utm_" + value + rest) == StripUtm(rest)
  {
    var seg := "?utm_" + value + rest;
    FrontSegment(value, rest);
    StripUtmSkip(seg);
  }

  /** `?utm_` followed by a value and then a separator is one segment ending there. */
  lemma FrontSegment(value: string, rest: string)
    requires |value| > 0 && forall k :: 0 <= k < |value| ==> !IsQuerySep(value[k])
    requires |rest| > 0 && IsQuerySep(rest[0])
    ensures var seg := "?utm_" + value + rest;
            UtmAt(seg, 0) && SegmentEnd(seg, 5) == 5 + |value| && seg[5 + |value|..] == rest
  {
    var seg := "?utm_" + value + rest;
    assert seg[5] == value[0];
    var n := 5 + |value|;
    assert seg[n] == rest[0];
    forall k | 5 <= k < n ensures !IsQuerySep(seg[k]) {
      assert seg[k] == value[k - 5];
    }
    SegmentEndIs(seg, 5, n);
    assert seg[n..] == rest;
  }

  /** At a segment, stripping resumes after it. */
  lemma StripUtmSkip(u: string)
    requires UtmAt(u, 0)
    ensures StripUtm(u) == StripUtm(u[SegmentEnd(u, 5)..])
  {
  }

  /** Elsewhere the first character is kept. */
  lemma StripUtmKeep(u: string)
    requires |u| > 0 && !UtmAt(u, 0)
    ensures StripUtm(u) == [u[0]] + StripUtm(u[1..])
  {
  }

  /** The end of a run without `?` or `&` that is followed by one of them or by the end. */
  lemma {:induction false} SegmentEndIs(u: string, i: nat, j: nat)
    requires i <= j <= |u|
    requires forall k :: i <= k < j ==> !IsQuerySep(u[k])
    requires j == |u| || IsQuerySep(u[j])
    ensures SegmentEnd(u, i) == j
    decreases j - i
  {
    if i < j {
      SegmentEndIs(u, i + 1, j);
    }
  }

  /** A leading `?utm_...` parameter is removed together with its `?`, and the `&` of the
      parameter after it stays `&`: `.../a?utm_source=x&page=2` becomes `.../a&page=2`. */
  lemma StripUtmLeadingParam(base: string, value: string, rest: string)
    requires forall k :: 0 <= k < |base| ==> !IsQuerySep(base[k])
    requires |value| > 0 && forall k :: 0 <= k < |value| ==> !IsQuerySep(value[k])
    requires |rest| > 0 && rest[0] == '&' && forall k :: 0 <= k < |rest| ==> !UtmAt(rest, k)
    ensures StripUtm(base + ("?utm_" + value + rest)) == base + rest
  {
    StripUtmDropsFront(value, rest);
    StripUtmUntouched(rest);
    StripUtmPlainPrefix(base, "?utm_" + value + rest);
  }


  /** `extractURL` gives null exactly when no label (`URL`, `source` or `src` in any case,
      possibly inside a longer word) is followed on its line by `http(s)://` and at least
      one character that is neither white space nor `)`. */
  lemma ExtractURLNoneIff(text: string)
    ensures ExtractURL(text).None? <==> forall p: nat, li: nat, q: nat :: !LabeledUrl(text, p, li, q)
  {
    FindFromNone(text, 0, UrlLabels, NotLineFeed, UrlAt);
    forall p: nat, li: nat, q: nat
      ensures LabeledUrl(text, p, li, q) == MatchAt(text, UrlLabels, NotLineFeed, UrlAt, p, li, q) { }
  }

  /** A URL found is the first URL after the leftmost completable label, stripped of its
      `utm_` segments. */
  lemma ExtractURLFirst(text: string)
    requires ExtractURL(text).Some?
    ensures exists p: nat, li: nat, q: nat ::
              && LabeledUrl(text, p, li, q)
              && Leftmost(text, UrlLabels, NotLineFeed, UrlAt, 0, p, li, q)
              && ExtractURL(text).value == StripUtm(UrlAt(text, q).value)
  {
    FindFromSome(text, 0, UrlLabels, NotLineFeed, UrlAt);
  }

  /** A URL found starts with `http://` or `https://` (any case), so it is never the empty
      (falsy) string, and holds neither white space nor `)`. */
  lemma ExtractURLShape(text: string)
    requires ExtractURL(text).Some?
    ensures HasScheme(ExtractURL(text).value)
    ensures forall c :: c in ExtractURL(text).value ==> IsUrlChar(c)
    ensures |ExtractURL(text).value| >= 7
  {
    FindFromSome(text, 0, UrlLabels, NotLineFeed, UrlAt);
    var p: nat, li: nat, q: nat :| && MatchAt(text, UrlLabels, NotLineFeed, UrlAt, p, li, q)
                                   && UrlAt(text, q) == FindFrom(text, 0, UrlLabels, NotLineFeed, UrlAt);
    var u := UrlAt(text, q).value;
    UrlAtChars(text, q);
    StripUtmChars(u);
    StripUtmKeepsScheme(u);
  }

  /** The scheme of a URL survives the stripping character for character, letter case
      included. */
  lemma StripUtmKeepsScheme(u: string)
    requires HasScheme(u)
    ensures HasScheme(StripUtm(u)) && |StripUtm(u)| >= 7
    ensures StripUtm(u)[..7] == u[..7]
    ensures MatchesCI(u, 0, "https://") ==> |StripUtm(u)| >= 8 && StripUtm(u)[..8] == u[..8]
  {
    var n := if MatchesCI(u, 0, "https://") then 8 else 7;
    forall k | 0 <= k < n ensures !IsQuerySep(u[..n][k]) {
      assert Lower(u[k]) == Lower("https://"[k]) || Lower(u[k]) == Lower("http://"[k]);
    }
    StripUtmPlainPrefix(u[..n], u[n..]);
    assert u[..n] + u[n..] == u;
    var r := StripUtm(u);
    assert r[..n] == u[..n];
    if n == 8 {
      assert MatchesCI(r, 0, "https://");
    } else {
      assert MatchesCI(r, 0, "http://");
    }
  }

  // --------------------------------------------------------------- extractDate

  /** The label group `(clipped:|clipped::|date|Date)`, in the order the alternation lists it;
      under the `i` flag `date` and `Date` accept the same words. */
  const DateLabels: seq<string> := ["clipped:", "clipped::", "date", "Date"]

  /** `.`: the gap between label and date may not cross a line terminator. */
  predicate NotLineTerminator(c: char) {
    !IsLineTerminator(c)
  }

  /** The shape `[0-9]{4}-[0-9]{2}-[0-9]{2}`; the digits are not checked as a calendar date. */
  predicate IsDateShape(d: string) {
    && |d| == 10
    && IsDigit(d[0]) && IsDigit(d[1]) && IsDigit(d[2]) && IsDigit(d[3])
    && d[4] == '-' && IsDigit(d[5]) && IsDigit(d[6])
    && d[7] == '-' && IsDigit(d[8]) && IsDigit(d[9])
  }

  /** `\[\[(date)\]\]` at position `q`, capturing the date: it succeeds exactly when `[[`,
      a `DDDD-DD-DD` date and `]]` follow one another from `q`. */
  function DateAt(text: string, q: nat): (r: Option<string>)
    ensures r.Some? ==> && IsDateShape(r.value) && MatchesAt(text, q + 2, r.value)
                        && q + 14 <= |text| && text[q] == '[' && text[q + 1] == '['
                        && text[q + 12] == ']' && text[q + 13] == ']'
    ensures r.None? ==> !(&& q + 14 <= |text| && text[q] == '[' && text[q + 1] == '['
                          && IsDateShape(text[q + 2..q + 12]) && text[q + 12] == ']' && text[q + 13] == ']')
  {
    if && q + 14 <= |text| && text[q] == '[' && text[q + 1] == '['
       && IsDateShape(text[q + 2..q + 12]) && text[q + 12] == ']' && text[q + 13] == ']'
    then Some(text[q + 2..q + 12])
    else None
  }

  /** `extractDate` (index.js:206-212): the bracketed date after the first label that has
      one on its line; None when there is none. */
  function ExtractDate(text: string): Option<string> {
    FindFrom(text, 0, DateLabels, NotLineTerminator, DateAt)
  }

  /** A label of the date pattern at `p`, then `[[date]]` at `q` on the same line. */
  ghost predicate LabeledDate(text: string, p: nat, li: nat, q: nat) {
    MatchAt(text, DateLabels, NotLineTerminator, DateAt, p, li, q)
  }

  /** `extractDate` gives null exactly when no label is followed on its line by a
      bracketed date of the right shape. */
  lemma ExtractDateNoneIff(text: string)
    ensures ExtractDate(text).None? <==> forall p: nat, li: nat, q: nat :: !LabeledDate(text, p, li, q)
  {
    FindFromNone(text, 0, DateLabels, NotLineTerminator, DateAt);
    forall p: nat, li: nat, q: nat
      ensures LabeledDate(text, p, li, q) == MatchAt(text, DateLabels, NotLineTerminator, DateAt, p, li, q) { }
  }

  /** A date found is the first bracketed date after the leftmost completable label, and
      it is a ten-character `DDDD-DD-DD` string. */
  lemma ExtractDateFirst(text: string)
    requires ExtractDate(text).Some?
    ensures IsDateShape(ExtractDate(text).value)
    ensures exists p: nat, li: nat, q: nat ::
              && LabeledDate(text, p, li, q)
              && Leftmost(text, DateLabels, NotLineTerminator, DateAt, 0, p, li, q)
              && ExtractDate(text) == DateAt(text, q)
  {
    FindFromSome(text, 0, DateLabels, NotLineTerminator, DateAt);
  }

  /** Worked example: a `clipped::` line yields its date. */
  lemma ExtractDateExample()
    ensures ExtractDate("clipped:: [[2023-05-01]]") == Some("2023-05-01")
  {
    var text := "clipped:: [[2023-05-01]]";
    assert MatchesCI(text, 0, DateLabels[0]);
    assert text[12..22] == "2023-05-01";
    assert IsDateShape("2023-05-01");
    assert DateAt(text, 8).None?;
    assert DateAt(text, 9).None?;
    assert DateAt(text, 10) == Some("2023-05-01");
    assert Lazy(text, 10, NotLineTerminator, DateAt) == Some("2023-05-01");
    assert Lazy(text, 9, NotLineTerminator, DateAt) == Some("2023-05-01");
    assert Lazy(text, 8, NotLineTerminator, DateAt) == Some("2023-05-01");
    assert TryLabels(text, 0, DateLabels, NotLineTerminator, DateAt) == Some("2023-05-01");
  }
}
