/** The pieces `pullMarkDown` (index.js:70-182) assembles a clipped note from: the quote
    stripping of YAML strings, the tag list, the meta-tag lookups with their fallbacks,
    the date of today and the fixed-order front matter. */
module Frontmatter {
  import opened Wrappers
  import opened Text
  import StubMetadata

  // ---------------------------------------------------------------- quote stripping

  /** The characters `sanitizeYAMLstring` deletes: straight double and single quotes and
      the four typographic ones (U+201C, U+201D, U+2018, U+2019). */
  predicate IsQuote(c: char) {
    || c == '"' || c == '\'' || c == '\U{201C}' || c == '\U{201D}'
    || c == '\U{2018}' || c == '\U{2019}'
  }

  /** `sanitizeYAMLstring` (index.js:113-115): a global replace of the quote class by
      nothing. The result holds no quote. */
  function Sanitize(s: string): (r: string)
    ensures |r| <= |s|
    ensures forall k :: 0 <= k < |r| ==> !IsQuote(r[k])
    decreases |s|
  {
    if |s| == 0 then ""
    else (if IsQuote(s[0]) then "" else [s[0]]) + Sanitize(s[1..])
  }

  /** The replacement works character by character, so it distributes over concatenation. */
  lemma {:induction false} SanitizeAppend(a: string, b: string)
    ensures Sanitize(a + b) == Sanitize(a) + Sanitize(b)
    decreases |a|
  {
    if |a| == 0 {
      assert a + b == b;
    } else {
      var ab := a + b;
      assert ab[0] == a[0] && ab[1..] == a[1..] + b;
      SanitizeAppend(a[1..], b);
      var h := if IsQuote(a[0]) then "" else [a[0]];
      assert Sanitize(ab) == h + Sanitize(a[1..] + b);
      assert Sanitize(a) == h + Sanitize(a[1..]);
    }
  }

  /** A quote is deleted where it stands and any other character is kept in its place:
      the rest of the string keeps its order around it. */
  lemma SanitizeAt(a: string, c: char, b: string)
    ensures IsQuote(c) ==> Sanitize(a + [c] + b) == Sanitize(a) + Sanitize(b)
    ensures !IsQuote(c) ==> Sanitize(a + [c] + b) == Sanitize(a) + [c] + Sanitize(b)
  {
    SanitizeAppend(a + [c], b);
    SanitizeAppend(a, [c]);
    assert [c][1..] == [];
    if IsQuote(c) {
      assert Sanitize([c]) == [];
    } else {
      assert Sanitize([c]) == [c];
    }
  }

  /** Every character other than a quote occurs as often in the result as in `s`. */
  lemma {:induction false} SanitizeCounts(s: string)
    ensures forall c :: !IsQuote(c) ==> multiset(Sanitize(s))[c] == multiset(s)[c]
    decreases |s|
  {
    if |s| > 0 {
      SanitizeCounts(s[1..]);
      assert s == [s[0]] + s[1..];
      assert Sanitize(s) == (if IsQuote(s[0]) then "" else [s[0]]) + Sanitize(s[1..]);
    }
  }

  /** A string without quotes is left as it is. */
  lemma {:induction false} SanitizeQuoteFree(s: string)
    requires forall k :: 0 <= k < |s| ==> !IsQuote(s[k])
    ensures Sanitize(s) == s
    decreases |s|
  {
    if |s| > 0 {
      SanitizeQuoteFree(s[1..]);
      assert [s[0]] + s[1..] == s;
    }
  }

  /** Sanitizing twice is sanitizing once. */
  lemma {:induction false} SanitizeIdempotent(s: string)
    ensures Sanitize(Sanitize(s)) == Sanitize(s)
  {
    SanitizeQuoteFree(Sanitize(s));
  }

  // ---------------------------------------------------------------- meta tags

  /** What `document.querySelector` and `getAttribute("content")` give for one meta tag:
      no such element, an element without a `content` attribute, or its content. */
  datatype Meta = Absent | NoContent | Content(value: string)

  /** Why `pullMarkDown` throws: the fetch failed (with the reason the network layer
      gives), Readability found no article (`article.content` on null), or a meta element
      read by `getMetaContent` has no `content` attribute (`.trim()` on null). */
  datatype PullError = FetchFailed(reason: string) | NoArticle | NoContentAttribute

  /** A lookup that yields the empty string without throwing. */
  predicate Blank(m: Meta) {
    m.Absent? || (m.Content? && Trim(m.value) == "")
  }

  /** `getMetaContent` (index.js:131-134): the trimmed content, "" without an element, and
      a throw for an element without content. */
  function GetMetaContent(m: Meta): (r: Result<string, PullError>)
    ensures r.Err? <==> m.NoContent?
    ensures r.Err? ==> r.error == NoContentAttribute
    ensures r.Ok? ==> (r.value == "" <==> Blank(m))
    ensures r.Ok? && |r.value| > 0 ==> !IsSpace(r.value[0]) && !IsSpace(r.value[|r.value| - 1])
    ensures m.Content? ==> r == Ok(Trim(m.value))
  {
    match m
    case Absent => Ok("")
    case NoContent => Err(NoContentAttribute)
    case Content(v) =>
      TrimSpec(v);
      Ok(Trim(v))
  }

  /** `getMetaContent(l1) || getMetaContent(l2) || ...` (index.js:137-140, 146-149): each
      lookup runs only while the ones before it gave the empty string; the last one's value
      is taken as it is. */
  function FirstNonEmpty(lookups: seq<Meta>): (r: Result<string, PullError>)
    ensures r.Err? ==> r.error == NoContentAttribute
    decreases |lookups|
  {
    if |lookups| == 0 then Ok("")
    else
      match GetMetaContent(lookups[0])
      case Err(e) => Err(e)
      case Ok(v) => if v != "" || |lookups| == 1 then Ok(v) else FirstNonEmpty(lookups[1..])
  }

  /** The first `n` lookups all yield the empty string. */
  ghost predicate BlankUpTo(lookups: seq<Meta>, n: nat)
    requires n <= |lookups|
  {
    forall j :: 0 <= j < n ==> Blank(lookups[j])
  }

  /** Lookup `k` is the first one that is not blank, and it has no content attribute. */
  ghost predicate ThrowsAt(lookups: seq<Meta>, k: nat) {
    k < |lookups| && lookups[k].NoContent? && BlankUpTo(lookups, k)
  }

  /** Lookup `k` is the first one that is not blank, and its trimmed content is `v`. */
  ghost predicate FoundAt(lookups: seq<Meta>, k: nat, v: string) {
    k < |lookups| && lookups[k].Content? && Trim(lookups[k].value) == v && v != ""
    && BlankUpTo(lookups, k)
  }

  /** Being blank up to `n + 1` is the first lookup being blank and the rest up to `n`. */
  lemma BlankUpToTail(lookups: seq<Meta>, n: nat)
    requires 0 < |lookups| && n + 1 <= |lookups|
    ensures BlankUpTo(lookups, n + 1) <==> Blank(lookups[0]) && BlankUpTo(lookups[1..], n)
  {
    if Blank(lookups[0]) && BlankUpTo(lookups[1..], n) {
      forall j | 0 <= j < n + 1 ensures Blank(lookups[j]) {
        if j > 0 { assert lookups[j] == lookups[1..][j - 1]; }
      }
    }
  }

  /** The fallback chain throws exactly when a content-less element is reached before any
      non-blank lookup. */
  lemma {:induction false} FirstNonEmptyThrows(lookups: seq<Meta>)
    ensures FirstNonEmpty(lookups).Err? <==> exists k: nat :: ThrowsAt(lookups, k)
    decreases |lookups|
  {
    if |lookups| > 0 {
      var rest := lookups[1..];
      if lookups[0].NoContent? {
        assert ThrowsAt(lookups, 0);
      } else if !Blank(lookups[0]) || |lookups| == 1 {
        forall k: nat ensures !ThrowsAt(lookups, k) {
          if 0 < k < |lookups| {
            assert !Blank(lookups[0]);
          }
        }
      } else {
        FirstNonEmptyThrows(rest);
        assert FirstNonEmpty(lookups) == FirstNonEmpty(rest);
        forall k: nat | ThrowsAt(rest, k) ensures ThrowsAt(lookups, k + 1) {
          BlankUpToTail(lookups, k);
        }
        forall k: nat | ThrowsAt(lookups, k) ensures ThrowsAt(rest, k - 1) {
          assert k != 0;
          BlankUpToTail(lookups, k - 1);
        }
      }
    }
  }

  /** The fallback chain gives "" exactly when every lookup is blank. */
  lemma {:induction false} FirstNonEmptyBlank(lookups: seq<Meta>)
    ensures FirstNonEmpty(lookups) == Ok("") <==> BlankUpTo(lookups, |lookups|)
    decreases |lookups|
  {
    if |lookups| > 0 {
      BlankUpToTail(lookups, |lookups| - 1);
      if |lookups| == 1 {
        assert BlankUpTo(lookups[1..], 0);
      } else if Blank(lookups[0]) {
        FirstNonEmptyBlank(lookups[1..]);
        assert FirstNonEmpty(lookups) == FirstNonEmpty(lookups[1..]);
      }
    }
  }

  /** A non-empty result is the trimmed content of the first non-blank lookup. */
  lemma {:induction false} FirstNonEmptyFound(lookups: seq<Meta>)
    requires FirstNonEmpty(lookups).Ok? && FirstNonEmpty(lookups).value != ""
    ensures exists k: nat :: FoundAt(lookups, k, FirstNonEmpty(lookups).value)
    decreases |lookups|
  {
    var v := FirstNonEmpty(lookups).value;
    if !Blank(lookups[0]) {
      assert FoundAt(lookups, 0, v);
    } else {
      var rest := lookups[1..];
      assert FirstNonEmpty(lookups) == FirstNonEmpty(rest);
      FirstNonEmptyFound(rest);
      var k: nat :| FoundAt(rest, k, v);
      BlankUpToTail(lookups, k);
      assert FoundAt(lookups, k + 1, v);
    }
  }

  /** `authorBrackets` (index.js:143): a wiki link in quotes, or nothing. */
  function AuthorBrackets(author: string): (r: string)
    ensures author == "" <==> r == ""
    ensures author != "" ==> && |r| == |author| + 6 && r[..3] == "\"[[" && r[3..|r| - 3] == author
                             && r[|r| - 3..] == "]]\""
  {
    if author != "" then "\"[[" + author + "]]\"" else ""
  }

  // ---------------------------------------------------------------- tags

  /** The line for one keyword: the piece trimmed, after a list marker. */
  function TagLine(keyword: string): string {
    "  - " + Trim(keyword)
  }

  /** The tag line of each piece, in order. */
  function TagsOf(pieces: seq<string>): (r: seq<string>)
    ensures |r| == |pieces|
    decreases |pieces|
  {
    if |pieces| == 0 then []
    else TagsOf(pieces[..|pieces| - 1]) + [TagLine(pieces[|pieces| - 1])]
  }

  /** Line `k` of the tags is the line of piece `k`. */
  lemma {:induction false} TagsOfAt(pieces: seq<string>, k: nat)
    requires k < |pieces|
    ensures TagsOf(pieces)[k] == TagLine(pieces[k])
    decreases |pieces|
  {
    if k < |pieces| - 1 {
      TagsOfAt(pieces[..|pieces| - 1], k);
    }
  }

  /** The tag lines (index.js:96-109): `tags:`, the `AI` tag, then when the keywords meta
      element has a non-empty content, one line per comma-separated piece. */
  function TagLines(keywords: Meta): (r: seq<string>)
    ensures |r| >= 2 && r[0] == "tags:" && r[1] == "  - AI"
  {
    ["tags:", "  - AI"]
      + (if keywords.Content? && keywords.value != "" then TagsOf(Split(keywords.value, ',')) else [])
  }

  /** The loop of index.js:96-109: push the two fixed lines, then one per piece. */
  method BuildTagLines(keywords: Meta) returns (lines: seq<string>)
    ensures lines == TagLines(keywords)
  {
    lines := ["tags:"];
    lines := lines + ["  - AI"];
    ghost var fixed := lines;
    if keywords.Content? && keywords.value != "" {
      var pieces := Split(keywords.value, ',');
      var i := 0;
      while i < |pieces|
        invariant 0 <= i <= |pieces|
        invariant lines == fixed + TagsOf(pieces[..i])
      {
        assert pieces[..i + 1][..i] == pieces[..i];
        lines := lines + [TagLine(pieces[i])];
        i := i + 1;
      }
      assert pieces[..i] == pieces;
    }
  }

  /** Only the `AI` tag exactly when the keywords element is absent, has no content
      attribute or has empty content. */
  lemma TagLinesOnlyAI(keywords: Meta)
    ensures |TagLines(keywords)| == 2 <==> !(keywords.Content? && keywords.value != "")
  {
  }

  /** With keywords, each comma-separated piece gives one line, in order, duplicates and
      empty pieces included; the pieces rejoined with commas are the whole content. */
  lemma TagLinesKeywords(content: string)
    requires content != ""
    ensures |TagLines(Content(content))| == 2 + |Split(content, ',')|
    ensures forall i :: 0 <= i < |Split(content, ',')| ==>
              TagLines(Content(content))[2 + i] == "  - " + Trim(Split(content, ',')[i])
    ensures Join(Split(content, ','), ",") == content
  {
    JoinSplit(content, ',');
    var pieces := Split(content, ',');
    forall i | 0 <= i < |pieces|
      ensures TagLines(Content(content))[2 + i] == "  - " + Trim(pieces[i])
    {
      TagsOfAt(pieces, i);
    }
  }

  // ---------------------------------------------------------------- dates

  /** A leading zero does not change the value of a digit string. */
  lemma {:induction false} LeadingZero(t: string)
    requires forall k :: 0 <= k < |t| ==> IsDigit(t[k])
    ensures DigitsValue("0" + t) == DigitsValue(t)
    decreases |t|
  {
    var u := "0" + t;
    if |t| == 0 {
      assert u[..0] == "";
    } else {
      assert u[..|u| - 1] == "0" + t[..|t| - 1];
      LeadingZero(t[..|t| - 1]);
    }
  }

  /** One field of `convertDate` (index.js:223-230): the decimal notation when it has a
      second character, else "0" and its single character. */
  function Pad2(n: nat): (r: string)
    ensures |r| >= 2 && forall k :: 0 <= k < |r| ==> IsDigit(r[k])
    ensures n < 100 ==> |r| == 2
    ensures DigitsValue(r) == n
  {
    var t := NatToString(n);
    NatToStringValue(n);
    NatToStringLength(n);
    if |t| >= 2 then t
    else
      assert [t[0]] == t;
      LeadingZero(t);
      "0" + [t[0]]
  }

  /** What the clock gives: `getFullYear()`, `getMonth()` (0 for January) and `getDate()`. */
  datatype Day = Day(year: int, month: nat, date: nat)

  /** `convertDate` (index.js:219-232): year, month number and day, separated by dashes,
      the last two padded to two digits. */
  function ConvertDate(d: Day): string
  {
    IntToString(d.year) + "-" + Pad2(d.month + 1) + "-" + Pad2(d.date)
  }

  /** For a calendar month and day the result is the year's decimal notation, a dash, two
      digits reading back as the month number (counted from 1), a dash, and two digits
      reading back as the day. */
  lemma ConvertDateFields(d: Day)
    requires d.month < 12 && 1 <= d.date <= 31
    ensures var r := ConvertDate(d); var n := |r|;
            && r[..n - 6] == IntToString(d.year)
            && r[n - 6] == '-' && r[n - 3] == '-'
            && (forall k :: n - 5 <= k < n ==> k != n - 3 ==> IsDigit(r[k]))
            && DigitsValue(r[n - 5..n - 3]) == d.month + 1
            && DigitsValue(r[n - 2..]) == d.date
  {
    var r := ConvertDate(d);
    var n := |r|;
    var y := IntToString(d.year);
    assert n == |y| + 6;
    assert r[..n - 6] == y;
    assert r[n - 5..n - 3] == Pad2(d.month + 1);
    assert r[n - 2..] == Pad2(d.date);
  }

  /** For a four-digit year the result is the `DDDD-DD-DD` shape the stub date pattern
      accepts, and the year reads back too. */
  lemma ConvertDateShape(d: Day)
    requires 1000 <= d.year <= 9999 && d.month < 12 && 1 <= d.date <= 31
    ensures StubMetadata.IsDateShape(ConvertDate(d))
    ensures DigitsValue(ConvertDate(d)[..4]) == d.year
  {
    ConvertDateFields(d);
    NatToStringLength(d.year);
    NatToStringValue(d.year);
    var r := ConvertDate(d);
    assert IntToString(d.year) == NatToString(d.year);
    assert r[..4] == NatToString(d.year);
  }

  // ---------------------------------------------------------------- the document

  /** The values the front matter is built from: the bracketed author, the sanitized
      title, the page URL, the date, the sanitized description and the tag lines. */
  datatype Header = Header(author: string, title: string, source: string, clipped: string,
                           description: string, tags: seq<string>)

  /** `fileContent` (index.js:152-179): the same pieces in the same order as the code
      concatenates them, grouped here line by line. */
  function FileContent(h: Header, body: string): string {
    "---" + "\n"
    + ("category: \"[[Clippings]]\"" + "\n"
    + ("author: " + h.author + "\n"
    + ("title: \"" + h.title + "\"" + "\n"
    + ("source: " + h.source + "\n"
    + ("clipped: " + h.clipped + "\n"
    + ("description: \"" + h.description + "\"" + "\n"
    + ("summary: \"\"" + "\n"
    + (Join(h.tags, "\n") + "\n"
    + ("publish: false" + "\n"
    + ("---" + "\n"
    + ("" + "\n"
    + ("# " + h.title + "\"" + "\n"
    + body))))))))))))
  }

  /** The lines before the body: the keys in their fixed order between the two `---`
      lines, a blank line and the heading, which ends in a stray quote as in the code. */
  function DocumentLines(h: Header): (r: seq<string>)
    ensures |r| == 12 + |h.tags|
  {
    ["---", "category: \"[[Clippings]]\"", "author: " + h.author, "title: \"" + h.title + "\"",
     "source: " + h.source, "clipped: " + h.clipped,
     "description: \"" + h.description + "\"", "summary: \"\""]
    + h.tags + ["publish: false", "---", "", "# " + h.title + "\""]
  }

  /** The note is the document's lines joined with newlines, the first of them `---` and the
      sixth the `clipped` line (a value holding a newline splits its line further). */
  lemma FileContentClippedLine(h: Header, body: string)
    requires |h.tags| >= 1
    ensures exists lines: seq<string> ::
              && |lines| >= 13 && lines[0] == "---" && lines[5] == "clipped: " + h.clipped
              && FileContent(h, body) == Join(lines, "\n")
  {
    FileContentLines(h, body);
    var lines := DocumentLines(h) + [body];
    assert lines[0] == "---" && lines[5] == "clipped: " + h.clipped;
  }

  /** Joining from line `i` on is line `i`, a newline and the join of the rest. */
  lemma Peel(all: seq<string>, i: nat)
    requires i + 1 < |all|
    ensures Join(all[i..], "\n") == all[i] + "\n" + Join(all[i + 1..], "\n")
  {
    assert all[i..] == [all[i]] + all[i + 1..];
    JoinCons(all[i], all[i + 1..], "\n");
  }

  /** The last four lines and the body, joined. */
  lemma JoinBottom(h: Header, body: string, q: seq<string>)
    requires q == ["publish: false", "---", "", "# " + h.title + "\"", body]
    ensures Join(q, "\n") ==
      "publish: false" + "\n" + ("---" + "\n" + ("" + "\n" + ("# " + h.title + "\"" + "\n" + body)))
  {
    Peel(q, 3);
    Peel(q, 2);
    Peel(q, 1);
    Peel(q, 0);
    assert q[4..] == [body];
    assert q[0..] == q;
  }

  /** The document is its lines and the body, joined with newlines. */
  lemma FileContentLines(h: Header, body: string)
    requires |h.tags| >= 1
    ensures FileContent(h, body) == Join(DocumentLines(h) + [body], "\n")
  {
    var all := DocumentLines(h) + [body];
    var n := |h.tags|;
    var q := all[8 + n..];
    JoinBottom(h, body, q);
    assert all[8..] == h.tags + q;
    JoinAppend(h.tags, q, "\n");
    Peel(all, 7);
    Peel(all, 6);
    Peel(all, 5);
    Peel(all, 4);
    Peel(all, 3);
    Peel(all, 2);
    Peel(all, 1);
    Peel(all, 0);
    assert all[0..] == all;
  }

  /** No line of the header holds a newline when none of its fields does. */
  lemma DocumentLinesFree(h: Header)
    requires '\n' !in h.author && '\n' !in h.title && '\n' !in h.source
    requires '\n' !in h.clipped && '\n' !in h.description
    requires forall i :: 0 <= i < |h.tags| ==> '\n' !in h.tags[i]
    ensures forall i :: 0 <= i < |DocumentLines(h)| ==> '\n' !in DocumentLines(h)[i]
  {
    var lines := DocumentLines(h);
    forall i | 0 <= i < |lines| ensures '\n' !in lines[i] {
      if 8 <= i < 8 + |h.tags| {
        assert lines[i] == h.tags[i - 8];
      }
    }
  }

  /** Read back line by line, a document whose values hold no newline shows its lines in
      the fixed order, then the lines of the body. */
  lemma FileContentSplit(h: Header, body: string)
    requires |h.tags| >= 1
    requires '\n' !in h.author && '\n' !in h.title && '\n' !in h.source
    requires '\n' !in h.clipped && '\n' !in h.description
    requires forall i :: 0 <= i < |h.tags| ==> '\n' !in h.tags[i]
    ensures Split(FileContent(h, body), '\n') == DocumentLines(h) + Split(body, '\n')
  {
    FileContentLines(h, body);
    DocumentLinesFree(h);
    SplitJoin(DocumentLines(h), body, '\n');
  }
}
