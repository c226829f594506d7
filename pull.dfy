/** `pullMarkDown` (index.js:70-182) once the network and the HTML libraries have done
    their part: the fetched page is an input, and what follows is the assembly of the
    clipped note from it. */
module Pull {
  import opened Wrappers
  import opened Text
  import LinkFix
  import StubMetadata
  import opened Frontmatter

  /** What Readability and Turndown make of the page: the article title and the article
      body converted to Markdown. */
  datatype Article = Article(title: string, markdown: string)

  /** A fetched page as the later steps read it: the document URL, the article (None when
      Readability finds none), the keywords meta tag and the six meta tags the author and
      description fall back over. */
  datatype Page = Page(url: string, article: Option<Article>, keywords: Meta,
                       authorName: Meta, authorProperty: Meta, siteName: Meta,
                       descriptionName: Meta, descriptionProperty: Meta,
                       ogDescription: Meta)

  /** What `pullMarkDown` returns. */
  datatype Clipping = Clipping(fileContent: string, sanitizedTitle: string)

  /** The author lookups, in the order of index.js:137-140. */
  function AuthorLookups(page: Page): seq<Meta> {
    [page.authorName, page.authorProperty, page.siteName]
  }

  /** The description lookups, in the order of index.js:146-149. */
  function DescriptionLookups(page: Page): seq<Meta> {
    [page.descriptionName, page.descriptionProperty, page.ogDescription]
  }

  /** The `clipped` value (index.js:122-128): the stub's date when it has a non-empty one,
      else today's date. */
  function ClippedDate(clipped: Option<string>, today: Day): string {
    if clipped.Some? && clipped.value != "" then clipped.value else ConvertDate(today)
  }

  /** The front-matter values for a page whose author and description lookups gave
      `author` and `description`. */
  function ClipHeader(page: Page, article: Article, author: string, description: string,
                      clipped: Option<string>, today: Day): Header
  {
    Header(AuthorBrackets(author), Sanitize(article.title), page.url,
           ClippedDate(clipped, today), Sanitize(description), TagLines(page.keywords))
  }

  /** What `pullMarkDown(url, clippedDate)` resolves to, or the error it throws, given what
      fetching `url` gave and the day it runs. */
  function Clip(fetch: Result<Page, string>, clipped: Option<string>, today: Day)
    : Result<Clipping, PullError>
  {
    match fetch
    case Err(reason) => Err(FetchFailed(reason))
    case Ok(page) =>
      match page.article
      case None => Err(NoArticle)
      case Some(article) =>
        var author := FirstNonEmpty(AuthorLookups(page));
        if author.Err? then Err(author.error)
        else
          var description := FirstNonEmpty(DescriptionLookups(page));
          if description.Err? then Err(description.error)
          else
            var h := ClipHeader(page, article, author.value, description.value, clipped, today);
            Ok(Clipping(FileContent(h, LinkFix.FixMarkdownLinks(article.markdown)), h.title))
  }

  /** `pullMarkDown` step by step, in the order of the code: body, tags, title, date,
      author, description, document. */
  method PullMarkDown(fetch: Result<Page, string>, clipped: Option<string>, today: Day)
    returns (r: Result<Clipping, PullError>)
    ensures r == Clip(fetch, clipped, today)
  {
    if fetch.Err? {
      return Err(FetchFailed(fetch.error));
    }
    var page := fetch.value;
    if page.article.None? {
      return Err(NoArticle);
    }
    var article := page.article.value;
    var markdownBody := LinkFix.FixMarkdownLinks(article.markdown);
    var tagLines := BuildTagLines(page.keywords);
    var sanitizedTitle := Sanitize(article.title);
    var date: string;
    if clipped.Some? && clipped.value != "" {
      date := clipped.value;
    } else {
      date := ConvertDate(today);
    }
    var author := FirstNonEmpty(AuthorLookups(page));
    if author.Err? {
      return Err(author.error);
    }
    var authorBrackets := AuthorBrackets(author.value);
    var description := FirstNonEmpty(DescriptionLookups(page));
    if description.Err? {
      return Err(description.error);
    }
    var sanitizedDesc := Sanitize(description.value);
    var h := Header(authorBrackets, sanitizedTitle, page.url, date, sanitizedDesc, tagLines);
    r := Ok(Clipping(FileContent(h, markdownBody), sanitizedTitle));
  }

  /** Each way `pullMarkDown` can throw, and nothing else: the fetch fails, there is no
      article, or one of the two lookup chains reaches an element without content. */
  lemma ClipErrors(fetch: Result<Page, string>, clipped: Option<string>, today: Day)
    ensures fetch.Err? ==> Clip(fetch, clipped, today) == Err(FetchFailed(fetch.error))
    ensures fetch.Ok? && fetch.value.article.None? ==> Clip(fetch, clipped, today) == Err(NoArticle)
    ensures fetch.Ok? && fetch.value.article.Some? ==>
              (Clip(fetch, clipped, today).Err? <==>
                 || (exists k: nat :: ThrowsAt(AuthorLookups(fetch.value), k))
                 || (exists k: nat :: ThrowsAt(DescriptionLookups(fetch.value), k)))
    ensures fetch.Ok? && fetch.value.article.Some? && Clip(fetch, clipped, today).Err? ==>
              Clip(fetch, clipped, today) == Err(NoContentAttribute)
  {
    if fetch.Ok? && fetch.value.article.Some? {
      var authors := AuthorLookups(fetch.value);
      var descriptions := DescriptionLookups(fetch.value);
      FirstNonEmptyThrows(authors);
      FirstNonEmptyThrows(descriptions);
      assert Clip(fetch, clipped, today).Err?
             <==> FirstNonEmpty(authors).Err? || FirstNonEmpty(descriptions).Err?;
    }
  }

  /** A successful clipping is the document lines of its header followed by the fixed
      Markdown body, joined with newlines; the title is the sanitized article title; the
      author and the description are the first non-blank of their three lookups, or "" when
      all three are blank. */
  lemma ClipDocument(fetch: Result<Page, string>, clipped: Option<string>, today: Day)
    requires Clip(fetch, clipped, today).Ok?
    ensures fetch.Ok? && fetch.value.article.Some?
    ensures var page := fetch.value;
            var article := page.article.value;
            var author := FirstNonEmpty(AuthorLookups(page));
            var description := FirstNonEmpty(DescriptionLookups(page));
            && author.Ok? && description.Ok?
            && Clip(fetch, clipped, today).value.sanitizedTitle == Sanitize(article.title)
            && Clip(fetch, clipped, today).value.fileContent ==
                 Join(DocumentLines(ClipHeader(page, article, author.value, description.value, clipped, today))
                      + [LinkFix.FixMarkdownLinks(article.markdown)], "\n")
            && (author.value == "" <==> BlankUpTo(AuthorLookups(page), 3))
            && (author.value != "" ==> exists k: nat :: FoundAt(AuthorLookups(page), k, author.value))
            && (description.value == "" <==> BlankUpTo(DescriptionLookups(page), 3))
            && (description.value != "" ==>
                  exists k: nat :: FoundAt(DescriptionLookups(page), k, description.value))
  {
    var page := fetch.value;
    var article := page.article.value;
    var author := FirstNonEmpty(AuthorLookups(page));
    var description := FirstNonEmpty(DescriptionLookups(page));
    FirstNonEmptyBlank(AuthorLookups(page));
    FirstNonEmptyBlank(DescriptionLookups(page));
    if author.value != "" {
      FirstNonEmptyFound(AuthorLookups(page));
    }
    if description.value != "" {
      FirstNonEmptyFound(DescriptionLookups(page));
    }
    FileContentLines(ClipHeader(page, article, author.value, description.value, clipped, today),
                     LinkFix.FixMarkdownLinks(article.markdown));
  }

  /** The sixth of a clipped note's document lines is `clipped: ` and the date the stub gave, when it
      gave a non-empty one, and today's date otherwise. */
  lemma ClipClippedLine(fetch: Result<Page, string>, clipped: Option<string>, today: Day)
    requires Clip(fetch, clipped, today).Ok?
    ensures exists lines: seq<string> ::
              && |lines| >= 13 && lines[0] == "---"
              && lines[5] == "clipped: " + (if clipped.Some? && clipped.value != "" then clipped.value
                                            else ConvertDate(today))
              && Clip(fetch, clipped, today).value.fileContent == Join(lines, "\n")
  {
    var page := fetch.value;
    var article := page.article.value;
    var author := FirstNonEmpty(AuthorLookups(page));
    var description := FirstNonEmpty(DescriptionLookups(page));
    var h := ClipHeader(page, article, author.value, description.value, clipped, today);
    FileContentClippedLine(h, LinkFix.FixMarkdownLinks(article.markdown));
  }

  /** The `clipped` line of a note always holds a `DDDD-DD-DD` date when the stub's date
      comes from `extractDate` and today is a calendar day of a four-digit year. */
  lemma ClippedDateShape(stub: string, today: Day)
    requires 1000 <= today.year <= 9999 && today.month < 12 && 1 <= today.date <= 31
    ensures StubMetadata.IsDateShape(ClippedDate(StubMetadata.ExtractDate(stub), today))
  {
    if StubMetadata.ExtractDate(stub).Some? {
      StubMetadata.ExtractDateFirst(stub);
    } else {
      ConvertDateShape(today);
    }
  }
}
