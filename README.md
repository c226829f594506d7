# ObsidianClippingsUpdate, modelled in Dafny

ObsidianClippingsUpdate turns stub notes into clipped articles for an Obsidian vault.
`index.js` reads every stub note at the top of the `Ressources` folder and looks in it for
a source URL and a clipped date. Then it does one of three things:

- a stub without a URL is moved to `Ressources/ToProcessManually`;
- otherwise the page is fetched and turned into Markdown with a YAML front matter. The
  stub is moved to `Ressources/Processed` and the note is written under the same file
  name to `Ressources/Result`;
- a stub whose clipping fails stays where it is, and `error.log` gets a line.

`fixMarkdown.js` goes over every Markdown file under `Ressources`. It rewrites image links
that the HTML-to-Markdown step broke across lines into the compact `[![](t)](d)` form. It
writes a file back only when that changed it.

The model has these modules:

| module | file | what it models |
|---|---|---|
| `Wrappers` | wrappers.dfy | `Option` and `Result` |
| `Text` | text.dfy | JavaScript's `\s` and `.`, `trim`, `split`/`join` on one character, `Number.toString` |
| `LabelScan` | label_scan.dfy | the search both stub patterns make: a label from a list, any letter case, then a lazy gap, then a target; the leftmost match wins |
| `StubMetadata` | stub_metadata.dfy | `extractURL` with its `utm_` stripping, and `extractDate` |
| `LinkFix` | linkfix.dfy | `fixMarkdownLinks`, which is the same in both scripts. It is a scanner for the pattern plus an automaton for the same pattern, used in the idempotence proof |
| `Frontmatter` | frontmatter.dfy | `sanitizeYAMLstring`, `getMetaContent` and its `\|\|` fallbacks, the author brackets, the tag lines, `convertDate`, `fileContent` |
| `Pull` | pull.dfy | `pullMarkDown` after the fetch: what it returns, or the error it throws |
| `Clipper` | clipper.dfy | the `processFiles` loop of index.js over a folder held in a class |
| `BatchFix` | batchfix.dfy | the `processFiles` loop of fixMarkdown.js over a file tree held in a class |

The pure parts are functions. The three imperative parts are methods with loops:

- the tag list built with `push`;
- the routing loop, on a class whose fields are the folders and the log;
- the fix-and-write-back loop, on a class whose fields are the files and the paths written.

Each method is proved equal to a function. The lemmas state the properties about those
functions.

Some behaviour of the code that a reader might not expect, and that the model keeps:

- Stripping `?utm_source=x` from `…/a?utm_source=x&page=2` gives `…/a&page=2`. The `&`
  is not turned into `?` (index.js:200). `StubMetadata.StripUtmLeadingParam` states this.
- The author is written as `"[[name]]"`, with the quotes (index.js:143).
- The heading line is `# <title>"`, with a stray closing quote (index.js:176-178).
- The Result file is named after the stub file (index.js:55). The sanitized title that
  `pullMarkDown` returns is not used for the name.

Only the stubs at the top level of `Ressources` are routed (index.js:21). The batch fixer
goes through every sub-folder (fixMarkdown.js:8).

## Model

| member | source | states |
|---|---|---|
| Text.Trim | index.js:105 | `String.prototype.trim`; its contract is carried by `Text.TrimSpec` |
| Text.Split | index.js:103 | `split` on one character: at least one piece, and no piece holds the separator; `Text.JoinSplit` gives the round trip |
| Text.Join | index.js:111 | `join` with a separator; `Text.JoinSplit` and `Text.SplitJoin` relate it to `Text.Split` |
| Text.NatToString | index.js:220-222 | `toString` of a non-negative number: at least one character, all digits, and no leading zero unless it is `0` itself; `Text.NatToStringValue` gives the value it reads back as |
| Text.TrimSpec | index.js:105 | `trim` leaves a slice of the input with only white space before and after it, and the result neither starts nor ends with white space |
| Text.JoinSplit | index.js:103 | joining the pieces of `split(sep)` with `sep` gives the string back, so no character of the keywords content is lost or moved |
| Text.SplitJoin | index.js:152-179 | splitting lines joined with a newline gives those lines back when none holds a newline; the last part splits on its own |
| Text.NatToStringValue | index.js:220-222 | the decimal notation `toString` gives reads back as the number |
| Text.NatToStringLength | index.js:223-230 | numbers below 10 have one digit, 10 to 99 two, and 1000 to 9999 four |
| LabelScan.LazyNone | index.js:194 | the lazy gap finds no target exactly when no position reachable over gap characters holds one |
| LabelScan.LazySome | index.js:194 | the lazy gap stops at the nearest target reachable over gap characters |
| LabelScan.TryLabelsNone | index.js:194 | at one position the label alternatives fail exactly when no label there can be completed |
| LabelScan.TryLabelsSome | index.js:194 | at one position the first completable label, in the order the pattern lists them, wins, with its nearest target |
| LabelScan.FindFromNone | index.js:196 | `match` finds nothing exactly when no label at or after the start can be completed |
| LabelScan.FindFromSome | index.js:196 | what `match` finds is the target of the leftmost completable label, the first such label there, and the nearest target |
| StubMetadata.UrlAt | index.js:194 | a URL the pattern captures starts with `http://` or `https://` in any case, stands at the given position, and runs until white space, `)` or the end; there is no capture only when neither scheme, in any case, stands there followed by a URL character |
| StubMetadata.UrlAtChars | index.js:194 | a captured URL holds neither white space nor `)` |
| StubMetadata.ExtractURL | index.js:191-204 | `extractURL`; its contract is carried by `StubMetadata.ExtractURLNoneIff`, `StubMetadata.ExtractURLFirst` and `StubMetadata.ExtractURLShape` |
| StubMetadata.StripUtm | index.js:200 | the global `utm_` replace: it never lengthens the URL; `StubMetadata.StripUtmAtSegment` and the other `StripUtm` lemmas state what it deletes and keeps |
| StubMetadata.ExtractURLNoneIff | index.js:191-204 | `extractURL` gives null exactly when no `URL`/`source`/`src` label, in any case and possibly inside a word, is followed on its line by `http(s)://` and one URL character |
| StubMetadata.ExtractURLFirst | index.js:194-200 | a URL found is the first URL after the leftmost completable label, with its `utm_` segments stripped |
| StubMetadata.ExtractURLShape | index.js:194-200 | a URL found starts with `http://` or `https://` (so it is never falsy), is at least 7 characters long and holds no white space and no `)` |
| StubMetadata.StripUtmKeepsScheme | index.js:200 | stripping never touches the scheme |
| StubMetadata.StripUtmChars | index.js:200 | stripping only deletes: every character of the result is in the URL |
| StubMetadata.StripUtmPlainPrefix | index.js:200 | text without `?` or `&` is copied through unchanged |
| StubMetadata.StripUtmCopiesUntilSegment | index.js:200 | everything before the first `utm_` segment is copied unchanged |
| StubMetadata.StripUtmUntouched | index.js:200 | a URL without `utm_` segments is returned as it is |
| StubMetadata.StripUtmAtSegment | index.js:200 | at the first segment, the segment with its `?` or `&` is deleted up to the next `?`, `&` or the end, and the stripping resumes there |
| StubMetadata.StripUtmDropsFront | index.js:200 | a `?utm_` segment at the front is dropped up to the following separator |
| StubMetadata.StripUtmLeadingParam | index.js:200 | `base?utm_v&rest` becomes `base&rest`: the `&` after a stripped leading parameter stays `&` |
| StubMetadata.DateAt | index.js:209 | a date is captured exactly when `[[`, a `DDDD-DD-DD` date and `]]` follow one another from the given position; the capture is that date |
| StubMetadata.ExtractDate | index.js:206-212 | `extractDate`; its contract is carried by `StubMetadata.ExtractDateNoneIff` and `StubMetadata.ExtractDateFirst` |
| StubMetadata.ExtractDateNoneIff | index.js:206-212 | `extractDate` gives null exactly when no label is followed on its line by a bracketed date of the right shape |
| StubMetadata.ExtractDateFirst | index.js:208-211 | a date found is a 10-character `DDDD-DD-DD` string, the first bracketed date after the leftmost completable label |
| StubMetadata.ExtractDateExample | index.js:208-211 | `clipped:: [[2023-05-01]]` yields `2023-05-01` |
| LinkFix.MatchLink | fixMarkdown.js:27 | an occurrence found at the front of a text fits inside it |
| LinkFix.MatchLinkPrefix | fixMarkdown.js:27 | an occurrence found is exactly a prefix of the text: `[`, white space, `![](t)`, white space, `](d)` |
| LinkFix.MatchLinkWellFormed | fixMarkdown.js:27 | the pieces of an occurrence found are white space and non-empty runs without `)` |
| LinkFix.MatchLinkText | fixMarkdown.js:27 | conversely, any such text at the front of a string is found, with exactly those pieces |
| LinkFix.MatchLinkAccepts | fixMarkdown.js:27 | the scanner finds an occurrence at the front exactly when the automaton for the pattern accepts a prefix |
| LinkFix.FixMarkdownLinks | fixMarkdown.js:26-29 | the fixed text is never longer than the original |
| LinkFix.FixBrokenLink | fixMarkdown.js:26-29 | a broken image link `[ ws ![](t) ws ](d)` becomes `[![](t)](d)` |
| LinkFix.FixNoMatch | fixMarkdown.js:27-28 | a text in which the pattern occurs nowhere is returned unchanged |
| LinkFix.FixCopies | fixMarkdown.js:27-28 | the text before the first occurrence is copied character for character |
| LinkFix.FixFirst | fixMarkdown.js:27-28 | the leftmost occurrence is replaced by its compact form and the scan resumes right after its last `)`, so occurrences never overlap |
| LinkFix.FixReplacesAt | fixMarkdown.js:27-28 | at an occurrence, the replace emits the compact form and continues after the occurrence |
| LinkFix.CanonicalIsLinkText | fixMarkdown.js:28 | the replacement is itself an occurrence with empty white space and the same groups |
| LinkFix.FixCompact | fixMarkdown.js:27-28 | a compact link is kept as it is |
| LinkFix.AcceptsFix | fixMarkdown.js:27-28 | the fixed text holds no occurrence that was not already completed in the original |
| LinkFix.FixIdempotent | index.js:214-217 | fixing the links of a fixed text changes nothing |
| Frontmatter.Sanitize | index.js:113-115 | the result holds none of the six quote characters and is no longer than the input |
| Frontmatter.SanitizeAppend | index.js:114 | the replace works character by character, so it distributes over concatenation |
| Frontmatter.SanitizeAt | index.js:114 | a quote is deleted where it stands; any other character is kept, in place between what comes before and after it |
| Frontmatter.SanitizeCounts | index.js:114 | every character other than a quote occurs as often in the result as in the input |
| Frontmatter.SanitizeQuoteFree | index.js:114 | a string without quotes is left as it is |
| Frontmatter.SanitizeIdempotent | index.js:113-115 | sanitizing twice is sanitizing once |
| Frontmatter.GetMetaContent | index.js:131-134 | no element gives "", an element without `content` throws, and an element with content gives that content trimmed (`Text.TrimSpec` says what trimming keeps); the result is "" exactly for a blank lookup and otherwise neither starts nor ends with white space |
| Frontmatter.FirstNonEmpty | index.js:137-140 | the only error the fallback chain throws is the missing `content` attribute |
| Frontmatter.FirstNonEmptyThrows | index.js:137-140 | the chain throws exactly when an element without content is reached before any non-blank lookup |
| Frontmatter.FirstNonEmptyBlank | index.js:146-149 | the chain gives "" exactly when every lookup is blank |
| Frontmatter.FirstNonEmptyFound | index.js:146-149 | a non-empty result is the trimmed content of the first non-blank lookup |
| Frontmatter.AuthorBrackets | index.js:143 | empty exactly for an empty author; otherwise the author wrapped in `"[[` and `]]"` |
| Frontmatter.TagLines | index.js:96-111 | the tag lines start with `tags:` and `  - AI` |
| Frontmatter.BuildTagLines | index.js:96-109 | the `push` loop builds exactly the tag lines |
| Frontmatter.TagsOfAt | index.js:104-107 | line k of the keyword tags is `  - ` and piece k, trimmed |
| Frontmatter.TagLinesOnlyAI | index.js:99-109 | only the AI tag exactly when the keywords element is absent, lacks `content`, or has empty content |
| Frontmatter.TagLinesKeywords | index.js:101-107 | with keywords, one line per comma-separated piece, trimmed, in order, duplicates and empty pieces kept; the pieces rejoined with commas are the whole content |
| Frontmatter.Pad2 | index.js:223-230 | a padded field is all digits, at least two of them (exactly two below 100), and reads back as the number |
| Frontmatter.ConvertDate | index.js:219-232 | `convertDate`; its contract is carried by `Frontmatter.ConvertDateFields` and `Frontmatter.ConvertDateShape` |
| Frontmatter.ConvertDateFields | index.js:219-232 | for a calendar month and day the result is the year's notation, a dash, two digits reading back as month + 1, a dash, and two digits reading back as the day |
| Frontmatter.ConvertDateShape | index.js:219-232 | for a four-digit year the result has the `DDDD-DD-DD` shape and the year reads back |
| Frontmatter.FileContent | index.js:152-179 | the `fileContent` concatenation; its contract is carried by `Frontmatter.FileContentLines` and `Frontmatter.FileContentSplit` |
| Frontmatter.DocumentLines | index.js:152-179 | the document has 12 lines plus one per tag line before the body |
| Frontmatter.FileContentLines | index.js:152-179 | `fileContent` is the document lines (`---`, category, author, title, source, clipped, description, summary, tags, `publish: false`, `---`, blank, heading) and the body, joined with newlines |
| Frontmatter.FileContentClippedLine | index.js:152-166 | the note is the document's lines joined with newlines; the first of them is `---` and the sixth is `clipped: ` and the date (a value holding a newline adds lines of its own when the note is read back; `Frontmatter.FileContentSplit` covers newline-free values) |
| Frontmatter.DocumentLinesFree | index.js:152-179 | no line of the header holds a newline when none of the values does |
| Frontmatter.FileContentSplit | index.js:152-179 | when no value holds a newline, reading the note back line by line gives the header lines in the fixed order, then the lines of the body |
| Pull.ClipClippedLine | index.js:122-128 | the sixth of the document's lines of a clipped note is `clipped: ` and the stub's date when it gave a non-empty one, otherwise today's date |
| Pull.ClippedDateShape | index.js:122-128 | the `clipped` value is always a `DDDD-DD-DD` date when today is a calendar day of a four-digit year |
| Pull.Clip | index.js:70-181 | what `pullMarkDown` resolves to or throws; its contract is carried by `Pull.ClipErrors`, `Pull.ClipDocument` and `Pull.ClipClippedLine` |
| Pull.PullMarkDown | index.js:70-181 | the step-by-step `pullMarkDown` returns exactly `Clip` |
| Pull.ClipErrors | index.js:70-149 | `pullMarkDown` throws exactly when the fetch fails, there is no article, or a lookup chain reaches an element without content; there is no other error |
| Pull.ClipDocument | index.js:137-181 | a clipping is the document lines of its header and the fixed body; the title is the sanitized article title; author and description are the first non-blank lookups, or "" when all are blank |
| Clipper.FateOf | index.js:32-63 | the branch taken for one stub; its contract is carried by `Clipper.ClippedLineOfStub`, and through `Clip` by the `Pull` lemmas |
| Clipper.ClippedLineOfStub | index.js:43-56 | the note a stub is clipped into has `clipped: ` and the date `extractDate` found in the stub as the sixth of its document's lines, or today's date when it found none |
| Clipper.Route | index.js:35-63 | one turn of the loop; its contract is carried by `Clipper.ProcessAllRoutes` and `Clipper.ProcessAllLog` |
| Clipper.ProcessAll | index.js:26-67 | the loop over the file list; its contract is carried by `Clipper.ProcessAllFrame`, `Clipper.ProcessAllRoutes`, `Clipper.ProcessAllLog` and `Clipper.ProcessAllAborts` |
| Clipper.ProcessAllFrame | index.js:26-64 | a file the run does not list is unchanged in every folder |
| Clipper.ProcessAllRoutes | index.js:32-63 | each listed stub ends in ToProcessManually (no URL), in Processed with its note in Result under the same name (clipped), or stays (failed); the other folders keep what they had under its name |
| Clipper.ProcessAllLog | index.js:61-63 | a run over readable stubs appends exactly one failure entry per failed stub, in file order |
| Clipper.FailuresSame | index.js:61-63 | for a fixed network and day, the failure list depends only on the listed stubs' texts |
| Clipper.ProcessAllAborts | index.js:23-67 | a stub that cannot be read ends the run there: earlier stubs are processed, the outer handler logs once, and later stubs are not touched |
| Clipper.Ressources.ProcessStub | index.js:29-63 | one turn: whether the stub could be read; if so the folder is routed by the stub's fate; if not nothing changed |
| Clipper.Ressources.ProcessFiles | index.js:23-67 | the loop leaves the folder as `ProcessAll` of the file list |
| BatchFix.Step | fixMarkdown.js:13-19 | one turn replaces the file by its fixed text, changes no other file, and records a write exactly when the text changed |
| BatchFix.FixAll | fixMarkdown.js:11-20 | the loop over the path list; its contract is carried by `BatchFix.FixAllFrame`, `BatchFix.FixAllFixes`, `BatchFix.FixAllWrites` and `BatchFix.FixAllStops` |
| BatchFix.Changed | fixMarkdown.js:16-19 | the files written are among the listed ones |
| BatchFix.FixAllFrame | fixMarkdown.js:11-20 | no file is created or removed, and unlisted files are untouched |
| BatchFix.FixAllFixes | fixMarkdown.js:11-20 | every listed file ends up as its fixed text, even when listed twice |
| BatchFix.FixAllWrites | fixMarkdown.js:16-19 | a file is written exactly when fixing changed it, in list order |
| BatchFix.FixAllFixedPoint | fixMarkdown.js:16-19 | files already in fixed form are neither changed nor written |
| BatchFix.SecondRunWritesNothing | fixMarkdown.js:11-20 | running the fixer a second time changes and writes nothing |
| BatchFix.NoLinksNoWrites | fixMarkdown.js:14-19 | files without a broken link are neither changed nor written |
| BatchFix.FixAllStops | fixMarkdown.js:10-23 | a file that cannot be read ends the run; the files after it are not touched |
| BatchFix.MarkdownTree.FixFiles | fixMarkdown.js:6-24 | the loop leaves the tree as `FixAll` of the path list |

## Left out

- The network fetch (`axios.get`, index.js:71) is a parameter. It is a function from URL to page or failure reason, or a fetch result passed to `Clip`.
- JSDOM, Readability and Turndown (index.js:72-91) are foreign libraries. Their outputs are inputs to the model:
  - the article title and Markdown body, or no article;
  - the document URL;
  - each meta tag as absent, present without `content`, or its content.
- The DOM selectors themselves are not modelled, including the case-insensitive `keywords` name match.
- `glob`, `fs` and `path` are abstract folder state: maps from file name (or path) to text.
  - Directory creation (index.js:16-18) is not modelled.
  - File order is whatever the list says.
  - Lemmas that need it assume the list has no repeats, as a glob gives.
- A rename or write that throws inside the inner `try` (index.js:52, 56) is not modelled. Such a throw would be logged like a failed fetch after a partial move. The model lets renames and writes succeed, and a rename replaces a file of the same name.
- A write that throws in the batch fixer (fixMarkdown.js:17) is not modelled. Such a throw would end the batch run through the handler at fixMarkdown.js:21-23, like a failed read. The model lets every write succeed.
- A rename that throws at index.js:38 is not modelled either. A read that throws (index.js:29) is modelled as a missing file and ends the run.
- The clock (`new Date()`, index.js:126) is a `Day` parameter, one for the whole run.
- The log timestamp and the message text (index.js:187, 62, 66) are abstract:
  - a failure is logged as the URL, the file and the error kind;
  - the outer handler's line is `Aborted`, because `logErrorToFile` ignores its second argument.
- `console.log` output is not modelled.
- `async`/`await` is not modelled. The code awaits each step before the next, so the model is sequential.
- `convertDate` on a year outside 1000-9999 and a month or day outside the calendar is only covered by `Frontmatter.Pad2`. The shape lemmas need the calendar ranges a `Date` gives.
- Case-insensitive label matching compares ASCII letters only. The labels are ASCII, and a non-Unicode JavaScript pattern folds only ASCII letters against them.
- Clipper.ProcessAllRoutes, Clipper.ProcessAllLog, Clipper.ProcessAllAborts, Clipper.ProcessAllFrame: stated for any decision function from stub text to fate, of which `Decide` (extractURL, extractDate, then `Clip`) is one. They say nothing about clipping itself; the `Pull` lemmas do.
