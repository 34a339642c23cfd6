# Confluence storage analyzer: the reference-detection core

This project models in Dafny the kernel of the Confluence storage and
attachment analyzer, then proves properties of it. The kernel decides, space
by space, which attachment files are referenced and which can be deleted.
It has three parts:

- **The title-variant generator** (`normalize_title_variants`). It lists the
  strings under which an attachment title may appear in a page's
  storage-format markup: the title itself, HTML-escaped, HTML-unescaped,
  percent-encoded, with spaces as `+`, inside the four `ri:filename` wrappers,
  and the download-path literal.
- **The reference detector** (`is_attachment_linked_on_page_versions`). It
  looks for any variant, the percent-encoded title or the part after the last
  `/` of any version title in the owning page's markup. Each test is made
  verbatim and after lower-casing.
- **The per-space pass** (`analyze_space`). Every sighting of an attachment
  on a page is merged into one run-wide map keyed by attachment id. The first
  sighting fixes the owning page, the size and the owning-page verdict. A
  later sighting appends its page to `linked_pages` and its new versions to
  `versions`. The space's files are then selected by the owning page's URL,
  sorted by size (stable, largest first) and split off as unreferenced. An
  unreferenced file is not found on its own page and was seen on no page
  with another id. Finally the sizes and counts are summed.

Module layout, from the bottom up:

| file | module | content |
|---|---|---|
| `wrappers.dfy` | `Wrappers` | `Option` |
| `text.dfy` | `Text` | substring containment, ASCII lower-casing, `rsplit('/', 1)[-1]`, space to `+` |
| `html_escape.dfy` | `HtmlEscape` | `html.escape` and a decoder for the five references it writes |
| `percent_encoding.dfy` | `PercentEncoding` | `quote(s, safe='')` over UTF-8 and its percent decoder |
| `records.dfy` | `Records` | the version, page-reference and attachment records |
| `title_variants.dfy` | `TitleVariants` | the variant generator |
| `reference_detector.dfy` | `ReferenceDetector` | the detector as a specification predicate and as the source's loops |
| `aggregator.dfy` | `Aggregator` | the merge of one sighting, and the map as a class updated in place |
| `sequences.dfy` | `Sequences` | list comprehension with a condition (`Filter`) |
| `space_report.dfy` | `SpaceReport` | space selection, the stable sort, the unreferenced list, the totals |
| `analyzer.dfy` | `Analyzer` | `analyze_space` over given pages, and properties of whole runs |

Several parts of the real program are inputs to the model rather than parts
of it:

- **Remote lookups.** Each listed page comes with its attachment list. Each
  attachment comes with the outcome of its version lookup and of the page
  fetch made for its check. `None` stands for a failed lookup, as the source
  treats every transport error as "no data".
- **`html.unescape`.** It is the parameter `unescape: string -> string`, and
  lemmas that depend on its value say what they assume about it.
- **`BASE_URL`.** It is the constant `Records.BaseUrl`, with the
  placeholder value from the source.

Three behaviours of the code are easy to misread. The model follows the
code in each:

- **Owning page in `linked_pages`.** One might expect `linked_pages` never to
  hold the owning page, and a repeated sighting to change nothing. The code
  at line 238 instead appends the page on every repeated sighting, with no
  check. `Analyzer.RepeatedOnOwnPage` and
  `Analyzer.SightingOnSamePageKeepsVerdict` show that the owning page does
  enter `linked_pages`, and that the verdict is unaffected.
  `Aggregator.ExtendNewIdempotent` shows that repeating a sighting does leave
  the versions unchanged.
- **Empty markup.** One might expect empty markup never to match a
  non-empty title. Two tests have no emptiness guard. The lower-cased
  basename test at line 184 makes a title ending in `/` match every fetched
  markup, the empty one included
  (`ReferenceDetector.TrailingSlashAlwaysLinked`). The unescaped variant
  added at line 133 does the same for a title whose unescaped form is empty,
  as `html.unescape("&#1;")` is (`ReferenceDetector.EmptyUnescapeAlwaysLinked`).
  `ReferenceDetector.EmptyMarkupLinkedIff` proves that these two cases are
  the only ones in which empty markup links an attachment.
- **Space prefix.** The space test at line 246 is a plain prefix test with
  no separator after the key, so the files of space `ABC` are also files of
  space `AB` (`SpaceReport.PrefixKeyMatchesLongerKey`).

## Model

| member | source | states |
|---|---|---|
| Text.Occurs | confluence_storage_analyzer.py:169 | definition of Python's `in` on strings: the piece equals the slice of the string at some position |
| Text.Lower | confluence_storage_analyzer.py:160 | lower-casing keeps the length and maps every character through the ASCII lower-case table |
| Text.AfterLastSlash | confluence_storage_analyzer.py:181 | the result is a suffix of the title that holds no `/`, and when it is shorter than the title it is preceded by `/` |
| Text.SpacesToPlus | confluence_storage_analyzer.py:139 | same length; each space becomes `+` and every other character stays |
| HtmlEscape.EscapeChar | confluence_storage_analyzer.py:132 | a character is written as itself exactly when it is not one of `& < > " '` |
| HtmlEscape.Escape | confluence_storage_analyzer.py:132 | escaping never shortens a title |
| HtmlEscape.EscapeLeavesNoMarkup | confluence_storage_analyzer.py:132 | an escaped title contains no raw `<`, `>`, `"` or `'` |
| HtmlEscape.EscapeIdentity | confluence_storage_analyzer.py:132 | a title is its own escaped form if and only if it has none of the five special characters |
| HtmlEscape.EscapeRoundTrip | confluence_storage_analyzer.py:132 | decoding the five references recovers the title from its escaped form |
| HtmlEscape.EscapeInjective | confluence_storage_analyzer.py:132 | two titles with the same escaped form are equal |
| HtmlEscape.EscapeAmpersandExample | confluence_storage_analyzer.py:132 | `A&B.pdf` escapes to `A&amp;B.pdf` |
| PercentEncoding.Utf8Char | confluence_storage_analyzer.py:135 | a character encodes to 1 to 4 bytes; ASCII encodes to itself, anything else to bytes all at least 128 |
| PercentEncoding.Quote | confluence_storage_analyzer.py:135 | the quoted title holds only unreserved characters and `%`; `QuoteRoundTrip` fixes what it encodes |
| PercentEncoding.QuoteByte | confluence_storage_analyzer.py:135 | an unreserved byte is kept, any other byte becomes `%` and two hex digits |
| PercentEncoding.QuoteRoundTrip | confluence_storage_analyzer.py:135 | percent-decoding the quoted title gives back exactly its UTF-8 bytes |
| PercentEncoding.QuoteIdentity | confluence_storage_analyzer.py:135 | quoting never shortens a title, and leaves it unchanged if and only if every character is in `A-Za-z0-9-._~` |
| PercentEncoding.QuoteNonEmpty | confluence_storage_analyzer.py:175 | a non-empty title has a non-empty quoted form |
| PercentEncoding.QuoteAppend | confluence_storage_analyzer.py:135 | quoting distributes over concatenation |
| PercentEncoding.QuoteSpaceExample | confluence_storage_analyzer.py:175 | `my file.docx` is quoted as `my%20file.docx` |
| TitleVariants.Variants | confluence_storage_analyzer.py:118-147 | an absent title has no variants; a present one, even the empty one, has all ten forms and no more than ten |
| TitleVariants.WrapperHitHoldsTitle | confluence_storage_analyzer.py:141-144 | markup holding one of the four `ri:filename` wrappers also holds the raw or the escaped title |
| TitleVariants.VariantsNonEmpty | confluence_storage_analyzer.py:127-147 | for a non-empty title every variant except the unescaped one is non-empty |
| ReferenceDetector.TitleMatches | confluence_storage_analyzer.py:167-185 | definition of the tests made for one usable title: some variant verbatim or lower-cased, the quoted title in the markup or the lower-cased markup, the non-empty basename verbatim, the lower-cased basename with no guard |
| ReferenceDetector.Linked | confluence_storage_analyzer.py:155-186 | definition of the detector's answer: the markup was fetched and some version with a non-empty title matches it; `IsAttachmentLinkedOnPageVersions` is proved equal to it |
| ReferenceDetector.SearchVariants | confluence_storage_analyzer.py:168-172 | the loop over the variant set, in any order, answers true exactly when some variant occurs verbatim or lower-cased |
| ReferenceDetector.SearchTitle | confluence_storage_analyzer.py:167-185 | the tests for one title answer true exactly when the title matches by variant, by quoted form or by basename |
| ReferenceDetector.SearchVersion | confluence_storage_analyzer.py:163-185 | a version with an absent or empty title is skipped; otherwise it matches as its title does |
| ReferenceDetector.IsAttachmentLinkedOnPageVersions | confluence_storage_analyzer.py:149-186 | the detector answers true exactly when the markup was fetched and some usable version title matches it |
| ReferenceDetector.NotLinkedWithoutMarkupOrTitle | confluence_storage_analyzer.py:155-166 | a failed fetch, an empty version list, or versions without usable titles give false |
| ReferenceDetector.LinkedIfVariantOccurs | confluence_storage_analyzer.py:168-172 | any single variant of any usable title in the markup, verbatim or lower-cased, suffices |
| ReferenceDetector.LinkedIfTitleFormOccurs | confluence_storage_analyzer.py:169-177 | the raw, escaped or percent-encoded title in the markup suffices |
| ReferenceDetector.LinkedIfDownloadPathOccurs | confluence_storage_analyzer.py:146 | markup containing `/download/attachments/` links every attachment with a usable title |
| ReferenceDetector.LinkedIfBasenameOccurs | confluence_storage_analyzer.py:181-185 | the lower-cased basename in the lower-cased markup suffices |
| ReferenceDetector.TitleMatchesOnLowered | confluence_storage_analyzer.py:160-185 | a title matches the markup if and only if it matches on the lower-cased markup by the lower-cased tests |
| ReferenceDetector.LinkedIsCaseInsensitive | confluence_storage_analyzer.py:160-185 | markups that agree after lower-casing get the same answer |
| ReferenceDetector.LinkedMonotoneInMarkup | confluence_storage_analyzer.py:162-185 | markup that contains linking markup also links |
| ReferenceDetector.LinkedOverConcat | confluence_storage_analyzer.py:162-186 | the answer for two version lists together is the or of the answers for each |
| ReferenceDetector.NoTitleMatchOnEmpty | confluence_storage_analyzer.py:167-185 | empty markup matches no non-empty title whose basename and unescaped form are non-empty |
| ReferenceDetector.NotLinkedOnEmptyMarkup | confluence_storage_analyzer.py:155-186 | a sufficient condition: empty markup links no attachment whose usable titles have non-empty basenames and unescaped forms |
| ReferenceDetector.ShortMarkupNoTitleMatch | confluence_storage_analyzer.py:167-185 | markup shorter than a title without `/`, than its unescaped form and than the download path does not match it |
| ReferenceDetector.EmptyBasename | confluence_storage_analyzer.py:181 | the basename is empty if and only if the title is empty or ends in `/` |
| ReferenceDetector.TrailingSlashAlwaysLinked | confluence_storage_analyzer.py:184-185 | a usable title ending in `/` links on every fetched markup, the empty one included |
| ReferenceDetector.EmptyUnescapeAlwaysLinked | confluence_storage_analyzer.py:133 | a usable title whose unescaped form is empty links on every fetched markup, the empty one included |
| ReferenceDetector.EmptyMarkupLinkedIff | confluence_storage_analyzer.py:155-186 | empty markup links an attachment if and only if one of its usable titles has an empty basename or an empty unescaped form |
| ReferenceDetector.EscapedTitleExample | confluence_storage_analyzer.py:169 | `A&B.pdf` is found in markup that holds `A&amp;B.pdf` |
| ReferenceDetector.QuotedTitleExample | confluence_storage_analyzer.py:174-177 | `my file.docx` is found in markup that links `my%20file.docx` |
| Aggregator.ExtendNew | confluence_storage_analyzer.py:241 | the list never shrinks and grows by at most one entry per given version; the lemmas below fix its contents and order |
| Aggregator.ExtendNewKeepsPrefix | confluence_storage_analyzer.py:241 | the stored versions stay as they were, at the front |
| Aggregator.ExtendNewContents | confluence_storage_analyzer.py:241 | afterwards the versions are exactly the old ones and the sighting's ones |
| Aggregator.ExtendNewAppendsFresh | confluence_storage_analyzer.py:241 | no appended version was already present before it |
| Aggregator.ExtendNewWithPresent | confluence_storage_analyzer.py:241 | versions that are all present already change nothing |
| Aggregator.ExtendNewIdempotent | confluence_storage_analyzer.py:241 | merging the same versions twice is merging them once |
| Aggregator.Merge | confluence_storage_analyzer.py:234-243 | definition of one sighting's merge: a new id is inserted and appended to the order; a known id gains the page in `linked_pages` and the new versions; its properties are the three lemmas below |
| Aggregator.MergeWellFormed | confluence_storage_analyzer.py:234-243 | the map stays keyed by id with every id listed once in insertion order; it gains the sighting's id and no other record changes |
| Aggregator.MergeFirstSighting | confluence_storage_analyzer.py:234-235 | a new id is stored as sighted and appended to the dictionary order |
| Aggregator.MergeRepeatedSighting | confluence_storage_analyzer.py:236-243 | a known id keeps name, size, URLs, owning page and verdict, gains exactly the sighting's page in `linked_pages`, keeps its old versions at the front, holds every version of the sighting, and appends none that was already there |
| Aggregator.AttachmentIndex.constructor | confluence_storage_analyzer.py:484 | the run starts with an empty map |
| Aggregator.AttachmentIndex.RecordSighting | confluence_storage_analyzer.py:234-243 | the in-place update, including the version loop, leaves the map as the merge describes and keeps it well formed |
| Sequences.Filter | confluence_storage_analyzer.py:254 | the result is a sub-list of the input; it holds only elements satisfying the condition, and each element satisfying it as often as the input does |
| SpaceReport.Values | confluence_storage_analyzer.py:246 | the stored records in dictionary insertion order |
| SpaceReport.InSpace | confluence_storage_analyzer.py:246 | definition of the space test: the owning page URL starts with `BASE_URL + /spaces/ + key` |
| SpaceReport.SpaceFiles | confluence_storage_analyzer.py:246 | definition of the unsorted selection as the filter of the stored records by `InSpace`; `SpaceFilesAreTheSpacesRecords` states what it holds |
| SpaceReport.SpaceFilesAreTheSpacesRecords | confluence_storage_analyzer.py:246 | the space's files are exactly the stored records whose owning page URL starts with the space prefix, in insertion order, each id once |
| SpaceReport.PrefixKeyMatchesLongerKey | confluence_storage_analyzer.py:246 | a file of space `key + more` is also a file of space `key` |
| SpaceReport.PrefixKeyExample | confluence_storage_analyzer.py:246 | a page under `/spaces/ABC/` counts for both `ABC` and `AB` |
| SpaceReport.SortBySize | confluence_storage_analyzer.py:248 | the sorted list is ordered by non-increasing size, is a permutation of the input, and keeps the files of each size in their input order |
| SpaceReport.SortKeepsTotal | confluence_storage_analyzer.py:271 | sorting does not change the total size |
| SpaceReport.SumSizes | confluence_storage_analyzer.py:271 | definition of the sum of sizes; `SortKeepsTotal` shows it does not depend on the order |
| SpaceReport.LinkedElsewhere | confluence_storage_analyzer.py:254 | definition of the pages in `linked_pages` whose id differs from the owning page's id, by `Filter` |
| SpaceReport.Unreferenced | confluence_storage_analyzer.py:255-256 | definition of the test for an unreferenced file: not linked on its own page and nothing linked elsewhere; `UnreferencedMeans` restates it over `linked_pages` |
| SpaceReport.UnreferencedMeans | confluence_storage_analyzer.py:250-257 | a file is unreferenced if and only if its own page did not link it and every entry of `linked_pages` has the owning page's id |
| SpaceReport.CollectUnreferenced | confluence_storage_analyzer.py:250-257 | the loop collects exactly the unreferenced files, in sorted order |
| SpaceReport.BuildReport | confluence_storage_analyzer.py:245-275 | the file list is the sorted space selection; the unreferenced list is its unreferenced files; key, name, total size and counts are those of the selection |
| Analyzer.ResolveVersions | confluence_storage_analyzer.py:213-216 | the version list is never empty: the looked-up list, or the attachment itself when the lookup gave nothing |
| Analyzer.Sighting | confluence_storage_analyzer.py:221-232 | definition of the `att_info` record built for one attachment of one page; `CheckAttachment` is proved to build it |
| Analyzer.CheckAttachment | confluence_storage_analyzer.py:205-232 | the record built for one sighting, with the detector's verdict on its versions |
| Analyzer.AfterAttachments | confluence_storage_analyzer.py:204-243 | definition of the map after merging one page's sightings in list order; `AfterAttachmentsStep` states what it keeps |
| Analyzer.AfterPages | confluence_storage_analyzer.py:198-243 | definition of the map after all pages of a space in order; `AfterPagesStep` states what it keeps |
| Analyzer.AnalyzePage | confluence_storage_analyzer.py:198-243 | the map after one page is the map with that page's sightings merged in list order |
| Analyzer.AnalyzeSpace | confluence_storage_analyzer.py:189-276 | the map after the space is the fold of all its sightings; the reports and summary are those of that map |
| Analyzer.MergeStep | confluence_storage_analyzer.py:234-243 | a sighting keeps the map well formed, adds exactly its id, keeps every stored record's first-sighting fields and list fronts, and keeps versions non-empty |
| Analyzer.AfterAttachmentsStep | confluence_storage_analyzer.py:204-243 | the same for all attachments of a page |
| Analyzer.AfterPagesStep | confluence_storage_analyzer.py:198-243 | a whole space run ends with exactly the old ids plus every listed attachment id; first-sighting fields are never overwritten and no record loses its versions |
| Analyzer.KeepsReference | confluence_storage_analyzer.py:234-257 | a referenced record stays referenced under later sightings |
| Analyzer.RunNeverUnreferences | confluence_storage_analyzer.py:234-257 | no later space turns a referenced attachment into an unreferenced one |
| Analyzer.SightingOnOtherPageReferences | confluence_storage_analyzer.py:236-255 | a sighting on a page with another id makes the attachment referenced, whatever its own page said |
| Analyzer.SightingOnSamePageKeepsVerdict | confluence_storage_analyzer.py:238-255 | a sighting on the owning page's id is appended to `linked_pages` but leaves the verdict unchanged |
| Analyzer.ReportedRecord | confluence_storage_analyzer.py:246-257 | a stored record of the space is in the sorted list, and in the unreferenced list exactly when unreferenced |
| Analyzer.SightingInSpace | confluence_storage_analyzer.py:246 | a page under `/spaces/<key>` makes its attachments files of that space |
| Analyzer.OnePageOneAttachment | confluence_storage_analyzer.py:234-235 | a space with one page and one new attachment stores exactly that sighting |
| Analyzer.TitleInMarkupIsReferenced | confluence_storage_analyzer.py:198-257 | a file whose title is in its page markup is referenced, in the file list and not in the unreferenced list |
| Analyzer.ShortMarkupFileIsUnreferenced | confluence_storage_analyzer.py:198-257 | a file whose page markup is too short for any form of its title is in both the file list and the unreferenced list |
| Analyzer.SharedAttachmentIsReferenced | confluence_storage_analyzer.py:234-255 | an id on pages A then B is owned by A, has exactly B as other page, and is referenced |
| Analyzer.RepeatedOnOwnPage | confluence_storage_analyzer.py:234-255 | an id listed twice on one page has that page once in `linked_pages`, and is unreferenced exactly when its own page did not link it |

## Left out

- HTTP access, authentication and pagination (`api_get`, `safe_api_get`, `get_spaces`, `get_all_pages`, `get_attachments_from_page`, lines 28-89): their results are inputs, and a failed call is `None`.
- Version lookup (`get_attachment_versions`, lines 91-116): its outcome is an input of each attachment. Which endpoint answered is not modelled.
- Report writing (`write_csv_html`, `generate_root_html`, lines 279-480), output folders and the `html`/`html_unref` paths in the result (lines 194-195, 259-266, 273-274): file output. The summary keeps the other fields.
- `main`, console output and the timestamped output root (lines 21-25, 483-498): process set-up and I/O.
- `html.unescape`: its entity table is not modelled; it is the `unescape` parameter.
- Lower-casing covers ASCII letters only. Python's `str.lower` also maps non-ASCII letters.
- `quote` works on Dafny characters, which are Unicode scalar values. The encoding failure that the `try` at lines 134-137 and 174-179 guards against cannot arise, so that path is not modelled.
- The `try`/`except` at lines 240-243 guards an `extend` that cannot fail on the modelled records.
- Page fetch: the source fetches the owning page again for every attachment. The model takes one fetch outcome per attachment, so fetches that differ between attachments are covered, but not the number of requests.
- Version records: only id, title and version number are kept. Two versions that agree on these three fields but differ in others are one version for the comparison at line 241 in the model, and two in the source.
- The in-place sort at line 248 is modelled as a stable insertion sort on values. The result is the same, since a stable sort's output is unique, but the update in place is not modelled.
- A missing `fileSize` (line 207) or a missing `webui` or `download` link (lines 201, 208) is read as 0 or the empty string before the model sees it.
