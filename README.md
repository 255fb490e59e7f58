# bs4_parser_pep, modelled in Dafny

The scraper has four modes.

- `whats-new` collects the release-notes articles of the Python documentation.
- `latest-versions` collects the documentation versions and their statuses from the sidebar.
- `download` stores the PDF (A4) documentation archive.
- `pep` reconciles the status letter in the PEP index against the status on each PEP's own page. It then counts PEPs per status.

This project models the data logic behind those modes, not the fetching and parsing. Every page
arrives as already-parsed values:

- a `WhatsNew.Section` holds a link and the fetched release page, if any;
- a `LatestVersions.VersionList` holds a sidebar list's text and its links;
- a `Pep.PepRow` holds the first cell of an index row and the `Status` field of its page, if any.

Module by module:

- `Common`: the shared result types. A table is a sequence of rows of `Cell`s. A failure is a `ScrapeError`.
- `Constants`: the two site roots and the `EXPECTED_STATUS` table.
- `VersionPattern`: `VERSION_STATUS_PATTERN`, which is `Python (\d\.\d+) \((.*)\)`. Python's `search` with it is written out by hand: leftmost position, greedy `\d+`, and greedy `.*` that stops at a line feed and backtracks to the last `)`.
- `Text`: three string helpers.
  - substring containment, which is Python's `in` on strings;
  - replacing `\n` with a space;
  - `split('/')[-1]`.
- `WhatsNew`: `whats_new`. It is a method with a loop, proved equal to the table function `WhatsNewTable`.
- `LatestVersions`: `latest_versions`. It is a method with a search loop and a row loop, proved equal to `LatestVersionsTable`.
- `Download`: the archive's file name in `download`.
- `Pep`: `pep`.
  - The method `Pep` is the source's loop.
  - `Reconcile` is the same fold's counting, written as a function, and `Log` is what it logs.
  - `PepTable` is the table that comes out.
  - The lemmas relate the fold to independent definitions: occurrence counts, first declarations and per-row log events.

The log lines `pep` writes are modelled as a sequence of `Pep.Event` values, in the order they are written:

- `UnknownCode`: the code is not in the table;
- `Mismatch`: the page's status is not among the expected ones;
- `MissingStatus`: the page has no `Status` field.

Behaviour of the code that the model keeps as written:

- **A row with an unknown code logs two events.** The expected set of an unknown code is empty (`src/main.py:117`). So when the row's page shows a status, the row logs `UnknownCode` and also `Mismatch(…, [])` (`src/main.py:131`). `Pep.UnknownCodeAlwaysMismatches` and `Pep.ThreeRowLog` state this.
- **Every PEP page counts as fetched.** `pep` has no `None` check after fetching a PEP page (`src/main.py:124-125`), so the model treats every page as fetched.
- **The counts come out in first-seen order.** That order is the dictionary's insertion order (`src/main.py:137-147`). `Pep.OrderIsFirstDeclaration` states it.
- **The `whats_new` header and rows disagree.** The header names (link, title, author), but each row holds (page `h1`, link, `dl` text) (`src/main.py:27` and `src/main.py:38-40`).

## Model

| member | source | states |
|---|---|---|
| Constants.BaseUrlsEndWithSlash | src/constants.py:5-6 | Both site roots end with `/`. |
| Constants.ExpectedStatusCodes | src/constants.py:21-30 | The status table has exactly the codes A, D, F, P, R, S, W and the empty code, each at most one character. |
| Constants.ExpectedStatusNonEmpty | src/constants.py:21-30 | Every code admits at least one status name. |
| Constants.ActiveIsTheOnlySharedName | src/constants.py:22-29 | `A` admits Active and Accepted and the empty code admits Draft and Active. Active is the only name admitted under two codes. |
| Constants.SingleNameCodesAreInitials | src/constants.py:23-28 | A code admitting one name is that name's first letter. |
| Text.Contains | src/main.py:54 | Defined as a match of the text at the start or a containment in the rest; characterised by `ContainsIff`. |
| Text.ContainsIff | src/main.py:54 | Substring containment holds exactly when the text occurs at some position. |
| Text.CollapseNewlines | src/main.py:37 | The result has the input's length, and each character is the input's, with every line feed replaced by a space. |
| Text.CollapseNewlinesHasNoNewline | src/main.py:37 | The collapsed text contains no line feed. |
| Text.LastSegment | src/main.py:89 | The result is a suffix of the input with no `/`, preceded by `/` unless it is the whole input. |
| VersionPattern.DigitRun | src/constants.py:18-19 | Greedy `\d+` takes a run of digits that ends at the text's end or at a non-digit. |
| VersionPattern.LineEnd | src/constants.py:18-19 | `.*` can reach up to the first line feed and no further. |
| VersionPattern.LastClose | src/constants.py:18-19 | Backtracking `.*` settles on the last `)` before the line end, or fails when there is none. |
| VersionPattern.MatchEnds | src/constants.py:18-19 | When the pattern matches at a position, it gives where the version group ends and where the closing `)` is. That `)` is the last one before the line end. |
| VersionPattern.MatchAt | src/constants.py:18-19 | Defined as the two groups cut at the positions `MatchEnds` gives; characterised by `MatchAtShape` and `MatchAtComplete`. |
| VersionPattern.MatchAtShape | src/constants.py:18-19 | A match at `i` spells `Python <version> (<status>)` there, with a digit-dot-digits version and a one-line status. The status's `)` is the last `)` on its line. |
| VersionPattern.MatchAtComplete | src/constants.py:18-19 | Wherever the text spells `Python <version> (<status>)` with such a version and status, the pattern matches there and captures that version. |
| VersionPattern.MatchAtCapturesStatus | src/constants.py:18-19 | When, in addition, the status's `)` is the last `)` on its line, the match captures exactly that version and that status. |
| VersionPattern.FirstMatch | src/main.py:63 | `search` takes the leftmost position where the pattern matches. It fails only when no position matches. |
| VersionPattern.Search | src/main.py:63 | Defined as the match at the position `FirstMatch` finds; characterised by `SearchShape`. |
| VersionPattern.SearchShape | src/main.py:63 | A found match spells the phrase somewhere, with a well-formed version and a status that runs to the last `)` on its line. No match means the phrase occurs nowhere. |
| VersionPattern.ParseVersionStatus | src/main.py:63-67 | Defined as the groups of `Search`, or the whole text and an empty status; characterised by `LatestVersions.VersionRowFields` and the examples below. |
| VersionPattern.ParseMatchingExample | src/main.py:63-65 | "Python 3.10 (Active)" yields version 3.10 and status Active. |
| VersionPattern.ParseGreedyExample | src/main.py:63-65 | "Python 3.10 (a) (b)" yields version 3.10 and status `a) (b`: the status runs to the last `)`. |
| VersionPattern.ParseFallbackExample | src/main.py:66-67 | A text without the phrase is kept whole as the version, with an empty status. |
| WhatsNew.NewsRow | src/main.py:37-40 | Defined as (page heading, link, summary with line feeds collapsed); characterised by `NewsRowsFromFetchedPages`. |
| WhatsNew.NewsRows | src/main.py:28-40 | Defined as the rows of the fetched sections, in order; characterised by `NewsRowsCount`, `NewsRowsAppend`, `FailedFetchIsSkipped` and `NewsRowsFromFetchedPages`. |
| WhatsNew.WhatsNewTable | src/main.py:27-42 | Defined as the header followed by `NewsRows`; characterised by `WhatsNewShape` and `FailedFetchIsSkipped`. |
| WhatsNew.WhatsNew | src/main.py:27-42 | The loop returns the header followed by one row per fetched release page, in order. |
| WhatsNew.WhatsNewShape | src/main.py:27-40 | The table starts with the header and has one more row than there are fetched pages. |
| WhatsNew.FailedFetchIsSkipped | src/main.py:31-33 | A section whose fetch failed leaves the table as if it were absent. |
| WhatsNew.NewsRowsAppend | src/main.py:28-40 | The rows of two section lists in sequence are the rows of each, concatenated. |
| WhatsNew.NewsRowsCount | src/main.py:28-40 | There is one row per fetched section. |
| WhatsNew.NewsRowsFromFetchedPages | src/main.py:34-40 | Every row is (h1, link, text) of some fetched section, with a summary free of line feeds. |
| LatestVersions.FirstVersionList | src/main.py:53-56 | It finds the first list whose text contains "All versions", or reports that none does. |
| LatestVersions.VersionRow | src/main.py:61-69 | Defined as (href, version, status) from `ParseVersionStatus`; characterised by `VersionRowFields`. |
| LatestVersions.LatestVersionsTable | src/main.py:53-71 | Defined as `NotFound` without a marked list, else the header and one `VersionRow` per link of the first marked list; characterised by `FailsExactlyWithoutMarker` and `UsesFirstMarkedList`. |
| LatestVersions.LatestVersions | src/main.py:45-71 | The search-and-rows loops return exactly `LatestVersionsTable`. |
| LatestVersions.FailsExactlyWithoutMarker | src/main.py:57-58 | The result is a `NotFound("Ничего не нашлось")` failure exactly when no list mentions "All versions". |
| LatestVersions.UsesFirstMarkedList | src/main.py:53-70 | Otherwise it is the header followed by one row per link of the first such list, in order. |
| LatestVersions.VersionRowFields | src/main.py:61-69 | Each row is (href, version, status). These are the groups of a match, with a well-formed version, or else the whole link text and an empty status. |
| Download.ArchiveFileName | src/main.py:89 | Defined as `Text.LastSegment` of the URL; characterised by `ArchiveFileNameIsLastSegment` and `ArchiveFileNameOfPath`. |
| Download.ArchiveFileNameIsLastSegment | src/main.py:89 | The file name holds no `/`, ends the URL and follows its last `/`. |
| Download.ArchiveFileNameKeepsSuffix | src/main.py:83-89 | A URL ending in `pdf-a4.zip` gives a file name ending in `pdf-a4.zip`. |
| Download.ArchiveFileNameOfPath | src/main.py:89 | For `dir/name` with a slash-free name, the file name is `name`. |
| Pep.StatusCode | src/main.py:113 | Defined as the first cell's text without its first character; characterised by `StatusCodeDropsFirst`. |
| Pep.ExpectedFor | src/main.py:114-117 | Defined as the table's entry for the code, or the empty set for an unknown code; characterised by `MismatchLogged` and `UnknownCodeAlwaysMismatches`. |
| Pep.RowEvents | src/main.py:114-145 | Defined as the events one row logs, in order; characterised by `RowEventsContents`. |
| Pep.Step | src/main.py:111-146 | Defined as one iteration's effect on the counter, the status order and the counts; characterised by `StepWellFormed` and `SumCountsStep`. |
| Pep.Reconcile | src/main.py:108-146 | Defined as `Step` over the rows; characterised by `ReconcileWellFormed`, `CountsAreOccurrences`, `SumOfCounts` and `OrderIsFirstDeclaration`. |
| Pep.Log | src/main.py:114-145 | Defined as the rows' `RowEvents`, row after row; characterised by `LogIsRowEvents` and the three `…Logged` lemmas. |
| Pep.PepTable | src/main.py:110-149 | Defined as the header, one (status, count) row per status in order, then the total; characterised by `TableShape`. |
| Pep.ReconcileWellFormed | src/main.py:108-146 | The fold counts every row in the total and lists each counted status exactly once. |
| Pep.Pep | src/main.py:102-149 | The loop returns `PepTable` of the rows and writes exactly `Log` of the rows. |
| Pep.WithStatus | src/main.py:127-140 | The number of rows whose page shows a status is at most the number of rows. |
| Pep.FirstDeclaring | src/main.py:137-140 | It gives the first row that declares the status. |
| Pep.TableShape | src/main.py:108-148 | The table is the header, one (status, count) row per listed status, and `("Total", number of rows)`. |
| Pep.MissingStatusCountsNothing | src/main.py:141-146 | A page without `Status` changes no count and no order, still adds to the total, and is logged. |
| Pep.CountsAreOccurrences | src/main.py:137-140 | The counted statuses are exactly those some page declares. Each count is the number of pages declaring that status. |
| Pep.SumOfCounts | src/main.py:137-140 | The counts add up to the number of pages that show a status. |
| Pep.CountsAddUpToTotal | src/main.py:108-148 | The counts add up to at most the total, and exactly to it when every page shows a status. |
| Pep.OrderIsFirstDeclaration | src/main.py:137-147 | Statuses are listed in the order of the first row declaring each. |
| Pep.LogIsRowEvents | src/main.py:114-146 | An event is in the log exactly when it is one of its own row's events. |
| Pep.RowEventsContents | src/main.py:114-146 | A row's events carry its index. The unknown-code, mismatch and missing-status events are present exactly under their conditions. |
| Pep.UnknownCodeLogged | src/main.py:114-121 | An unknown-code event for row `i` is logged exactly when that row's code is not in the table. |
| Pep.MismatchLogged | src/main.py:131-136 | A mismatch for row `i` is logged exactly when its page shows a status outside the row's expected set. |
| Pep.MissingStatusLogged | src/main.py:141-145 | A missing-status event for row `i` is logged exactly when its page has no `Status` field. |
| Pep.UnknownCodeAlwaysMismatches | src/main.py:114-140 | A row with an unknown code and a declared status logs both an unknown-code event and a mismatch against the empty set. The status is still counted. |
| Pep.StatusCodeDropsFirst | src/main.py:113-117 | The code is the first cell without its first character. A code longer than one character is unknown. |
| Pep.ThreeRowTable | src/main.py:102-149 | Rows IA/Active, PX/Active and SA/Final give the table Active 2, Final 1, Total 3. |
| Pep.ThreeRowLog | src/main.py:113-136 | The same rows log the unknown code X, a mismatch of Active against the empty set, and a mismatch of Final against (Active, Accepted). |

## Left out

- HTTP fetching and the response cache (`get_response`, `requests_cache`) are not modelled. Each page arrives as a value, and a failed `whats_new` fetch arrives as an absent page.
- HTML parsing with BeautifulSoup (`src/main.py:20`, `:34`, `:47`, `:78`, `:104`, `:125`) is not modelled. Neither is `find_tag` with its `ParserFindTagException` when a tag is missing; `find_tag` and `get_response` come from `src/utils.py`, which is not part of this model.
- A missing `href` attribute, which raises `KeyError`, is not modelled. Every link has an href.
- `urljoin` is not modelled. Links are taken as already-resolved strings.
- In `download`, the selection of the archive link by `re.compile(r'.+pdf-a4\.zip$')` is not modelled. Only the resulting URL's file name is: `Download.ArchiveFileNameKeepsSuffix` assumes the URL ends with the suffix. The directory creation, the archive request and the file write are I/O and are not modelled.
- Pep.Pep: does not model a failed fetch of a PEP page. The source has no check for it there, so every page is treated as fetched.
- Pep.Pep: a `Status` field whose value node has no single string is not modelled. In the source, `.string` would be `None` there, and `None` would be counted as a status. The model's declared status is always a string.
- `Pep.Event` keeps the row index and the codes or statuses involved. It does not keep the log messages' text or the PEP links.
- VersionPattern.DigitRun: `\d` is modelled as ASCII `0`-`9` only. Python's `\d` on `str` also matches other Unicode decimal digits.
- The progress bar (`tqdm`), the command line (`main`, argparse), logging configuration and output formatting (`control_output`) are presentation or I/O and are not modelled.
