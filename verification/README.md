# Site structure analysis and section crawl

A Dafny model of the two operations at the heart of the desktop crawling tool in
`TEST2/TEST2.py`, plus the name it suggests for the CSV export:

- **Structure analysis** (`analyze_structure`). The tool opens a session with a
  warm-up GET and fetches the base URL. A 4xx or 5xx status makes it raise.
  Otherwise it walks the links found in the page's navigation regions. It keeps
  a link when all three hold:
  - the link is on the base host;
  - its path does not start with `/login`, `/logout` or `/signout`, compared
    case-insensitively;
  - the last segment of its path has no `.`.

  Each kept link contributes its path without trailing slashes, with a leading
  `/` added if missing. Empty paths and the base URL's own path are skipped. The
  result is the sorted list of the distinct category paths.
- **Section crawl** (`analyze_and_crawl`). A breadth-first walk from the start
  URL of a category, with a FIFO queue and a visited set.
  - It stops when the queue is empty or 100 pages are recorded.
  - Each dequeued URL is fetched. A raised request or a status other than 200
    skips the URL.
  - A fetched page yields a record: the URL, the stripped title or
    `No Title`, the first `<h1>` text cut to 50 characters or `N/A`, and the
    status.
  - Every link on the page that is new, on the base host and whose path starts
    with the category path is queued and marked visited.
- **Export file name** (`save_to_csv`): `crawl_data_` + the category without
  outer slashes and with each `/` turned into `_` + `.csv`.

Layout:

- `Wrappers.dfy`: `Option` and `Result`.
- `Text.dfy`: the Python string operations used, such as `rstrip`, `strip`,
  `split('/')[-1]`, slicing, `str` ordering and `sorted`.
- `Web.dfy`: URLs, parsed pages and HTTP responses, as inputs to the model.
- `Structure.dfy`: the structure analysis.
- `Crawl.dfy`: the crawl. It is written twice:
  - as a state machine (`Step`, `Run`) with its invariant;
  - as the imperative loop `AnalyzeAndCrawl`, proved to compute `Run`'s result.
- `Export.dfy`: the export file name.

Fetching is an oracle. The structure analysis receives the two responses it
would get. The crawl receives a function from URL string to `Response`, so a URL
always gives the same response. Every link arrives already resolved into a full
URL string, a host and a path.

Two behaviours of the code that are easy to overlook, and that the model keeps:

- A page whose `<title>` has no single string (`.string` is None) aborts the
  whole crawl (TEST2/TEST2.py:85). The error is not a request exception, so the
  handler at line 120 does not catch it. The crawl then returns no records, which
  the model gives as `None`.
- `raise_for_status` rejects only statuses 400..599 (TEST2/TEST2.py:33). Any other
  status the base GET ends with is analysed like a 200.

## Model

| member | source | states |
|---|---|---|
| Structure.AnalyzeStructure | TEST2/TEST2.py:23-62 | A failed warm-up GET, a failed base GET and a 4xx/5xx status each give their own error, and success happens exactly when none occurs. On success the result is strictly sorted, and its elements are exactly the categories of the navigation links. Each element is non-empty, starts with '/' and does not end with '/'. |
| Structure.CollectCategories | TEST2/TEST2.py:41-60 | The link loop collects exactly the categories of the navigation links. Its loop invariant: the set built so far is the categories of the links seen so far. |
| Structure.IsErrorStatus | TEST2/TEST2.py:33 | Definition: `raise_for_status` rejects exactly the statuses 400..599. |
| Structure.KeepsLink | TEST2/TEST2.py:52-54 | Definition of the three checks, all on the raw path: the base host, no `/login`, `/logout` or `/signout` prefix after lower-casing, and no '.' in the last segment. |
| Structure.Contributes | TEST2/TEST2.py:52-58 | Definition: the link passes the three checks, and its trimmed path is neither empty nor the trimmed base path. |
| Structure.SortSet | TEST2/TEST2.py:62 | `sorted(list(set))`: the result is strictly increasing in Python's string order and holds exactly the elements of the set. |
| Structure.Categories | TEST2/TEST2.py:41-60 | Every collected path is non-empty, starts with '/' and does not end with '/'. |
| Structure.CategoryOf | TEST2/TEST2.py:56-60 | A link's category is its trimmed path, with '/' prefixed when it has none. For a path from `urlparse` (empty or '/'-led) it is the trimmed path itself. |
| Structure.CategoriesMembership | TEST2/TEST2.py:44-60 | A path is among the categories if and only if some navigation link passes the three checks, has a non-empty trimmed path other than the base path, and maps to it. |
| Structure.CategoryWitness | TEST2/TEST2.py:44-60 | For any collected category, names the index of a link that contributes it. |
| Structure.WitnessGivesCategory | TEST2/TEST2.py:44-60 | The converse: the category of any contributing link is collected. |
| Structure.FileLinkRejected | TEST2/TEST2.py:54 | A link whose last path segment contains a '.' is rejected. |
| Structure.WidgetLinkRejected | TEST2/TEST2.py:54 | `/products/widget.png` fails the file-extension check. |
| Structure.LoginLinkRejected | TEST2/TEST2.py:53 | `/login` fails the authentication-page check. |
| Structure.BasePathNeverACategory | TEST2/TEST2.py:58 | When link paths are empty or '/'-led, the base URL's own trimmed path is never returned. |
| Structure.RejectedLinkAddsNothing | TEST2/TEST2.py:52-54 | A link failing the host, auth-page or file check leaves the categories unchanged. |
| Structure.TrailingSlashHidesExtension | TEST2/TEST2.py:54-56 | The checks run on the raw path: `/doc.pdf/` passes the file check (its last segment is empty) and yields the category `/doc.pdf`. |
| Structure.PageLinkContributes | TEST2/TEST2.py:52-60 | A link contributes its own path when it is on the base host, its path differs from the trimmed base path, and its path is one segment `/x` where `x` has no '.' and starts with a lower-case ASCII letter other than 'l' and 's'. |
| Structure.CategoriesSnoc | TEST2/TEST2.py:44-60 | Helper: the defining equation of `Categories` unfolded once (one pass of the loop), which the loop proof of `CollectCategories` uses. |
| Structure.NavigationExample | TEST2/TEST2.py:39-60 | Navigation links to /products, /products/widget.png, /login and /about on the base host yield exactly {/about, /products}. |
| Structure.NavigationOrder | TEST2/TEST2.py:62 | Sorted, /about precedes /products. |
| Crawl.AnalyzeAndCrawl | TEST2/TEST2.py:67-123 | The loop returns what the state machine `Run` returns from the initial state. So on normal return there are at most 100 records, no URL is recorded twice, and every record has status 200 and a heading of at most 50 characters. A title that raises ends the crawl with no result. |
| Crawl.AdmitLinks | TEST2/TEST2.py:104-118 | The inner link loop yields exactly the queue and visited set of `AdmitAll`: each new, same-host link whose path starts with the category is added once, in document order. |
| Crawl.HeadingOf | TEST2/TEST2.py:91-92 | The heading is "N/A" without an h1. Otherwise it is a prefix of the h1 text: all of it up to 50 characters, exactly 50 characters when longer. |
| Crawl.RecordOf | TEST2/TEST2.py:79-100 | A record exists if and only if the fetch gave status 200 and the title does not raise. It carries the URL, status 200 and the heading. The title is "No Title" without a title element. Otherwise it is the title text stripped of Python whitespace at both ends. |
| Crawl.AdmitAll | TEST2/TEST2.py:105-118 | Admitting links leaves records unchanged. The new visited set is exactly the old one plus the full URLs of the page's admissible links. The old queue and admission log are prefixes of the new ones, and both grow by the same count. |
| Crawl.AdmitAllFollowsAdmissible | TEST2/TEST2.py:113-118 | Every admissible link on a fetched page is visited afterwards: the crawl follows each in-scope link (the "if" half of the admission rule). |
| Crawl.Admissible | TEST2/TEST2.py:114-115 | Definition of the admission test: the base host, and the category as a literal prefix of the path. |
| Crawl.Admit | TEST2/TEST2.py:113-118 | Definition: one link is queued and marked visited exactly when it is new and admissible. |
| Crawl.Raises | TEST2/TEST2.py:85 | Definition: a fetched 200 page whose title element has no single string raises. |
| Crawl.CrawlRecords | TEST2/TEST2.py:123 | Definition: the crawl's result is the records of the final state, or none when a title raised. |
| Crawl.Step | TEST2/TEST2.py:76-121 | One iteration fails if and only if the fetched page's title raises. Otherwise it appends the URL's record (or nothing). A skipped URL only leaves the queue. The rest of the queue stays at its front. |
| Crawl.Run | TEST2/TEST2.py:76 | A finished crawl has an empty queue or at least 100 records. |
| Crawl.InitInv | TEST2/TEST2.py:71-74 | The initial state (start URL queued and visited, no records) satisfies the crawl invariant. |
| Crawl.AdmitKeepsQueueInv | TEST2/TEST2.py:113-118 | Admitting one link keeps the queue invariant: the start URL first, later URLs admissible, none admitted twice, visited equal to the admitted URLs, and the queue a tail of the admission log. The dequeued URLs stay the same. |
| Crawl.AdmitAllKeepsQueueInv | TEST2/TEST2.py:105-118 | The same for all links of a page. |
| Crawl.StepKeepsInv | TEST2/TEST2.py:76-121 | An iteration keeps the invariant: the records are those of the dequeued URLs, in dequeue order, at most 100. |
| Crawl.RunKeepsInv | TEST2/TEST2.py:76-121 | The invariant holds when the loop ends. Visited and the admission log only grow. |
| Crawl.RecordsForShape | TEST2/TEST2.py:95-100 | Every record has status 200, a heading of at most 50 characters, and a URL among the fetched ones. |
| Crawl.RecordsForDistinct | TEST2/TEST2.py:113-117 | URLs fetched without repetition give records without repeated URLs. |
| Crawl.CrawlResult | TEST2/TEST2.py:71-123 | From the initial state, a finished crawl satisfies the invariant and ends with an empty queue or exactly 100 records. Record URLs are distinct, each record has status 200 and a heading of at most 50 characters. |
| Crawl.PrefixAdmitsSibling | TEST2/TEST2.py:115 | The category test is a plain string prefix: category `/cat` admits `/category2`. |
| Crawl.InScopeLinkFollowed | TEST2/TEST2.py:71-118 | A start page linking to an in-scope page and to an out-of-scope page yields exactly the two records of the start page and the in-scope page. |
| Export.SuggestedFilename | TEST2/TEST2.py:233-234 | The suggested name has no '/', starts with `crawl_data_`, ends with `.csv`, and its length is the affixes plus the stripped category. |
| Export.FilenameRoundTrip | TEST2/TEST2.py:233-234 | A category with one leading '/', no trailing '/' and no '_' is recovered from its file name. |
| Export.OneSegmentFilename | TEST2/TEST2.py:233-234 | A one-segment category `/x` suggests `crawl_data_x.csv`. |
| Text.RStrip | TEST2/TEST2.py:56 | `rstrip`: a prefix of the input that does not end in a stripped character, and only stripped characters were removed. |
| Text.LStrip | TEST2/TEST2.py:233 | `lstrip`: a suffix of the input that does not start with a stripped character, and only stripped characters were removed. |
| Text.Strip | TEST2/TEST2.py:233 | `strip`: the result is a contiguous stretch of the input with only stripped characters before and after it. Neither of its ends is a stripped character, and it is empty if and only if every character is stripped. |
| Text.StripUnique | TEST2/TEST2.py:233 | Any stretch of the input with only stripped characters around it and none at its own ends is `Strip`'s result. |
| Text.ReplaceChar | TEST2/TEST2.py:233 | Definition of `replace` for single characters. |
| Text.ReplaceCharRoundTrip | TEST2/TEST2.py:233 | `replace` of a char by another leaves none of it, and replacing back restores a string that did not contain the other char. |
| Text.LastSegment | TEST2/TEST2.py:54 | `split('/')[-1]`: a '/'-free suffix of the path preceded by '/' (or the whole path). |
| Text.LowerAscii | TEST2/TEST2.py:53 | Definition of `lower()` on ASCII letters (see Left out). |
| Text.LastSegmentAfter | TEST2/TEST2.py:54 | The last segment is exactly what follows the last '/'. |
| Text.Take | TEST2/TEST2.py:92 | `s[:n]`: a prefix of at most n characters, exactly n when the string is longer, the whole string otherwise. |
| Text.LexLess | TEST2/TEST2.py:62 | Definition of Python's `<` on `str`: code point by code point, a proper prefix first. |
| Text.LexTransitive | TEST2/TEST2.py:62 | Python's string order is transitive. |
| Text.LexTotal | TEST2/TEST2.py:62 | Python's string order is total on distinct strings. |
| Text.LexMinimumExists | TEST2/TEST2.py:62 | Every non-empty finite set of strings has a least element. |
| Text.StrictlySortedUnique | TEST2/TEST2.py:62 | Two strictly sorted sequences with the same elements are equal: the sorted output is determined by the set. |

## Left out

- The tkinter GUI (`WebCrawlerApp`, its widgets and message boxes), the save dialog and the CSV writing. The model covers only the default file name they use.
- `get_session`'s internals: the warm-up GET is the `probe` response. The crawl's `session` is the `fetch` oracle. Timeouts are part of what raises a request exception.
- HTML parsing with BeautifulSoup: a page is given as its title, first h1 text (already stripped), navigation links and all links. The CSS selection of navigation regions is described, not modelled.
- `urljoin` and `urlparse`: every link arrives resolved into its full URL, host and path. The start URL of the crawl is given the same way.
- Text.LowerAscii: `str.lower()` is modelled on ASCII letters only, and other characters are left unchanged. This does not change the auth-page check. Only two non-ASCII characters lower to text that contains an ASCII letter:
  - U+212A KELVIN SIGN lowers to 'k', and no prefix contains a 'k';
  - U+0130 lowers to 'i' followed by U+0307, but in every prefix an 'i' is followed by an ASCII letter.

  This argument rests on Unicode's case tables and is not proved in the model.
- The exception wrapping in `analyze_structure` (one generic exception with a message): the model names the cause instead (`AnalysisError`). Other exceptions raised inside the analysis, such as from parsing, are not modelled.
- Crawl.AnalyzeAndCrawl: a page whose `<title>` has no single string makes `.string.strip()` raise an error that is not a request exception. The crawl then raises and returns no records, which the model gives as `None`. Other non-request exceptions are not modelled.
- The input handling of `start_analysis`/`start_crawl` belongs to the GUI and is not part of this model. It strips whitespace and trailing '/' from the URL, strips the selected category, and checks for empty input and an empty result.
