# github-search scraper core in Dafny

A model of the scraping core of github-search, a small tool with two parts.

It searches GitHub for repositories and collects the result URLs. For each repository it also collects the owner and the language breakdown shown in the sidebar.

The model covers:

- `RequestParams.to_dict`: the search query. The keywords are joined by spaces and form-encoded with `quote_plus`.
- The proxy choice and status check of `GitHub.request_page_html`.
- `GitHub.extract_urls`: the result URLs of a search page.
- `GitHub.extract_extra_info`: the owner and the language statistics of a repository page.
- `main` of `src/search.py`: from input data to the list of records.

Python values become Dafny values:

- A dict is an insertion-ordered sequence of pairs (`OrderedMaps`).
- A raised exception is a `Failure` carrying an `Errors.Error`.
- An HTML document is an already-parsed tree of elements and text nodes (`HtmlTree`).

Modules:

| module | file | contents |
|---|---|---|
| `Wrappers` | wrappers.dfy | `Option`, `Result`, and `MapAll` (a loop whose body may raise) |
| `Errors` | errors.dfy | the exceptions the code can raise |
| `Strings` | strings.dfy | `find`, `join`, `split` and `replace` on single characters |
| `OrderedMaps` | ordered_maps.dfy | dict lookup, assignment, and a dict built by a loop of assignments |
| `UrlEncoding` | url_encoding.dfy | UTF-8, `quote_plus` and its inverse |
| `Query` | query.dfy | `RequestParams` and `to_dict` |
| `Proxies` | proxies.dfy | proxy scheme fix-up and the proxies dict |
| `Fetcher` | fetcher.dfy | `request_page_html` with the session as a parameter |
| `HtmlTree` | html_tree.dfy | `SoupStrainer`, document-order walk, `find_all`, `find`, `.parent`, `.text` |
| `UrlParse` | url_parse.dfy | `urlparse(url).path` |
| `Extractors` | extractors.dfy | `extract_urls` and `extract_extra_info` |
| `Search` | search.dfy | `main`: the corrected flow and the flow as written |
| `ScraperExamples` | scraper_examples.dfy | stand-in documents shaped like the pages of tests/test_scraper.py, which give that test's expected results |
| `SearchExamples` | search_examples.dfy | the run of tests/test_search.py |

The model follows the code to the letter where it is easy to misread, and where it disagrees with its tests:

- **Warning threshold.** The code tests `status_code > HTTPStatus.BAD_REQUEST` (src/scraper.py:84), so a 400 response itself is not flagged (`Fetcher.IsFlagged`).
- **Proxy slots.** The tests expect the proxy in one slot only, `http` or `https` (tests/test_scraper.py:46-48). The code installs it under both keys (src/scraper.py:80). `Proxies.ProxyConfig` models the code. `Proxies.TestExpectedConfig` records the tests' expectation, and `Proxies.InstalledConfigDiffersFromTests` proves the two never agree.
- **The `proxies` argument.** The tests call `GitHub(proxies=…)` and `update_session_proxy`. The code has neither: `__init__` takes no argument, and the proxy list is a parameter of `request_page_html`.
- **Strainer and `class`.** BeautifulSoup tests a `SoupStrainer` on each start tag before the tag is built, against the attribute values as written, so the `class` of `SoupStrainer("div", attrs={"class": "Layout-sidebar"})` must be exactly `Layout-sidebar` (`HtmlTree.Matches`, `ScraperExamples.WideSidebarIsNotKept`). A `find_all` on the built tree, as at src/scraper.py:98, matches any one word of the class (`HtmlTree.Selects`).

## Model

| member | source | states |
|---|---|---|
| Query.NewRequestParams | src/scraper.py:44-49 | the dataclass keeps keywords and proxies as given; `type` defaults to "repositories" when not given |
| Query.ToDict | src/scraper.py:51-52 | exactly the keys `q` then `type`; `type` is the search type; `q` holds no space and decodes back to the keywords joined by single spaces |
| Query.QueryOfUnreservedKeywords | src/scraper.py:52 | when every keyword is made of unreserved characters, `q` is the keywords joined by `+` |
| Query.QueryRecoversKeywords | src/scraper.py:52 | for a non-empty keyword list without spaces, decoding `q` and splitting on spaces gives the keyword list back |
| Query.ToDictExample | tests/test_scraper.py:22-24 | the test's keywords encode as `python+django-rest-framework+jwt`, and the type defaults to repositories |
| UrlEncoding.QuotePlus | src/scraper.py:52 | the quoted text is at least as long as the input, has no space, and uses only unreserved characters, `+`, `%` and upper-case hex digits |
| UrlEncoding.QuotePlusRoundTrip | src/scraper.py:52 | form-decoding undoes `quote_plus` for every string |
| UrlEncoding.QuotePlusOfUnreserved | src/scraper.py:52 | text of unreserved characters and spaces is quoted by replacing each space with `+` |
| UrlEncoding.Utf8RoundTrip | src/scraper.py:52 | UTF-8 decoding undoes the encoding `quote_plus` applies to text |
| UrlEncoding.QuoteBytesDecodes | src/scraper.py:52 | form-decoding undoes the byte quoting |
| UrlEncoding.EncodeCharDecodes | src/scraper.py:52 | decoding one character's UTF-8 bytes gives the character back and consumes exactly those bytes |
| Strings.Split | src/scraper.py:107 | `str.split` with a one-character separator never gives an empty list |
| Strings.SplitParts | src/scraper.py:107 | no part holds the separator, and there is one part exactly when the text has no separator |
| Strings.SplitAtFirst | src/scraper.py:107 | the first part is the text before the first separator, and the other parts are the split of the text after it |
| Strings.JoinSplit | src/scraper.py:52 | `" ".join` of a split gives the text back |
| Strings.SplitJoin | src/scraper.py:52 | splitting a `join` of at least one separator-free word gives the words back |
| Proxies.Normalise | src/scraper.py:79 | the result starts with `http`; it is unchanged exactly when the input starts with `http`; otherwise `http://` is prefixed |
| Proxies.NormaliseIdempotent | src/scraper.py:79 | normalising twice equals normalising once |
| Proxies.HttpNamedHostKeepsNoScheme | src/scraper.py:79 | a bare host name beginning with `http` gets no scheme, because the test is a plain prefix test |
| Proxies.ProxyConfig | src/scraper.py:80 | the dict has keys `http` then `https`, both holding the normalised address |
| Proxies.SelectProxy | src/scraper.py:76-80 | no proxy exactly when the list is empty; otherwise the config of some member of the list |
| Proxies.EveryProxyCanBeChosen | src/scraper.py:78 | every member of a non-empty list is the chosen one for some draw |
| Proxies.NormaliseExamples | tests/test_scraper.py:43-50 | a bare address gains `http://`; `http://` and `https://` addresses are kept |
| Proxies.TestExpectedConfig | tests/test_scraper.py:43-54 | the tests expect one slot, `https` exactly when the normalised address starts with `https` |
| Proxies.InstalledConfigDiffersFromTests | tests/test_scraper.py:52 | the code's two-slot dict never equals the one-slot dict the tests expect |
| Fetcher.RequestPageHtml | src/scraper.py:71-88 | the request goes to the given URL with the given params; there is no proxy exactly when the list is empty, otherwise some member's config; the body is returned whatever the status; a warning with the final URL, status and params is logged exactly when the status is above 400 |
| OrderedMaps.Put | src/scraper.py:120 | assignment puts a new key at the end and keeps an existing key in place; the key gets the value, and other keys keep theirs |
| OrderedMaps.FromPairs | src/scraper.py:116-120 | the dict built by the assignment loop has distinct keys, exactly the keys assigned |
| OrderedMaps.FromPairsValues | src/scraper.py:120 | each key holds the value of its last assignment |
| OrderedMaps.FromPairsOrder | src/scraper.py:120 | keys are listed in the order of their first assignment |
| OrderedMaps.FromPairsDistinct | src/scraper.py:116-120 | pairs with distinct keys build the dict listing them as given |
| Wrappers.MapAll | src/scraper.py:116-120 | a loop whose body may raise completes exactly when no element raises, giving one result per element in order; otherwise it raises the error of the first element that raises |
| HtmlTree.Strain | src/scraper.py:91-95 | everything kept by `SoupStrainer` passes the strainer |
| HtmlTree.StrainIsOutermost | src/scraper.py:91-95 | the kept elements are exactly the elements of the document-order walk that pass the strainer and have no enclosing element that does, in walk order |
| HtmlTree.StrainNothing | src/scraper.py:91-95 | a strainer that matches nothing in a document keeps nothing |
| HtmlTree.DescendantsVisitEveryNode | src/scraper.py:98 | the document-order walk visits every node of the forest under the given ancestors |
| HtmlTree.DescendantsAncestry | src/scraper.py:98 | every visited node lies under the given chain of ancestors |
| HtmlTree.Descendants | src/scraper.py:98 | the walk holds at least one visit per top node and starts at the first top node with the given chain |
| HtmlTree.SelectMembers | src/scraper.py:98 | `find_all` keeps exactly the walked nodes the selector matches |
| HtmlTree.FindAllMembers | src/scraper.py:116 | `find_all` yields exactly the visits of the walk below the starting node that the selector matches |
| HtmlTree.FindAllAppend | src/scraper.py:98 | `find_all` over side-by-side trees gives the matches of the first, then those of the second |
| HtmlTree.FindAllOfOne | src/scraper.py:98 | `find_all` from one node gives the node if it matches, then the matches below it |
| HtmlTree.Find | src/scraper.py:113 | `find` gives the first element of `find_all`, and nothing exactly when `find_all` gives nothing |
| HtmlTree.FindIsFirstMatch | src/scraper.py:113 | `find` gives the earliest visit of the document-order walk that matches, and nothing exactly when no visited node matches |
| HtmlTree.TextOfElement | src/scraper.py:120 | `.text` of an element is the `.text` of its children, concatenated in order |
| HtmlTree.TextInStrainedSoupHasTagAncestors | src/scraper.py:114 | in a strained soup every text node has an element parent and a `Tag` grandparent |
| UrlParse.UrlPath | src/scraper.py:107 | a parsed path holds no `#` and no `?` |
| UrlParse.PathOfAbsoluteUrl | src/scraper.py:107 | the path of `scheme://host/path` is `/path` when host and path hold no delimiters |
| Extractors.AnchoredMarkers | src/scraper.py:98-99 | a marker is kept exactly when its parent is an `a`; a single marker is kept or dropped on its own |
| Extractors.AnchoredMarkersAppend | src/scraper.py:98-99 | filtering two runs of markers gives the first run's kept markers, then the second's: the filter keeps order and multiplicity |
| Extractors.MarkersOfPage | src/scraper.py:91-98 | the markers are the `search-match` spans of the walk of the kept results lists, which are the outermost `results-list` containers of the page |
| Extractors.UrlOfLink | src/scraper.py:97 | the URL is the base URL followed by the parent's `href`; a parent without `href` raises `KeyError` |
| Extractors.UrlsOfMarkers | src/scraper.py:96-100 | one URL per anchored marker, in document order, each the base URL plus that anchor's `href`; `KeyError` exactly when an anchored marker's parent has no `href` |
| Extractors.ExtractUrls | src/scraper.py:90-102 | never more URLs than markers; every URL starts with `https://github.com`; no markers means no URLs |
| Extractors.ExtractUrlsOfMarkers | src/scraper.py:90-102 | the URLs are returned exactly when every marker inside a link has an `href`, otherwise `KeyError`; there is one URL per marker inside a link, in page order, each the base URL followed by that link's `href` |
| Extractors.NoResultsListNoUrls | src/scraper.py:91-100 | a page without a results-list container yields no URLs |
| Extractors.OwnerOf | src/scraper.py:107 | a `urlparse` error is raised as it is; otherwise the owner is found exactly when the path has a `/`, holds no `/`, and any other failure is `IndexError` |
| Extractors.SecondPart | src/scraper.py:107 | `path.split("/")[1]` exists exactly when the path has a `/`, holds no `/`, and is otherwise `IndexError` |
| Extractors.OwnerIsFirstSegment | src/scraper.py:107 | the owner is the text between the first and second `/` of the path |
| Extractors.OwnerOfRepositoryUrl | src/scraper.py:107 | the owner of `https://github.com/<owner>/<repo>` is `<owner>` |
| Extractors.RowOf | src/scraper.py:119-120 | a list item gives a row exactly when it holds at least two spans, and the row is the `.text` of the first span and of the second; otherwise `IndexError` |
| Extractors.LanguageStats | src/scraper.py:116-120 | the statistics are built exactly when every list item holds two spans; otherwise `IndexError` |
| Extractors.StatsUnderHeading | src/scraper.py:116-120 | the statistics of the `li` items under the heading's grandparent are built exactly when each item holds two spans; otherwise `IndexError` |
| Extractors.LanguageStatsSpec | src/scraper.py:116-120 | one entry per distinct language, in first-seen order; a repeated language keeps its place and takes its last percentage |
| Extractors.ExtractExtraInfo | src/scraper.py:104-123 | an owner error is raised as it is, and any other error is `IndexError`; a returned dict names the owner from the URL |
| Extractors.ExtraInfoOfHeading | src/scraper.py:113-121 | once the "Languages" string is found, the result is the owner with the statistics of the `li` items under the string's grandparent, or the `IndexError` of the first item short of spans |
| Extractors.ExtraInfoStats | src/scraper.py:116-120 | a returned dict's `language_stats` is built from one row per `li` under the heading, in document order, each the first span's text and the second span's; one entry per language in first-seen order, holding its last row's value |
| Extractors.ExtraInfoMissingIffNoLanguages | src/scraper.py:113-115 | `None` exactly when the strained sidebar has no "Languages" string |
| Extractors.HeadingHasTagAncestors | src/scraper.py:114 | a "Languages" string found in the strained sidebar passes both `Tag` guards |
| Extractors.NoSidebarNoExtra | src/scraper.py:108-115 | a page without a sidebar gives `None` |
| ScraperExamples.ExtractUrlsOfSearchPage | tests/test_scraper.py:56-64 | on a search page with two repository titles, a code match and a header marker, the two repository URLs come out in page order |
| ScraperExamples.OwnerOfExample | tests/test_scraper.py:69 | the owner of `https://github.com/AKrekhovetskyi/github-search` is `AKrekhovetskyi` |
| ScraperExamples.ExtractExtraInfoOfRepositoryPage | tests/test_scraper.py:66-73 | on the repository page: owner `AKrekhovetskyi` and stats CSS 52.0%, JavaScript 47.2%, HTML 0.8%, in that order |
| ScraperExamples.RowOfItem | src/scraper.py:119-120 | a list item holding a link with two spans gives the spans' texts |
| ScraperExamples.WideSidebarIsNotKept | src/scraper.py:108-115 | a sidebar whose `class` is `Layout-sidebar wide` is dropped by the strainer, so no extra is found, though its tag has `Layout-sidebar` among its classes |
| Search.ParamsOf | src/search.py:20-21 | the params are built exactly when all three keys are present; otherwise `KeyError` for the first missing key, in the order keywords, proxies, type |
| Search.ParamsOfIsConstructor | src/search.py:21 | the input's keywords, proxies and type reach `RequestParams` unchanged |
| Search.Kept | src/search.py:27-28 | an extra is attached exactly when it is present and truthy, and then verbatim |
| Search.ExtraJson | src/scraper.py:107 | the returned dict has keys `owner` then `language_stats`, with the owner as given |
| Search.AttachExtras | src/search.py:25-26 | the lookups made are one per URL, in order, with the input's proxies, and all of them when the loop completes |
| Search.AttachExtrasSucceeds | src/search.py:25-28 | the loop completes exactly when no lookup raises |
| Search.AttachExtrasRecords | src/search.py:25-28 | a completed loop gives one record per URL, in order, with the URL unchanged and the lookup result attached when truthy |
| Search.AttachExtrasStopsAtFailure | src/search.py:25-26 | a loop that raises does so at its last lookup, and every earlier lookup returned |
| Search.AfterSearch | src/search.py:23-28 | the search request comes first and the per-URL lookups follow; an `extract_urls` error stops the run there |
| Search.SearchRun | src/search.py:16-31 | a missing input file raises before any request; a missing key raises before any request; otherwise the search page is requested first with the encoded params and the input's proxies, every later request is a lookup with those proxies, and every written URL is on github.com |
| Search.SearchRunRecords | src/search.py:24-31 | a successful run writes one record per extracted URL, in order, each followed by exactly one lookup |
| Search.StubbedLookupAttachesToAll | tests/test_search.py:26-35 | with a lookup stub returning a fixed truthy dict, the run succeeds exactly when URL extraction does, and every record carries the stub |
| Search.ScraperLookup | src/search.py:26 | the lookup raises what `extract_extra_info` raises on the fetched page, gives `None` when it does, and otherwise the dict of the found extra |
| Search.KeptOfPage | src/search.py:26-28 | a found extra is truthy, so it is attached exactly when the page has the "Languages" string, and it names the owner from the URL |
| Search.ScraperLookupKept | src/scraper.py:104-123 | with the scraper's own lookup, a URL gets an extra exactly when its page has a "Languages" string in the sidebar, naming the owner from the URL |
| Search.ScraperLookupRecords | src/search.py:24-28 | in a successful run with the scraper's lookup, each record has an extra exactly when its page has the "Languages" string |
| Search.AsWrittenSitesNeverBind | src/search.py:22-26 | documents the call-site table: none of the calls `GitHub(proxies=…)`, `request_page_html(url=…, params=…)` or `extract_extra_info(url)` binds to its signature |
| Search.CorrectedSitesBind | src/search.py:22-26 | documents the call-site table: each corrected call binds and differs from the one as written only in `proxies` |
| Search.MainAsWritten | src/search.py:16-22 | `main` as written makes no request |
| Search.MainAsWrittenAlwaysRaises | src/search.py:22 | for every complete input, `main` as written raises `TypeError` at `GitHub(…)` |
| SearchExamples.SearchRunOfTest | tests/test_search.py:13-35 | the test's run: the search request with keyword `python` and no proxies, one lookup per result URL, and two records each carrying `{"owner": ""}` |
| SearchExamples.MainAsWrittenOfTest | tests/test_search.py:26-32 | on the test's input, `main` as written raises `TypeError` before any request, so the log line the test expects is never written |

## Left out

- The pacer loop (src/scraper.py:74-75, 87) is left out. It reads the wall clock and sleeps, and resets to "now" after each request, so it never delays.
- The cached session (src/scraper.py:60-64) is left out: `requests_cache.CachedSession`, the TTL choice and the cache directory. They are library-managed disk and network state. `Fetcher.RequestPageHtml` takes the session as a function from request to response.
- The header bundle and the HTTP GET (src/scraper.py:16-39, 82) are transport only. `requests` encodes the already-encoded `q` a second time; that is library behaviour.
- `GitHub.close` (src/scraper.py:68-69) and `github.close()` (src/search.py:29) are left out, because they only release the session.
- `secrets.choice` is left out as randomness. It is the `pick` parameter of `Proxies.SelectProxy`, taken modulo the list length, so any member can be chosen.
- Parsing HTML text is left out: BeautifulSoup with lxml, and the text-level part of `SoupStrainer`. The model works on the parsed tree; the parser is a parameter (`parse`) of `Search.SearchRun`.
- Comments, doctypes and other non-element, non-text nodes of a bs4 tree are left out; the model's tree has elements and text only.
- Logging, argparse, reading and decoding the input JSON, and writing the output JSON are I/O. `Search.SearchRun` takes the input's existence and its decoded content as parameters and returns the records that would be written. src/settings.py is not part of this model.
- JSON values of the wrong type in the input file are left out. The model's `InputData` holds keyword and proxy lists of strings and a string type; a missing key is `None`.
- `urlparse` is covered only as far as `extract_extra_info` uses it:
  - left out are the NFKC netloc check for non-ASCII host names and bracket validation beyond the unbalanced-bracket `ValueError`;
  - `UrlParse.UrlPath` gives the path of any URL;
  - the detailed path lemma (`UrlParse.PathOfAbsoluteUrl`) is stated for URLs whose host and path hold no delimiters.
- The `if not li or not isinstance(li, Tag): continue` guard (src/scraper.py:117-118) is not a separate branch: `find_all("li")` yields only tags, and a tag is always true.
- `Extractors.ExtractExtraInfo` does not model the page fetch: the fetched page is the parameter `page`. `Search.ScraperLookup` composes it with a fetch and a parser.
- Fetcher.RequestPageHtml: the exceptions `requests` raises in transport (a dead proxy, a failed DNS lookup, a timeout) are left out, because the session is a total function from request to response. `main` lets such an exception through.
- Search.SearchRun: for the same reason its `fetch` parameter, and the `fetchPage` parameter of `Search.ScraperLookup`, always return a page, so a transport exception cannot end the run.
- UrlEncoding.QuotePlus: Dafny characters are Unicode scalar values, so the `UnicodeEncodeError` that `quote_plus` raises on a keyword holding a lone surrogate is left out. `json.loads` accepts such a keyword, for example from `"\ud800"`.
- `Fetcher.RequestPageHtml` does not model the `logger.debug` of the chosen proxy (src/scraper.py:81). The warning record is modelled as data.

## Findings

| source | as written | input that shows it | evidently intended | confidence | as-written member | corrected member |
|---|---|---|---|---|---|---|
| src/search.py:22-26 | `GitHub(proxies=params.proxies)` passes an argument `__init__(self)` does not accept. `request_page_html(url=…, params=…)` omits the required `proxies`, and so does `extract_extra_info(url["url"])`. | any existing input file with keywords, proxies and type, e.g. `{"keywords": ["python"], "proxies": [], "type": "repositories"}`: `main` raises `TypeError` at line 22 before any request | construct `GitHub()` and pass the input's proxies to both `request_page_html` and `extract_extra_info`, so the search page is fetched and every URL is looked up | high (not executed) | Search.MainAsWritten | Search.SearchRun |
