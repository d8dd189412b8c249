# stanki.ru catalog scraper — a Dafny model of its decision logic

The scraper (`main.go`) harvests the product catalog of www.stanki.ru. It
runs in five steps:

1. It finds the categories to walk. Either it discovers them from the
   links of the catalog page, or it reads them from a comma-separated
   `-categories` list. A `-limit` can cut the list.
2. It walks the numbered pages of every category. A five-heuristic
   pagination oracle decides whether a page has a successor.
3. It gathers the products the walkers deliver.
4. It removes duplicates by product ID.
5. It enriches every product that still lacks a description or features
   from the product's own page.

Every network request goes through a retry loop with a linear backoff. Every
page body is re-decoded as Windows-1251 when it holds the UTF-8 replacement
character.

This project models that logic with the HTTP client, the HTML parser and the
goroutines taken out:

- The network is a sequence of attempt outcomes (`nat -> Attempt`).
- A parsed page is a record of the elements the heuristics look at
  (`Pagination.Page`, `Details.DetailPage`).
- Loading a category page (fetch, retry, decode, parse) is an abstract
  function of its URL.
- Reading product cards off a page is an abstract function of the page.
- Pauses are recorded as ghost traces.
- Where the source's output order depends on goroutine scheduling or Go map
  iteration, the model states what holds for every order.

Modules, in dependency order:

- `Wrappers`: `Option` and `Result`.
- `Catalog`: `Product`, `Category`, `Element`, `FetchError`, the site
  constants.
- `Text`: the `strings`/`strconv` primitives the decisions rest on, over
  Unicode scalar values: `Index`, `Contains`, `Split`, `Join`,
  `TrimSpace`, `ToLower`, `Atoi`, decimal rendering.
- `Fetcher`: `doRequestWithRetry` and the status check.
- `Encoding`: the charset choice of `getUTF8Reader` and UTF-8 byte lengths.
- `Pagination`: the five heuristics and their cascade.
- `Walks`: a walk over numbered pages for any per-page outcome.
- `Walker`: page URLs and `getProductsFromCategory`.
- `Categories`: catalog discovery, the de-duplication by URL, the
  command-line list, the limit.
- `Dedupe`: `removeDuplicateProducts`.
- `Details`: `getProductDetails`.
- `Enrichment`: `enrichProductsWithDetails`, `maxNum`, the progress step.
- `Harvest`: the run as `main` puts it together.

## Model

| member | source | states |
|---|---|---|
| Fetcher.DoRequestWithRetry | main.go:249-264 | at most `maxRetries` attempts (none when it is not positive); success iff some attempt within the bound got a response, and then the response of the first such attempt; every earlier attempt failed, each followed by a pause `delayMs*(i+1)`; on failure exactly `maxRetries` attempts and pauses, with an error carrying `maxRetries` and the last transport error |
| Fetcher.CheckStatus | main.go:274-276 | the body is passed on iff the fetch succeeded with status 200; a fetch error passes through unchanged; any other status becomes `BadStatus` with that code |
| Fetcher.FetchedFirstResponse | main.go:249-264 | when attempt `i` is within the bound, got a response, and every earlier attempt failed, the fetch yields that response |
| Fetcher.FetchBody | main.go:249-276 | the fetch and status check together: the first response decides, giving its body when its status is 200 and `BadStatus` with its code otherwise; when every attempt fails, the exhaustion error with the last transport error; a body is only ever that of a first response with status 200 |
| Encoding.ChooseCharset | main.go:654-657 | Windows-1251 exactly when the bytes contain EF BF BD, the sniffed charset otherwise; the second `Contains` test never changes the outcome |
| Encoding.ReplacementCharForcesFallback | main.go:655-657 | text that holds U+FFFD is always re-decoded as Windows-1251, whatever was sniffed |
| Encoding.ByteLengthBounds | main.go:302 | Go's byte length of a name lies between its number of characters and four times that |
| Pagination.DetectNextPage | main.go:463-578 | the flag-guarded cascade answers "more" iff some heuristic 1-5 fires; it stops at the first one that fires, and every heuristic before that one said no |
| Pagination.ButtonsHeuristic | main.go:467-483 | heuristic 1: some pagination button has a `data-pagination-button` or `data-pagination-more` target naming a numbered page, or a class containing `button_next` with an empty `disabled` attribute |
| Pagination.PagerItemSignalsNext | main.go:487-517 | heuristic 2, one element: not disabled, and its lower-cased trimmed text contains "след", "next" or "показать еще", or its class contains "next", "button_next" or "modern-page-next", or its href names a numbered page |
| Pagination.PagerItemClassTestsRedundant | main.go:487-517 | an enabled pager element votes "more" iff its text says next, its class contains "next" or its href names a numbered page; the `button_next` and `modern-page-next` class tests are subsumed |
| Pagination.LinkSignalsNext | main.go:520-552 | heuristic 3, one link: its href names a numbered page and either the category URL has no page number, or both numbers read with `Atoi` and the link's is larger |
| Pagination.LinkSignalsNextIff | main.go:520-552 | a link votes "more" iff its href has `PAGEN_2=`, and either the category URL has none, or both page numbers parse and the link's is strictly larger |
| Pagination.AnyNumberedLinkContinues | main.go:545-549 | on a category URL without a page number, any link to a numbered page makes the oracle answer "more" |
| Pagination.CounterHeuristic | main.go:555-566 | heuristic 4: the rendered page holds "NavPageNomer" and "NavPageCount" but not "NavPageNomer=NavPageCount"; a render error never fires |
| Pagination.AjaxHeuristic | main.go:569-578 | heuristic 5: some script mentions both "bxajaxid" and "pagen" |
| Walks.WalkingFetchesConsecutivePages | main.go:340-391 | a walk requests consecutive pages from its first one, at least one and at most `cap - pageNum + 1` when it starts at or below the cap, none otherwise |
| Walks.WalkingContinuesBeforeLast | main.go:385-390 | every page requested before the last went on to its successor |
| Walks.WalkingLastStops | main.go:340-391 | the last page requested failed, was a last page, or was the cap |
| Walks.WalkingResult | main.go:356-393 | a failed walk reports the failure of its last page; a successful one returns the products of all its pages, concatenated in page order |
| Walker.MaxPages | main.go:331-337 | the page cap is the end page when it lies strictly between 0 and 100, and 100 otherwise |
| Walker.PageURL | main.go:342-349 | pages up to 1 use the category URL itself; a later page appends "&" when the category URL already holds "?" and "?" otherwise, then `PAGEN_2=` and the page number in decimal |
| Walker.PageStep | main.go:351-388 | one page of the walk: a load failure fails the walk; otherwise the page's products, and the walk stops when the oracle sees no next page or the page has no products |
| Walker.GetProductsFromCategory | main.go:326-394 | the loop returns what the reference walk of the category returns, requests exactly the reference walk's URLs, and pauses `delayMs` before each request |
| Walker.ContinuesAtIff | main.go:377-388 | the walk goes on past a page iff the page loads, yields products and the oracle sees a next page |
| Walker.WalkFetchesConsecutivePages | main.go:340-349 | request `k` of a category walk is the page URL of `pageNum + k`; a walk starting at or below the cap makes between 1 and `cap - pageNum + 1` requests, one starting above it makes none |
| Walker.WalkContinuesBeforeLast | main.go:385-390 | every page before the last one requested loaded, yielded products and had a successor |
| Walker.WalkLastStops | main.go:385-391 | the last page requested failed, ended the walk, or was the cap |
| Walker.WalkFailure | main.go:356-374 | a failed walk carries the load error of the last page it requested, and no products |
| Walker.WalkProducts | main.go:377-393 | a successful walk returns the products of every page it requested, in page order |
| Walker.PageRequestsBounded | main.go:331-340 | for every start page, a walk makes at most `MaxPages(endPage) - startPage + 1` requests (none from past the cap); from a start page of 1 or more that is at most `MaxPages(endPage)` ≤ 100; with a positive end page at most `endPage - startPage + 1` |
| Walker.StartPageZeroPassesCeiling | main.go:331-349 | the start page is not checked: from page 0 with no end page, a category whose pages all yield products and link to a numbered page costs 101 requests, and pages 0 and 1 both request the category URL |
| Walker.PageURLRoundTrip | main.go:342-349 | pages up to 1 use the category URL itself; for a category URL without a page number, the number heuristic 3 reads back from page `n`'s URL is `n`, for every `n` from 2 up to the largest 64-bit integer |
| Walker.NumberedLinksWalkToCeiling | main.go:545-549 | when every page of the range yields products and links to some numbered page, the walk succeeds and requests every page up to the cap |
| Categories.CategoryFromLink | main.go:293-309 | the link filter: an href under `/catalog/` containing "_" and not ".html", and a trimmed text that is non-empty and shorter than 100 bytes, give the category named by the text at the site URL of the href |
| Categories.CategoryFromLinkWellFormed | main.go:293-309 | a category that passes the link filter has a non-empty trimmed name of fewer than 100 UTF-8 bytes, and a site URL whose path is under `/catalog/`, contains "_" and does not contain ".html" |
| Categories.DiscoveredFromLink | main.go:293-309 | every discovered category comes from a link that passes the filter |
| Categories.LinkDiscovered | main.go:293-309 | every link that passes the filter contributes its category |
| Categories.UniqueCategories | main.go:311-320 | the kept categories are, at increasing input positions, each the first with its URL; their URLs are pairwise distinct and are exactly the input's URLs |
| Categories.GetCategories | main.go:267-323 | a transport failure gives the fetch error, and three failed attempts the exhaustion error; a first response with a status other than 200 gives `BadStatus` with that code; the body is decoded with the charset `getUTF8Reader` chooses, and a decode or parse error passes through; otherwise the result is the de-duplication by URL of the categories the links name (each the first with its URL, in link order, covering every URL), all well-formed and with pairwise distinct URLs |
| Categories.LastNonEmpty | main.go:119-128 | the backward scan finds the last non-empty piece, and finds none exactly when every piece is empty |
| Categories.NameFromURL | main.go:116-128 | a command-line name holds no "_"; it is empty exactly when the URL is made only of slashes, and otherwise it is the last "/"-free segment followed only by slashes, with "_" replaced by " " |
| Categories.LastSegmentUnique | main.go:119-128 | a URL has at most one last non-empty segment, so the name the scan picks is determined by the URL |
| Categories.LastPieceInJoin | main.go:117-128 | when piece `k` of a "/"-split is the last non-empty one, it is the URL's last segment |
| Categories.CategoriesFromList | main.go:105-138 | every non-blank entry of the comma-separated list yields the category named after its trimmed URL, and every category yielded is that of some entry; each has a non-empty trimmed URL; there are no more categories than entries |
| Categories.EntryNamed | main.go:109-135 | a non-blank entry contributes the category of its trimmed URL |
| Categories.NamedFromEntry | main.go:109-135 | each category read is a well-formed command-line category of some entry |
| Categories.CategoriesFromListRoundTrip | main.go:105-135 | for any comma-free entries joined with ",", the list reads back as the categories of the non-blank entries, trimmed, in entry order |
| Categories.TakeLimit | main.go:148-151 | the kept categories are a prefix of the list, of length `limit` when `0 < limit < n`, of the whole list otherwise |
| Dedupe.DedupeMap | main.go:1010-1020 | the map built by the first loop: each key is a non-empty ID mapped to a product carrying it, and there are no more keys than products |
| Dedupe.DedupeMapKeys | main.go:1013-1020 | the map holds an ID iff it is non-empty and some product carries it |
| Dedupe.DedupeMapLastWins | main.go:1013-1020 | the map sends each ID to the last product carrying it |
| Dedupe.BuildMap | main.go:1007-1020 | the first loop builds the last-wins map of non-empty IDs |
| Dedupe.ReadOut | main.go:1043-1046 | reading the map out in any order lists each entry once, one product per key |
| Dedupe.RemoveDuplicateProducts | main.go:1005-1049 | the result has non-empty, pairwise distinct IDs and is no longer than the input; each product is the last input product with its ID; every non-empty input ID is represented |
| Dedupe.DedupeIdempotent | main.go:1005-1049 | a second de-duplication gives the same products as the first, in whatever order either yields |
| Dedupe.LaterDuplicateWins | main.go:1013-1020 | of two products with ID "42" and one without an ID, only the second "42" is kept |
| Details.PageDescriptionChoice | main.go:621-629 | the description is trimmed; it is the first of the three selectors' trimmed texts that is non-empty, the third one's when the first two are blank, and empty iff all three are blank |
| Details.IdSegmentPanicsWithoutSlash | main.go:615-619 | on a URL without "/" the guard `len(parts) > 0` lets through an index of -1 |
| Details.IdSegmentAgrees | main.go:615-619 | on URLs with a "/" the guarded ID reading agrees with the source's |
| Details.IdSegmentOfSegments | main.go:615-619 | a URL made of "/"-free segments yields its second-to-last segment as ID |
| Details.GetProductDetails | main.go:586-640 | pauses `delayMs` first; a transport failure gives the fetch error, and two failed attempts the exhaustion error; a first response with a status other than 200 gives `BadStatus` with that code; a decode or parse error passes through; otherwise the details are the URL's ID slot, the page description and the non-blank feature texts, trimmed, in page order; success needs a first response with status 200 |
| Enrichment.MaxNum | main.go:1052-1057 | the result is one of the two arguments and no smaller than either |
| Enrichment.ProgressStep | main.go:813 | the progress step is at least 1, so `processed % batchSize` never divides by zero; it is 1 below 40 products and n/20 rounded down from 20 products on |
| Enrichment.Merge | main.go:861-868 | the best-effort merge: each fetched field replaces the product's only when it is non-empty |
| Enrichment.EnrichOne | main.go:839-871 | one product's fate: skipped when it has features and a description, unchanged with the error when the fetch fails, merged otherwise |
| Enrichment.Count | main.go:781-791 | the counters after one product: a skip adds to `skipped`; an enrichment to `processed` and `enriched`; an error to `processed`, `errors` and the error tally |
| Enrichment.EnrichOneSpec | main.go:839-871 | a product is skipped iff it has features and a description; a failed fetch leaves it unchanged; otherwise each fetched field replaces its own only when non-empty; ID, name, URL, price, image and category never change |
| Enrichment.MergeNeverLoses | main.go:861-868 | a non-empty description or feature list stays non-empty |
| Enrichment.MergeIdempotent | main.go:861-868 | merging the same details twice is merging them once |
| Enrichment.CompletePageCompletesProduct | main.go:839-868 | details with both fields complete the product, so it is skipped next time |
| Enrichment.EnrichAllAt | main.go:837-875 | result `i` of the batch is product `i`'s own fate |
| Enrichment.Dispatch | main.go:837-875 | what is sent is each product's fate in input order; skipped + enriched + errors = n; processed = enriched + errors; the skip count is the number of products that already had details; the error log holds the errors of the products whose fetch failed |
| Enrichment.EnrichProductsWithDetails | main.go:762-898 | the written-back list has the input's length and is a permutation of the per-product results; the counters account for every product once |
| Enrichment.Drain | main.go:884-887 | the collector receives exactly what was sent, as a multiset |
| Harvest.HarvestedSingle | main.go:169-177 | a category whose walk fails contributes nothing; one whose walk succeeds contributes exactly its products |
| Harvest.Collect | main.go:164-191 | the walkers send the products of every successful walk, category by category |
| Harvest.Run | main.go:147-217 | what is collected is a permutation of the harvest of the limited list; the final products have non-empty, pairwise distinct IDs; every collected ID survives; without enrichment the result lists the last-wins map; with it, the result is a permutation of the enrichment of a list of that map |
| Harvest.Finish | main.go:195-217 | de-duplication then optional enrichment keeps IDs non-empty, distinct and covering the collected ones; without enrichment the result lists the last-wins map, with it the result is a permutation of the enrichment of such a list |
| Harvest.EnrichUnique | main.go:200-213 | enriching a de-duplicated list gives a permutation of the per-product results, of the same length and with the same IDs, still distinct |
| Harvest.PermutationKeepsIds | main.go:892-898 | a permutation of products with distinct non-empty IDs has the same IDs, still distinct |
| Text.SplitJoin | main.go:107 | splitting a ","-joined list of comma-free pieces gives the pieces back |
| Text.Split | main.go:107 | `strings.Split`: at least one piece, no piece holds the separator, joining the pieces with it gives the input back, and one piece exactly when the separator does not occur |
| Text.TrimSpace | main.go:301 | `strings.TrimSpace`: white space, as Go's `unicode.IsSpace` defines it, removed from both ends |
| Text.TrimSpaceSlice | main.go:301 | `strings.TrimSpace` keeps a slice of its input and drops only white space around it |
| Text.TrimSpaceTrimmed | main.go:301 | what `strings.TrimSpace` returns neither starts nor ends with white space |
| Text.TrimSpaceIdempotent | main.go:301 | trimming twice is trimming once |
| Text.NonBlank | main.go:109-113 | the non-blank pieces, trimmed, in order: no more than the input |
| Text.NonBlankClean | main.go:109-113 | every kept piece is non-empty and trimmed |
| Text.NonBlankKeeps | main.go:109-113 | every piece that is not blank is kept, trimmed |
| Text.NonBlankFromPieces | main.go:109-113 | everything kept is some piece, trimmed |
| Text.NonBlankConcat | main.go:109-113 | dropping blanks distributes over concatenation, so the kept pieces keep their input order |
| Text.NonBlankIdempotent | main.go:632-637 | dropping blanks twice is dropping them once |
| Text.ToLower | main.go:493 | `strings.ToLower` on the letters modelled: same length, every capital replaced by its small letter (A-Z and А-Я up by 0x20, Ѐ-Џ up by 0x50), no capital left, every other character unchanged |
| Text.ToLowerKeywords | main.go:493-506 | "СЛЕД", "NEXT" and "ПОКАЗАТЬ ЕЩЕ" lower-case to the spellings the heuristic-2 text tests look for; "Показать ещё" lower-cases to "показать ещё" (ё, U+0451), which does not contain the tested "показать еще" (е, U+0435), so that label does not fire the text test |
| Text.AtoiDecimal | main.go:342-349 | `strconv.Atoi` reads back the page number `fmt.Sprintf("%d")` wrote |
| Text.AtoiSigned | main.go:528-537 | a "+" or "-" in front of the decimal digits of `n` reads as `n` or `-n` |
| Text.AtoiOutOfRange | main.go:528-537 | digits past the 64-bit range are an error, except that "-" with the digits of 2^63 reads as the smallest `int` |
| Text.AtoiLeadingZero | main.go:528-537 | a leading zero in front of digits leaves the value read unchanged |
| Text.Atoi | main.go:528-537 | `strconv.Atoi`: an accepted string is a "+" or "-" followed by at least one digit, or digits only, and its value fits a 64-bit `int` |

## Left out

- Network, HTTP client and body reading: the network is a sequence of attempt outcomes, and a page load is an abstract function of its URL. A consequence: two requests for the same URL get the same answer, so in `Walker.StartPageZeroPassesCeiling` pages 0 and 1 (both the bare category URL) necessarily load alike, where the real site may answer the two requests differently.
- HTML parsing and the product-card selectors of `extractProductsFromPage` (main.go:401-455): product extraction is the abstract `extract`, and a parsed page is the record of what the heuristics read. A consequence: `extract` sees only that record, so two pages whose records agree (same buttons, pager items, links, scripts and rendered source) yield the same products.
- Charset sniffing and Windows-1251 decoding are foreign library calls. Only the choice between them is modelled.
- `cases.Title(language.Russian)` (main.go:125): `NameFromURL` returns the name before title-casing.
- Text.ToLower: covers ASCII and Cyrillic U+0400-042F only, not all of Unicode's case mappings.
- The walker does not check the page status: a non-200 page is parsed like any other. This is the source's behaviour and is kept. A status failure reaches `load` only as whatever the parse yields.
- Pagination.LinkSignalsNext compares links with the category URL, as the source does, not with the URL of the page being read. `NumberedLinksWalkToCeiling` states the consequence.
- A `doc.Html()` render error in heuristic 4 is the page's `html` field being `None`.
- Goroutines, semaphores, the WaitGroup, the mutex and the channels. The pipeline is sequential. Arrival order is left open and stated through multisets and permutations.
- No validation of `-start-page` (main.go:65): the source does none, so the 100-page ceiling holds only from page 1 on. A start page below 1 requests the category URL more than once and can pass the ceiling. The model keeps that behaviour; `Walker.PageRequestsBounded` states the bound that holds for every start page and `Walker.StartPageZeroPassesCeiling` the overrun.
- Harvest.Run: the collected order is any permutation of the per-category harvest. This over-approximates the interleavings goroutines can produce, which keep each category's own order.
- Enrichment.Dispatch: the error tally is a multiset of `FetchError` values rather than a map from message text to count.
- Logging, the duplicate statistics printed by `removeDuplicateProducts` (main.go:1022-1040), and the float progress, speed and ETA figures (main.go:793-807, 820-833, 900-912).
- The `time.Duration` arithmetic of the pauses: pauses are recorded as millisecond counts, with no overflow.
- `getCategories` failing stops the program (`log.Fatalf`). `Harvest.Run` starts from a category list already obtained.
- JSON and CSV output, flag parsing, and the inspection modes (`inspect.go`, `inspectPaginationOnCategory`).

## Findings

| source | as written | input that shows it | evidently intended | confidence | as-written member | corrected member |
|---|---|---|---|---|---|---|
| main.go:615-619 | the guard `len(parts) > 0` protects the read of `parts[len(parts)-2]` | a product URL without "/", e.g. "x": `strings.Split` gives one piece and the index is -1, a run-time panic. The defect is latent: `main` only passes product URLs built as `baseURL + href` (main.go:444, main.go:851), which always contain "/" | read the second-to-last piece only when there are at least two (`len(parts) >= 2`) | not executed | Details.IdSegmentPanicsWithoutSlash | Details.IdSegmentOfSegments |
