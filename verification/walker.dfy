/**
 The category walker (`getProductsFromCategory`): pages of one category are
 fetched one after another from the start page, until the oracle says there
 is no next page, a page yields no products, or the page ceiling is passed.
 Any page that cannot be fetched, decoded or parsed discards the whole
 category.

 Fetching, decoding and parsing one page (with its two-attempt retry) is the
 abstract `load`, keyed by the page's URL; reading the product cards off a
 parsed page is the abstract `extract`.
 */
module Walker {
  import opened Wrappers
  import opened Catalog
  import opened Text
  import opened Pagination
  import opened Walks

  /** No category is walked past this page. */
  const PageCeiling: int := 100

  /** The last page walked: the caller's end page when it lies strictly between 0 and the ceiling. */
  function MaxPages(endPage: int): (cap: int)
    ensures 1 <= cap <= PageCeiling
    ensures cap <= endPage || endPage <= 0
    ensures 0 < endPage < PageCeiling ==> cap == endPage
    ensures endPage <= 0 || endPage >= PageCeiling ==> cap == PageCeiling
  {
    if 0 < endPage < PageCeiling then endPage else PageCeiling
  }

  /**
   The URL of page `pageNum` of a category: the category URL itself up to
   page 1, otherwise the URL with `PAGEN_2=<n>` added as a further (`&`) or
   first (`?`) query parameter.
   */
  function PageURL(categoryURL: string, pageNum: int): (r: string)
    ensures categoryURL <= r
    ensures r == categoryURL <==> pageNum <= 1
    ensures pageNum > 1 ==> |r| > |categoryURL| && r[|categoryURL|] == (if Contains(categoryURL, "?") then '&' else '?')
    ensures pageNum > 1 ==> r[|categoryURL| + 1..] == PageParam + Decimal(pageNum)
  {
    if pageNum > 1 then
      categoryURL + (if Contains(categoryURL, "?") then "&" else "?") + PageParam + Decimal(pageNum)
    else categoryURL
  }

  /**
   Page `pageNum` of the category: it fails to load, or yields its products
   and is the last page when the oracle sees no next page or it yields none.
   */
  function PageStep(cat: Category, pageNum: int,
                    load: string -> Result<Page, FetchError>,
                    extract: (Page, Category) -> seq<Product>): Step
  {
    match load(PageURL(cat.url, pageNum))
    case Err(e) => Failed(e)
    case Ok(page) =>
      var products := extract(page, cat);
      if !HasNextPage(page, cat.url) || |products| == 0 then Stop(products) else Next(products)
  }

  /** The outcome of every page of the category. */
  function Steps(cat: Category, load: string -> Result<Page, FetchError>,
                 extract: (Page, Category) -> seq<Product>): int -> Step
  {
    p => PageStep(cat, p, load, extract)
  }

  /** The URL of every page of the category. */
  function PageURLs(cat: Category): int -> string {
    p => PageURL(cat.url, p)
  }

  /** The walk of the category from `pageNum` to `cap`: the reference the loop is checked against. */
  function WalkFrom(cat: Category, pageNum: int, cap: int,
                    load: string -> Result<Page, FetchError>,
                    extract: (Page, Category) -> seq<Product>): Walk
  {
    Walking(Steps(cat, load, extract), PageURLs(cat), pageNum, cap)
  }

  /**
   `getProductsFromCategory`, without the semaphore and the logging. Before
   each page request the walker pauses for `delayMs`; `pauses` records those
   pauses and `fetched` the URLs requested.
   */
  method GetProductsFromCategory(cat: Category, startPage: int, endPage: int, delayMs: int,
                                 load: string -> Result<Page, FetchError>,
                                 extract: (Page, Category) -> seq<Product>)
    returns (r: Result<seq<Product>, FetchError>, ghost fetched: seq<string>, ghost pauses: seq<int>)
    ensures r == WalkFrom(cat, startPage, MaxPages(endPage), load, extract).result
    ensures fetched == WalkFrom(cat, startPage, MaxPages(endPage), load, extract).fetched
    ensures |pauses| == |fetched| && forall k :: 0 <= k < |pauses| ==> pauses[k] == delayMs
  {
    var cap := MaxPages(endPage);
    ghost var whole := WalkFrom(cat, startPage, cap, load, extract);
    var all: seq<Product> := [];
    var pageNum := startPage;
    fetched, pauses := [], [];
    PrependNothing(WalkFrom(cat, pageNum, cap, load, extract));
    while pageNum <= cap
      invariant whole == Prepend(all, fetched, WalkFrom(cat, pageNum, cap, load, extract))
      invariant |pauses| == |fetched| && forall k :: 0 <= k < |pauses| ==> pauses[k] == delayMs
      decreases cap - pageNum
    {
      var url := PageURL(cat.url, pageNum);
      pauses := pauses + [delayMs];
      ghost var before := fetched;
      fetched := fetched + [url];
      var loaded := load(url);
      WalkFromUnfolds(cat, pageNum, cap, load, extract);
      if loaded.Err? {
        assert PageStep(cat, pageNum, load, extract) == Failed(loaded.error);
        PrependAssoc(all, before, [], [url], Walk(Err(loaded.error), []));
        r := Err(loaded.error);
        return;
      }
      var products := extract(loaded.value, cat);
      var hasNext;
      ghost var consulted;
      hasNext, consulted := DetectNextPage(loaded.value, cat.url);
      ghost var allBefore := all;
      all := all + products;
      if !hasNext || |products| == 0 {
        assert PageStep(cat, pageNum, load, extract) == Stop(products);
        PrependAssoc(allBefore, before, products, [url], Walk(Ok([]), []));
        r := Ok(all);
        return;
      }
      assert PageStep(cat, pageNum, load, extract) == Next(products);
      PrependAssoc(allBefore, before, products, [url], WalkFrom(cat, pageNum + 1, cap, load, extract));
      pageNum := pageNum + 1;
    }
    assert WalkFrom(cat, pageNum, cap, load, extract) == Walk(Ok([]), []);
    assert all + [] == all && fetched + [] == fetched;
    r := Ok(all);
  }

  /** A walk that has not passed its last page starts with the page at `pageNum`. */
  lemma WalkFromUnfolds(cat: Category, pageNum: int, cap: int,
                        load: string -> Result<Page, FetchError>,
                        extract: (Page, Category) -> seq<Product>)
    requires pageNum <= cap
    ensures var url := PageURL(cat.url, pageNum);
      WalkFrom(cat, pageNum, cap, load, extract) ==
        match PageStep(cat, pageNum, load, extract)
        case Failed(e) => Walk(Err(e), [url])
        case Stop(products) => Walk(Ok(products), [url])
        case Next(products) => Prepend(products, [url], WalkFrom(cat, pageNum + 1, cap, load, extract))
  {
    assert Steps(cat, load, extract)(pageNum) == PageStep(cat, pageNum, load, extract);
    assert PageURLs(cat)(pageNum) == PageURL(cat.url, pageNum);
  }

  // ---------------------------------------------------------------------------
  // What a walk does
  // ---------------------------------------------------------------------------

  /** The page at `pageNum` loads and the walk goes on past it. */
  predicate ContinuesAt(cat: Category, pageNum: int,
                        load: string -> Result<Page, FetchError>,
                        extract: (Page, Category) -> seq<Product>)
  {
    Steps(cat, load, extract)(pageNum).Next?
  }

  /** A walk goes on past a page exactly when it loads, yields products, and the oracle sees a next page. */
  lemma ContinuesAtIff(cat: Category, pageNum: int,
                       load: string -> Result<Page, FetchError>,
                       extract: (Page, Category) -> seq<Product>)
    ensures ContinuesAt(cat, pageNum, load, extract) <==>
      var loaded := load(PageURL(cat.url, pageNum));
      loaded.Ok? && |extract(loaded.value, cat)| > 0 && HasNextPage(loaded.value, cat.url)
  {
    assert Steps(cat, load, extract)(pageNum) == PageStep(cat, pageNum, load, extract);
  }

  /**
   A walk requests consecutive pages from its first one, never more than
   the pages up to the ceiling, and at least one when it starts at or below
   it.
   */
  lemma WalkFetchesConsecutivePages(cat: Category, pageNum: int, cap: int,
                                    load: string -> Result<Page, FetchError>,
                                    extract: (Page, Category) -> seq<Product>)
    ensures var w := WalkFrom(cat, pageNum, cap, load, extract);
      && |w.fetched| <= (if pageNum <= cap then cap - pageNum + 1 else 0)
      && (pageNum <= cap ==> |w.fetched| >= 1)
      && forall k :: 0 <= k < |w.fetched| ==> w.fetched[k] == PageURL(cat.url, pageNum + k)
  {
    WalkingFetchesConsecutivePages(Steps(cat, load, extract), PageURLs(cat), pageNum, cap);
  }

  /** Every page of a walk but the last one it requested loaded, yielded products and had a successor. */
  lemma WalkContinuesBeforeLast(cat: Category, pageNum: int, cap: int,
                                load: string -> Result<Page, FetchError>,
                                extract: (Page, Category) -> seq<Product>)
    ensures var w := WalkFrom(cat, pageNum, cap, load, extract);
      forall p :: pageNum <= p < pageNum + |w.fetched| - 1 ==> ContinuesAt(cat, p, load, extract)
  {
    WalkingContinuesBeforeLast(Steps(cat, load, extract), PageURLs(cat), pageNum, cap);
  }

  /** The last page a walk requested failed, ended the walk, or was the ceiling. */
  lemma WalkLastStops(cat: Category, pageNum: int, cap: int,
                      load: string -> Result<Page, FetchError>,
                      extract: (Page, Category) -> seq<Product>)
    ensures var w := WalkFrom(cat, pageNum, cap, load, extract);
      |w.fetched| > 0 ==> !ContinuesAt(cat, pageNum + |w.fetched| - 1, load, extract) || pageNum + |w.fetched| - 1 == cap
  {
    WalkingLastStops(Steps(cat, load, extract), PageURLs(cat), pageNum, cap);
  }

  /** The products of `n` pages from `pageNum`, in page order; a page that fails contributes none. */
  function ProductsOfPages(cat: Category, pageNum: int, n: nat,
                           load: string -> Result<Page, FetchError>,
                           extract: (Page, Category) -> seq<Product>): seq<Product>
  {
    ProductsOf(Steps(cat, load, extract), pageNum, n)
  }

  /** A walk that fails reports the error of loading the last page it requested. */
  lemma WalkFailure(cat: Category, pageNum: int, cap: int,
                    load: string -> Result<Page, FetchError>,
                    extract: (Page, Category) -> seq<Product>)
    ensures var w := WalkFrom(cat, pageNum, cap, load, extract);
      w.result.Err? ==>
        |w.fetched| > 0 && load(PageURL(cat.url, pageNum + |w.fetched| - 1)) == Err(w.result.error)
  {
    var w := WalkFrom(cat, pageNum, cap, load, extract);
    WalkingResult(Steps(cat, load, extract), PageURLs(cat), pageNum, cap);
    var last := pageNum + |w.fetched| - 1;
    assert Steps(cat, load, extract)(last) == PageStep(cat, last, load, extract);
  }

  /** A walk that succeeds returns the products of every page it requested, in page order. */
  lemma WalkProducts(cat: Category, pageNum: int, cap: int,
                     load: string -> Result<Page, FetchError>,
                     extract: (Page, Category) -> seq<Product>)
    ensures var w := WalkFrom(cat, pageNum, cap, load, extract);
      w.result.Ok? ==> w.result.value == ProductsOfPages(cat, pageNum, |w.fetched|, load, extract)
  {
    WalkingResult(Steps(cat, load, extract), PageURLs(cat), pageNum, cap);
  }

  /**
   However the pages answer, a category costs at most one request per page
   from the start page to `MaxPages(endPage)`; walked from page 1 or later
   that is never more than the ceiling, and with an end page at most the
   pages from the start page to it. The start page is not checked, so a
   start page below 1 buys extra requests (see `StartPageZeroPassesCeiling`).
   */
  lemma PageRequestsBounded(cat: Category, startPage: int, endPage: int,
                            load: string -> Result<Page, FetchError>,
                            extract: (Page, Category) -> seq<Product>)
    ensures var w := WalkFrom(cat, startPage, MaxPages(endPage), load, extract);
      && |w.fetched| <= (if startPage <= MaxPages(endPage) then MaxPages(endPage) - startPage + 1 else 0)
      && (startPage >= 1 ==> |w.fetched| <= MaxPages(endPage) <= PageCeiling)
      && (endPage > 0 ==> |w.fetched| <= (if endPage >= startPage then endPage - startPage + 1 else 0))
  {
    WalkFetchesConsecutivePages(cat, startPage, MaxPages(endPage), load, extract);
  }

  /**
   With start page 0 and no end page, a category whose every page yields
   products and links to a numbered page costs 101 requests, one more than
   the ceiling, and the first two both request the category URL itself.
   */
  lemma StartPageZeroPassesCeiling(cat: Category,
                                   load: string -> Result<Page, FetchError>,
                                   extract: (Page, Category) -> seq<Product>)
    requires !Contains(cat.url, PageParam)
    requires forall p :: 0 <= p <= PageCeiling ==> LinksToNumberedPage(cat, p, load, extract)
    ensures var w := WalkFrom(cat, 0, MaxPages(0), load, extract);
      && |w.fetched| == PageCeiling + 1
      && w.fetched[0] == cat.url && w.fetched[1] == cat.url
  {
    NumberedLinksWalkToCeiling(cat, 0, PageCeiling, load, extract);
    WalkFetchesConsecutivePages(cat, 0, PageCeiling, load, extract);
  }

  // ---------------------------------------------------------------------------
  // Page URLs and the oracle
  // ---------------------------------------------------------------------------

  /**
   The page number heuristic 3 reads back from a page URL is the number it
   was built with, provided the category URL carries no page number of its
   own; pages up to 1 are the category URL itself.
   */
  lemma {:induction false} PageURLRoundTrip(categoryURL: string, pageNum: int)
    requires !Contains(categoryURL, PageParam)
    ensures pageNum <= 1 ==> PageURL(categoryURL, pageNum) == categoryURL
    ensures 1 < pageNum <= MaxInt64 ==> PageNumberIn(PageURL(categoryURL, pageNum)) == Some(pageNum)
  {
    if 1 < pageNum <= MaxInt64 {
      var sepChar := if Contains(categoryURL, "?") then '&' else '?';
      var digits := Decimal(pageNum);
      var url := PageURL(categoryURL, pageNum);
      assert url == categoryURL + [sepChar] + PageParam + digits;
      assert sepChar !in PageParam;
      SplitAtPattern(categoryURL, sepChar, PageParam, digits);
      NoCharNoContains(digits, PageParam);
      assert Split(digits, PageParam) == [digits];
      NoCharNoContains(digits, "&");
      assert Split(digits, "&") == [digits];
      AtoiDecimal(pageNum);
    }
  }

  /**
   Because heuristic 3 compares links with the category URL, a walk over a
   category URL without a page number goes on past every page that yields
   products and links to any numbered page, even one before it. When every
   page of the range does so, the walk requests every page up to the ceiling.
   */
  lemma {:induction false} NumberedLinksWalkToCeiling(cat: Category, pageNum: int, cap: int,
                                                      load: string -> Result<Page, FetchError>,
                                                      extract: (Page, Category) -> seq<Product>)
    requires !Contains(cat.url, PageParam)
    requires forall p :: pageNum <= p <= cap ==> LinksToNumberedPage(cat, p, load, extract)
    ensures var w := WalkFrom(cat, pageNum, cap, load, extract);
      w.result.Ok? && |w.fetched| == (if pageNum <= cap then cap - pageNum + 1 else 0)
    decreases cap - pageNum + 1
  {
    if pageNum <= cap {
      assert LinksToNumberedPage(cat, pageNum, load, extract);
      var url := PageURL(cat.url, pageNum);
      var page := load(url).value;
      var i :| 0 <= i < |page.links| &&
               var href := Attr(page.links[i], "href"); href.Some? && Contains(href.value, PageParam);
      AnyNumberedLinkContinues(page, cat.url, i);
      NumberedLinksWalkToCeiling(cat, pageNum + 1, cap, load, extract);
      var rest := WalkFrom(cat, pageNum + 1, cap, load, extract);
      assert WalkFrom(cat, pageNum, cap, load, extract) == Prepend(extract(page, cat), [url], rest);
    }
  }

  /** Page `p` of the category loads, yields products, and links to some numbered page. */
  predicate LinksToNumberedPage(cat: Category, p: int,
                                load: string -> Result<Page, FetchError>,
                                extract: (Page, Category) -> seq<Product>)
  {
    && load(PageURL(cat.url, p)).Ok?
    && |extract(load(PageURL(cat.url, p)).value, cat)| > 0
    && exists i :: 0 <= i < |load(PageURL(cat.url, p)).value.links| &&
         var href := Attr(load(PageURL(cat.url, p)).value.links[i], "href");
         href.Some? && Contains(href.value, PageParam)
  }
}
