/**
 The pagination oracle: whether a category page has a successor, decided by
 five heuristics consulted in order (`extractProductsFromPage`, the part after
 the product cards). Later heuristics are consulted only while every earlier
 one has said no.
 */
module Pagination {
  import opened Wrappers
  import opened Catalog
  import opened Text

  /** The query parameter carrying the page number on the site. */
  const PageParam: string := "PAGEN_2="

  /** What the heuristics look at on a parsed category page. */
  datatype Page = Page(
    /** Elements carrying `data-pagination-button` or `data-pagination-more`. */
    buttons: seq<Element>,
    /** The `a`, `span`, `div` and `button` descendants of every pagination container found. */
    pagerItems: seq<Element>,
    /** Every `a` element of the page. */
    links: seq<Element>,
    /** The rendered page source; `None` when rendering it failed. */
    html: Option<string>,
    /** The text of every `script` element. */
    scripts: seq<string>)

  // ---------------------------------------------------------------------------
  // Heuristic 1: explicit pagination buttons
  // ---------------------------------------------------------------------------

  /** The attribute is present and points at a numbered page. */
  predicate AttrNamesPage(e: Element, name: string) {
    match Attr(e, name)
    case Some(v) => Contains(v, PageParam)
    case None => false
  }

  /** A pagination button whose target is a numbered page, or an enabled "next" button. */
  predicate ButtonSignalsNext(e: Element) {
    if AttrNamesPage(e, "data-pagination-button") || AttrNamesPage(e, "data-pagination-more") then true
    else Contains(AttrOrEmpty(e, "class"), "button_next") && AttrOrEmpty(e, "disabled") == ""
  }

  predicate ButtonsHeuristic(page: Page) {
    exists i | 0 <= i < |page.buttons| :: ButtonSignalsNext(page.buttons[i])
  }

  // ---------------------------------------------------------------------------
  // Heuristic 2: "next" controls inside pagination containers
  // ---------------------------------------------------------------------------

  /**
   An element of a pagination container that is not disabled and whose
   lower-cased text, class or link says "next". An element with a `disabled`
   attribute whose value is empty counts as enabled, as in the source.
   */
  predicate PagerItemSignalsNext(e: Element) {
    var text := ToLower(TrimSpace(e.text));
    var className := AttrOrEmpty(e, "class");
    if AttrOrEmpty(e, "disabled") != "" then false
    else
      || Contains(text, "след")
      || Contains(text, "next")
      || Contains(text, "показать еще")
      || Contains(className, "next")
      || Contains(className, "button_next")
      || Contains(className, "modern-page-next")
      || AttrNamesPage(e, "href")
  }

  predicate PagerHeuristic(page: Page) {
    exists i | 0 <= i < |page.pagerItems| :: PagerItemSignalsNext(page.pagerItems[i])
  }

  /**
   The class tests for "button_next" and "modern-page-next" are subsumed by
   the test for "next": an enabled pager element signals a next page exactly
   when its text, its class containing "next", or its link says so.
   */
  lemma PagerItemClassTestsRedundant(e: Element)
    ensures PagerItemSignalsNext(e) <==>
      && AttrOrEmpty(e, "disabled") == ""
      && (|| Contains(ToLower(TrimSpace(e.text)), "след")
          || Contains(ToLower(TrimSpace(e.text)), "next")
          || Contains(ToLower(TrimSpace(e.text)), "показать еще")
          || Contains(AttrOrEmpty(e, "class"), "next")
          || AttrNamesPage(e, "href"))
  {
    var className := AttrOrEmpty(e, "class");
    if Contains(className, "button_next") {
      assert OccursAt("button_next", "next", 7);
      ContainsTransitive(className, "button_next", "next");
    }
    if Contains(className, "modern-page-next") {
      assert OccursAt("modern-page-next", "next", 12);
      ContainsTransitive(className, "modern-page-next", "next");
    }
  }

  // ---------------------------------------------------------------------------
  // Heuristic 3: links to numbered pages
  // ---------------------------------------------------------------------------

  /**
   The page number a URL carries: the text after the first "PAGEN_2=", up to
   the next "&" (or the next "PAGEN_2="), read with `strconv.Atoi`.
   */
  function PageNumberIn(url: string): Option<int> {
    var parts := Split(url, PageParam);
    if |parts| > 1 then Atoi(Split(parts[1], "&")[0]) else None
  }

  /**
   One link's vote, in the shape of the source. It compares the link with the
   CATEGORY's URL, not with the URL of the page being read: a category URL
   without a page number makes every numbered link a vote for "more".
   */
  predicate LinkSignalsNext(link: Element, categoryURL: string) {
    match Attr(link, "href")
    case None => false
    case Some(href) =>
      if !Contains(href, PageParam) then false
      else if Contains(categoryURL, PageParam) then
        var currentParts := Split(categoryURL, PageParam);
        if |currentParts| > 1 then
          var current := Atoi(Split(currentParts[1], "&")[0]);
          var nextParts := Split(href, PageParam);
          if |nextParts| > 1 then
            var next := Atoi(Split(nextParts[1], "&")[0]);
            current.Some? && next.Some? && next.value > current.value
          else false
        else false
      else true
  }

  predicate LinksHeuristic(page: Page, categoryURL: string) {
    exists i | 0 <= i < |page.links| :: LinkSignalsNext(page.links[i], categoryURL)
  }

  /**
   A link votes for "more" exactly when it carries the page parameter and
   either the category URL has none, or both numbers read and the link's is
   the larger.
   */
  lemma {:induction false} LinkSignalsNextIff(link: Element, categoryURL: string)
    ensures LinkSignalsNext(link, categoryURL) <==>
      && Attr(link, "href").Some?
      && Contains(Attr(link, "href").value, PageParam)
      && (|| !Contains(categoryURL, PageParam)
          || (&& PageNumberIn(Attr(link, "href").value).Some?
              && PageNumberIn(categoryURL).Some?
              && PageNumberIn(Attr(link, "href").value).value > PageNumberIn(categoryURL).value))
  {
    match Attr(link, "href")
    case None =>
    case Some(href) =>
      if Contains(categoryURL, PageParam) {
        assert |Split(categoryURL, PageParam)| > 1;
        if Contains(href, PageParam) {
          assert |Split(href, PageParam)| > 1;
        }
      }
  }

  // ---------------------------------------------------------------------------
  // Heuristics 4 and 5: pagination scripts
  // ---------------------------------------------------------------------------

  /** Bitrix page counters are present and do not state that the current page is the last. */
  predicate CounterHeuristic(page: Page) {
    match page.html
    case None => false
    case Some(html) =>
      && Contains(html, "NavPageNomer")
      && Contains(html, "NavPageCount")
      && !Contains(html, "NavPageNomer=NavPageCount")
  }

  /** A script sets up AJAX pagination. */
  predicate AjaxHeuristic(page: Page) {
    exists i | 0 <= i < |page.scripts| ::
      Contains(page.scripts[i], "bxajaxid") && Contains(page.scripts[i], "pagen")
  }

  // ---------------------------------------------------------------------------
  // The cascade
  // ---------------------------------------------------------------------------

  /** Heuristic `k` (1 to 5) of the cascade, in the source's order. */
  predicate Heuristic(k: int, page: Page, categoryURL: string) {
    if k == 1 then ButtonsHeuristic(page)
    else if k == 2 then PagerHeuristic(page)
    else if k == 3 then LinksHeuristic(page, categoryURL)
    else if k == 4 then CounterHeuristic(page)
    else if k == 5 then AjaxHeuristic(page)
    else false
  }

  /** The oracle's verdict: some heuristic fires. */
  predicate HasNextPage(page: Page, categoryURL: string) {
    exists k | 1 <= k <= 5 :: Heuristic(k, page, categoryURL)
  }

  /**
   The cascade as the source runs it: a flag set by the first heuristic that
   fires, each later heuristic guarded by the flag still being false.
   `consulted` is how many heuristics were evaluated.
   */
  method DetectNextPage(page: Page, categoryURL: string) returns (hasNext: bool, ghost consulted: nat)
    ensures hasNext == HasNextPage(page, categoryURL)
    ensures 1 <= consulted <= 5
    ensures forall k :: 1 <= k < consulted ==> !Heuristic(k, page, categoryURL)
    ensures hasNext <==> Heuristic(consulted, page, categoryURL)
  {
    hasNext := ButtonsHeuristic(page);
    consulted := 1;
    if !hasNext {
      hasNext := PagerHeuristic(page);
      consulted := 2;
    }
    if !hasNext {
      hasNext := LinksHeuristic(page, categoryURL);
      consulted := 3;
    }
    if !hasNext {
      hasNext := CounterHeuristic(page);
      consulted := 4;
    }
    if !hasNext {
      hasNext := AjaxHeuristic(page);
      consulted := 5;
    }
    assert hasNext ==> Heuristic(consulted, page, categoryURL);
  }

  /**
   On a category whose URL has no page number, any link to a numbered page
   makes the oracle answer "more", whatever number it carries.
   */
  lemma AnyNumberedLinkContinues(page: Page, categoryURL: string, i: nat)
    requires !Contains(categoryURL, PageParam)
    requires i < |page.links| && Attr(page.links[i], "href").Some?
    requires Contains(Attr(page.links[i], "href").value, PageParam)
    ensures HasNextPage(page, categoryURL)
  {
    assert LinkSignalsNext(page.links[i], categoryURL);
    assert Heuristic(3, page, categoryURL);
  }
}
