/**
 A product's own page (`getProductDetails`): fetched with two attempts after
 a courtesy pause, checked for status 200, re-decoded when the bytes look
 mis-decoded, and read for a description and a list of features.
 */
module Details {
  import opened Wrappers
  import opened Catalog
  import opened Text
  import Encoding
  import Fetcher

  /** Attempts a product page gets. */
  const DetailRetries: nat := 2

  /** What the detail fetch yields; the source returns it as a partly filled `Product`. */
  datatype Details = Details(id: string, description: string, features: seq<string>)

  /**
   The texts a parsed product page offers: the three description selectors
   in the order they are tried, and the text of every element matching the
   feature selectors, in document order.
   */
  datatype DetailPage = DetailPage(
    productDescription: string,
    productDashDescription: string,
    plainDescription: string,
    featureTexts: seq<string>)

  // ---------------------------------------------------------------------------
  // Reading the page
  // ---------------------------------------------------------------------------

  /** The first description selector whose trimmed text is non-empty; empty when none is. */
  function PageDescription(page: DetailPage): string {
    var first := TrimSpace(page.productDescription);
    if first != "" then first
    else
      var second := TrimSpace(page.productDashDescription);
      if second != "" then second
      else TrimSpace(page.plainDescription)
  }

  /**
   The description is one of the three trimmed texts, empty only when all
   three are blank, and a later selector is used only when every earlier
   one is blank.
   */
  lemma PageDescriptionChoice(page: DetailPage)
    ensures var d := PageDescription(page);
      && IsTrimmed(d)
      && (d == "" <==> (&& TrimSpace(page.productDescription) == ""
                        && TrimSpace(page.productDashDescription) == ""
                        && TrimSpace(page.plainDescription) == ""))
      && (TrimSpace(page.productDescription) != "" ==> d == TrimSpace(page.productDescription))
      && (TrimSpace(page.productDescription) == "" && TrimSpace(page.productDashDescription) != "" ==>
            d == TrimSpace(page.productDashDescription))
      && (TrimSpace(page.productDescription) == "" && TrimSpace(page.productDashDescription) == "" ==>
            d == TrimSpace(page.plainDescription))
  {
    TrimSpaceTrimmed(page.productDescription);
    TrimSpaceTrimmed(page.productDashDescription);
    TrimSpaceTrimmed(page.plainDescription);
  }

  // ---------------------------------------------------------------------------
  // The ID slot of a product URL
  // ---------------------------------------------------------------------------

  /**
   The ID as the source reads it from the URL: the second-to-last
   "/"-separated piece, under a guard that only asks for at least one piece.
   `None` stands for the index-out-of-range panic this reaches on a URL
   without "/".
   */
  function IdSegmentAsWritten(url: string): Option<string> {
    var parts := Split(url, "/");
    if |parts| > 0 then
      if |parts| - 2 >= 0 then Some(parts[|parts| - 2]) else None
    else Some("")
  }

  /** On a URL without "/", the guard lets the read through and the index is -1. */
  lemma IdSegmentPanicsWithoutSlash(url: string)
    requires '/' !in url
    ensures |Split(url, "/")| == 1
    ensures IdSegmentAsWritten(url) == None
  {
    NoCharNoContains(url, "/");
  }

  /** The ID slot with the guard the indexing needs: two pieces at least; empty otherwise. */
  function IdSegment(url: string): string {
    SecondToLast(Split(url, "/"))
  }

  /** The second-to-last piece, or empty when there are fewer than two. */
  function SecondToLast(parts: seq<string>): string {
    if |parts| >= 2 then parts[|parts| - 2] else ""
  }

  /** Where the guarded reading is defined, it agrees with the source's. */
  lemma IdSegmentAgrees(url: string)
    requires '/' in url
    ensures IdSegmentAsWritten(url) == Some(IdSegment(url))
  {
    var k :| 0 <= k < |url| && url[k] == '/';
    assert url[k..k + 1] == "/";
    assert OccursAt(url, "/", k);
  }

  /** A URL made of "/"-separated segments has its second-to-last segment as ID. */
  lemma IdSegmentOfSegments(segments: seq<string>)
    requires |segments| >= 2
    requires forall k :: 0 <= k < |segments| ==> '/' !in segments[k]
    ensures IdSegment(Join(segments, "/")) == segments[|segments| - 2]
  {
    SplitJoin(segments, "/");
  }

  // ---------------------------------------------------------------------------
  // The fetch
  // ---------------------------------------------------------------------------

  /**
   `getProductDetails`: after a pause of `delayMs`, the page is requested
   with two attempts; a transport failure or a status other than 200 is an
   error. The body is decoded with the sniffed charset, or Windows-1251 when
   it holds the replacement bytes, and parsed by `parse`, which may fail.
   The details are the URL's ID slot, the page's description and its
   non-blank feature texts, trimmed, in order. `pause` is the courtesy pause
   made before the request.
   */
  method GetProductDetails(url: string, delayMs: int, net: nat -> Fetcher.Attempt,
                           sniff: seq<byte> -> Encoding.Charset,
                           parse: (seq<byte>, Encoding.Charset) -> Result<DetailPage, FetchError>)
    returns (r: Result<Details, FetchError>, ghost pause: int)
    ensures pause == delayMs
    ensures var fetched := Fetcher.Fetched(net, DetailRetries);
      fetched.Err? ==> r == Err(fetched.error)
    ensures var fetched := Fetcher.Fetched(net, DetailRetries);
      fetched.Ok? && fetched.value.status != Fetcher.StatusOK ==> r == Err(BadStatus(fetched.value.status))
    ensures var fetched := Fetcher.Fetched(net, DetailRetries);
      fetched.Ok? && fetched.value.status == Fetcher.StatusOK ==>
        var body := fetched.value.body;
        match parse(body, Encoding.ChooseCharset(body, sniff(body)))
        case Err(e) => r == Err(e)
        case Ok(page) => r == Ok(Details(IdSegment(url), PageDescription(page), NonBlank(page.featureTexts)))
    ensures (forall i :: 0 <= i < DetailRetries ==> net(i).Failed?) ==>
      r == Err(NetworkExhausted(DetailRetries, Some(net(DetailRetries - 1).message)))
    ensures forall i :: 0 <= i < DetailRetries && net(i).Responded? && net(i).response.status != Fetcher.StatusOK &&
                        (forall j :: 0 <= j < i ==> net(j).Failed?) ==>
      r == Err(BadStatus(net(i).response.status))
    ensures r.Ok? ==> exists i :: 0 <= i < DetailRetries && net(i).Responded? && net(i).response.status == Fetcher.StatusOK &&
                                  (forall j :: 0 <= j < i ==> net(j).Failed?)
    ensures r.Ok? ==> r.value.id == IdSegment(url)
    ensures r.Ok? ==> IsTrimmed(r.value.description)
    ensures r.Ok? ==> forall k :: 0 <= k < |r.value.features| ==> r.value.features[k] != "" && IsTrimmed(r.value.features[k])
  {
    pause := delayMs;
    var fetched := Fetcher.FetchBody(net, DetailRetries, delayMs);
    match fetched
    case Err(e) =>
      return Err(e), pause;
    case Ok(body) =>
      var charset := Encoding.ChooseCharset(body, sniff(body));
      match parse(body, charset)
      case Err(e) =>
        return Err(e), pause;
      case Ok(page) =>
        PageDescriptionChoice(page);
        NonBlankClean(page.featureTexts);
        return Ok(Details(IdSegment(url), PageDescription(page), NonBlank(page.featureTexts))), pause;
  }
}
