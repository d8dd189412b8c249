/**
 Where the categories to walk come from: links discovered on the catalog page
 (`getCategories`), or a comma-separated list of URLs given on the command
 line, optionally cut to the first `limit` entries (`main`).
 */
module Categories {
  import opened Wrappers
  import opened Catalog
  import opened Text
  import Encoding
  import Fetcher

  /** The selector `a[href^='/catalog/']` keeps links whose target starts with this. */
  const CatalogPrefix: string := "/catalog/"
  /** A link text must be shorter than this many bytes to name a category. */
  const MaxNameBytes: nat := 100
  /** Attempts the catalog page gets. */
  const CatalogRetries: nat := 3

  // ---------------------------------------------------------------------------
  // Discovery on the catalog page
  // ---------------------------------------------------------------------------

  /**
   The category a catalog link names, if it passes the filter: its target
   lies under /catalog/, contains "_" and not ".html", and its trimmed text
   is non-empty and shorter than 100 bytes.
   */
  function CategoryFromLink(link: Element): Option<Category> {
    match Attr(link, "href")
    case None => None
    case Some(href) =>
      if !(CatalogPrefix <= href) then None
      else if Contains(href, "_") && !Contains(href, ".html") then
        var name := TrimSpace(link.text);
        if name != "" && Encoding.ByteLength(name) < MaxNameBytes then Some(Category(name, BaseURL + href))
        else None
      else None
  }

  /**
   A category as discovery produces it: a non-empty trimmed name of fewer
   than 100 bytes, and a URL made of the site's address and a catalog path
   that contains "_" and not ".html".
   */
  predicate WellFormedDiscovered(c: Category) {
    && c.name != "" && Encoding.ByteLength(c.name) < MaxNameBytes
    && IsTrimmed(c.name)
    && BaseURL <= c.url
    && var path := c.url[|BaseURL|..];
       CatalogPrefix <= path && Contains(path, "_") && !Contains(path, ".html")
  }

  /** Whatever passes the link filter is a well-formed category. */
  lemma CategoryFromLinkWellFormed(link: Element)
    ensures CategoryFromLink(link).Some? ==> WellFormedDiscovered(CategoryFromLink(link).value)
  {
    if CategoryFromLink(link).Some? {
      var href := Attr(link, "href").value;
      var c := CategoryFromLink(link).value;
      TrimSpaceTrimmed(link.text);
      assert c.url[|BaseURL|..] == href;
    }
  }

  /** The categories the catalog links name, in link order. */
  function DiscoverCategories(links: seq<Element>): (found: seq<Category>)
    ensures |found| <= |links|
  {
    if |links| == 0 then []
    else
      var rest := DiscoverCategories(links[1..]);
      match CategoryFromLink(links[0])
      case None => rest
      case Some(c) => [c] + rest
  }

  /** Every discovered category is named by some link. */
  lemma {:induction false} DiscoveredFromLink(links: seq<Element>, c: Category)
    requires c in DiscoverCategories(links)
    ensures exists link <- links :: CategoryFromLink(link) == Some(c)
  {
    var first := CategoryFromLink(links[0]);
    if first != Some(c) {
      DiscoveredFromLink(links[1..], c);
      var link :| link in links[1..] && CategoryFromLink(link) == Some(c);
      assert link in links;
    }
  }

  /** Every category a link names is discovered. */
  lemma {:induction false} LinkDiscovered(links: seq<Element>, link: Element)
    requires link in links && CategoryFromLink(link).Some?
    ensures CategoryFromLink(link).value in DiscoverCategories(links)
  {
    if link != links[0] {
      LinkDiscovered(links[1..], link);
    }
  }

  /**
   The de-duplication of `getCategories`: the first category seen for each
   URL is kept, in input order. `from` maps each kept category to its
   position in the input.
   */
  method UniqueCategories(categories: seq<Category>) returns (unique: seq<Category>, ghost from: seq<nat>)
    ensures |unique| <= |categories|
    ensures FirstOccurrences(categories, unique, from, |categories|)
    ensures Urls(unique) == Urls(categories)
  {
    var seen: set<string> := {};
    unique, from := [], [];
    var i := 0;
    while i < |categories|
      invariant i <= |categories|
      invariant Kept(categories, i, unique, from)
      invariant seen == Urls(unique)
    {
      var c := categories[i];
      UniqueStep(categories, i, unique, from);
      if c.url !in seen {
        UrlsAppend(unique, c);
        seen := seen + {c.url};
        unique := unique + [c];
        from := from + [i];
      }
      i := i + 1;
    }
    assert categories[..i] == categories;
  }

  /** After the first `i` categories: the first occurrences among them, and all their URLs. */
  ghost predicate Kept(categories: seq<Category>, i: nat, unique: seq<Category>, from: seq<nat>)
    requires i <= |categories|
  {
    && |unique| <= i
    && FirstOccurrences(categories, unique, from, i)
    && Urls(unique) == Urls(categories[..i])
  }

  /** One more category is kept exactly when its URL is new. */
  lemma UniqueStep(categories: seq<Category>, i: nat, unique: seq<Category>, from: seq<nat>)
    requires i < |categories| && Kept(categories, i, unique, from)
    ensures var c := categories[i];
      if c.url in Urls(unique) then Kept(categories, i + 1, unique, from)
      else Kept(categories, i + 1, unique + [c], from + [i])
  {
    var c := categories[i];
    assert categories[..i + 1] == categories[..i] + [c];
    UrlsAppend(categories[..i], c);
    if c.url !in Urls(unique) {
      UrlsAppend(unique, c);
      FirstOccurrenceAppend(categories, unique, from, i);
    }
  }

  /**
   `unique` picks, in increasing positions `from` below `bound`, categories
   whose URLs are pairwise distinct and each seen there for the first time.
   */
  predicate FirstOccurrences(categories: seq<Category>, unique: seq<Category>, from: seq<nat>, bound: nat) {
    && |from| == |unique|
    && (forall k :: 0 <= k < |unique| ==> from[k] < bound && from[k] < |categories| && unique[k] == categories[from[k]])
    && (forall k, l :: 0 <= k < l < |unique| ==> from[k] < from[l])
    && (forall k, j :: 0 <= k < |unique| && 0 <= j < from[k] && j < |categories| ==> categories[j].url != unique[k].url)
    && (forall k, l :: 0 <= k < l < |unique| ==> unique[k].url != unique[l].url)
  }

  /** Appending a category seen for the first time at position `i` keeps the selection in order, distinct and first-come. */
  lemma FirstOccurrenceAppend(categories: seq<Category>, unique: seq<Category>, from: seq<nat>, i: nat)
    requires i < |categories| && FirstOccurrences(categories, unique, from, i)
    requires categories[i].url !in Urls(categories[..i])
    ensures FirstOccurrences(categories, unique + [categories[i]], from + [i], i + 1)
  {
    assert forall k :: 0 <= k < i ==> categories[..i][k].url in Urls(categories[..i]);
    assert forall j :: 0 <= j < i ==> categories[..i][j] == categories[j];
    forall k | 0 <= k < |unique| ensures unique[k].url != categories[i].url {
      assert categories[from[k]] == categories[..i][from[k]];
    }
  }

  /** The URLs of a list of categories. */
  ghost function Urls(cs: seq<Category>): set<string> {
    set k | 0 <= k < |cs| :: cs[k].url
  }

  /** The URLs of a list grow by the URL of an appended category. */
  lemma UrlsAppend(cs: seq<Category>, c: Category)
    ensures Urls(cs + [c]) == Urls(cs) + {c.url}
  {
    var ext := cs + [c];
    assert ext[|cs|].url == c.url;
    forall k | 0 <= k < |cs| ensures ext[k].url == cs[k].url { }
  }

  /**
   `unique` is the de-duplication of `categories` by URL: the first category
   seen for every URL, in input order, and nothing else.
   */
  ghost predicate DedupedByUrl(categories: seq<Category>, unique: seq<Category>) {
    exists from :: FirstOccurrences(categories, unique, from, |categories|) && Urls(unique) == Urls(categories)
  }

  /**
   `getCategories`: the catalog page is requested with three attempts; a
   transport failure or a status other than 200 is an error. The body is
   decoded with the sniffed charset, or Windows-1251 when it holds the
   replacement bytes, and parsed by `parse`, which may fail. Otherwise the
   categories the links name are returned, one per URL.
   */
  method GetCategories(net: nat -> Fetcher.Attempt, sniff: seq<byte> -> Encoding.Charset,
                       parse: (seq<byte>, Encoding.Charset) -> Result<seq<Element>, FetchError>)
    returns (r: Result<seq<Category>, FetchError>)
    ensures (forall i :: 0 <= i < CatalogRetries ==> net(i).Failed?) ==>
      r == Err(NetworkExhausted(CatalogRetries, Some(net(CatalogRetries - 1).message)))
    ensures forall i :: 0 <= i < CatalogRetries && net(i).Responded? && net(i).response.status != Fetcher.StatusOK &&
                        (forall j :: 0 <= j < i ==> net(j).Failed?) ==>
      r == Err(BadStatus(net(i).response.status))
    ensures var fetched := Fetcher.Fetched(net, CatalogRetries);
      fetched.Err? ==> r == Err(fetched.error)
    ensures var fetched := Fetcher.Fetched(net, CatalogRetries);
      fetched.Ok? && fetched.value.status != Fetcher.StatusOK ==> r == Err(BadStatus(fetched.value.status))
    ensures var fetched := Fetcher.Fetched(net, CatalogRetries);
      fetched.Ok? && fetched.value.status == Fetcher.StatusOK ==>
        var body := fetched.value.body;
        match parse(body, Encoding.ChooseCharset(body, sniff(body)))
        case Err(e) => r == Err(e)
        case Ok(links) => r.Ok? && DedupedByUrl(DiscoverCategories(links), r.value)
    ensures r.Ok? ==> forall k :: 0 <= k < |r.value| ==> WellFormedDiscovered(r.value[k])
    ensures r.Ok? ==> forall k, l :: 0 <= k < l < |r.value| ==> r.value[k].url != r.value[l].url
  {
    var fetched := Fetcher.FetchBody(net, CatalogRetries, DefaultDelayMs);
    match fetched
    case Err(e) =>
      return Err(e);
    case Ok(body) =>
      var charset := Encoding.ChooseCharset(body, sniff(body));
      match parse(body, charset)
      case Err(e) =>
        return Err(e);
      case Ok(links) =>
        var found := DiscoverCategories(links);
        var unique;
        ghost var from;
        unique, from := UniqueCategories(found);
        forall k | 0 <= k < |unique|
          ensures WellFormedDiscovered(unique[k])
        {
          DiscoveredFromLink(links, found[from[k]]);
          var link :| link in links && CategoryFromLink(link) == Some(found[from[k]]);
          CategoryFromLinkWellFormed(link);
        }
        assert DedupedByUrl(found, unique);
        return Ok(unique);
  }

  // ---------------------------------------------------------------------------
  // Categories given on the command line
  // ---------------------------------------------------------------------------

  /** Every piece from position `from` on is empty. */
  predicate EmptyFrom(parts: seq<string>, from: nat) {
    forall j :: from <= j < |parts| ==> parts[j] == ""
  }

  /** The position of the last non-empty piece, if any: the loop that scans the pieces backwards. */
  function LastNonEmpty(parts: seq<string>): (last: Option<nat>)
    ensures last.None? <==> EmptyFrom(parts, 0)
    ensures last.Some? ==> last.value < |parts| && parts[last.value] != "" && EmptyFrom(parts, last.value + 1)
  {
    if |parts| == 0 then None
    else
      var n := |parts| - 1;
      if parts[n] != "" then Some(n)
      else
        var last := LastNonEmpty(parts[..n]);
        EmptyFromExtend(parts, if last.Some? then last.value + 1 else 0);
        last
  }

  /** An empty last piece extends the empty run of the pieces before it, and a run of the whole covers the pieces before it. */
  lemma EmptyFromExtend(parts: seq<string>, from: nat)
    requires |parts| > 0 && parts[|parts| - 1] == "" && from < |parts|
    ensures EmptyFrom(parts, from) <==> EmptyFrom(parts[..|parts| - 1], from)
  {
    var init := parts[..|parts| - 1];
    assert forall j :: 0 <= j < |init| ==> init[j] == parts[j];
  }

  /** Every character of `s` is a slash. */
  predicate AllSlashes(s: string) {
    forall i :: 0 <= i < |s| ==> s[i] == '/'
  }

  /**
   `s[a..b]` is the last non-empty "/"-separated segment of `s`: it holds no
   slash, it starts `s` or follows a slash, and only slashes come after it.
   */
  predicate LastSegment(s: string, a: int, b: int) {
    && 0 <= a < b <= |s|
    && (a == 0 || s[a - 1] == '/')
    && '/' !in s[a..b]
    && AllSlashes(s[b..])
  }

  /** A string has at most one last segment. */
  lemma LastSegmentUnique(s: string, a: int, b: int, a2: int, b2: int)
    requires LastSegment(s, a, b) && LastSegment(s, a2, b2)
    ensures a == a2 && b == b2
  {
    SegmentChars(s, a, b);
    SegmentChars(s, a2, b2);
    assert s[b - 1] != '/' && s[b2 - 1] != '/';
  }

  /** The characters of a last segment are not slashes, and every one after it is. */
  lemma SegmentChars(s: string, a: int, b: int)
    requires LastSegment(s, a, b)
    ensures forall i :: a <= i < b ==> s[i] != '/'
    ensures forall i :: b <= i < |s| ==> s[i] == '/'
  {
    forall i | a <= i < b ensures s[i] != '/' {
      assert s[i] == s[a..b][i - a];
    }
    forall i | b <= i < |s| ensures s[i] == '/' {
      assert s[i] == s[b..][i - b];
    }
  }

  /**
   The name `main` gives a category URL from the command line: its last
   non-empty "/"-separated segment with "_" turned into spaces (before the
   title-casing, which is not modelled). A URL made only of slashes gets the
   empty name.
   */
  function NameFromURL(url: string): (name: string)
    ensures '_' !in name
    ensures name == "" <==> AllSlashes(url)
    ensures !AllSlashes(url) ==> exists a, b :: LastSegment(url, a, b) && name == ReplaceChar(url[a..b], '_', ' ')
  {
    NameFromPieces(Split(url, "/"))
  }

  /** The name read off the "/"-separated pieces of a URL. */
  function NameFromPieces(parts: seq<string>): (name: string)
    requires NoneContains(parts, "/")
    ensures '_' !in name
    ensures name == "" <==> AllSlashes(Join(parts, "/"))
    ensures !AllSlashes(Join(parts, "/")) ==>
      exists a, b :: LastSegment(Join(parts, "/"), a, b) && name == ReplaceChar(Join(parts, "/")[a..b], '_', ' ')
  {
    match LastNonEmpty(parts)
    case None =>
      JoinOfEmpties(parts, "/");
      ""
    case Some(k) =>
      var segment := parts[k];
      NotContainsChar(segment, '/');
      JoinHoldsPartStart(parts, "/", k);
      LastPieceInJoin(parts, k);
      ReplaceChar(segment, '_', ' ')
  }

  /** Where the last non-empty piece sits in the joined string: after a slash or at the start, with only slashes after it. */
  lemma LastPieceInJoin(parts: seq<string>, k: nat)
    requires k < |parts| && parts[k] != "" && '/' !in parts[k] && EmptyFrom(parts, k + 1)
    ensures var s := Join(parts, "/");
      exists a, b :: LastSegment(s, a, b) && s[a..b] == parts[k]
  {
    var rest := JoinFrom(parts, k);
    if k == 0 {
      assert parts[k..] == parts;
      SegmentBetween("", parts[k], rest);
      assert "" + parts[k] + rest == parts[k] + rest;
    } else {
      JoinAt(parts, "/", k);
      var before := Join(parts[..k], "/") + "/";
      SegmentBetween(before, parts[k], rest);
      assert Join(parts, "/") == before + parts[k] + rest;
    }
  }

  /** A slash-free piece after a slash (or at the start) and before slashes only is the last segment. */
  lemma SegmentBetween(before: string, piece: string, rest: string)
    requires piece != "" && '/' !in piece && AllSlashes(rest)
    requires before == "" || before[|before| - 1] == '/'
    ensures var s := before + piece + rest;
      LastSegment(s, |before|, |before| + |piece|) && s[|before|..|before| + |piece|] == piece
  {
    var s := before + piece + rest;
    assert s[|before|..|before| + |piece|] == piece;
    assert s[|before| + |piece|..] == rest;
    if before != "" {
      assert s[|before| - 1] == before[|before| - 1];
    }
  }

  /** The join of the pieces from the last non-empty one on: that piece, then slashes only. */
  lemma JoinFrom(parts: seq<string>, k: nat) returns (rest: string)
    requires k < |parts| && EmptyFrom(parts, k + 1)
    ensures Join(parts[k..], "/") == parts[k] + rest && AllSlashes(rest)
  {
    var tail := parts[k..];
    if k + 1 == |parts| {
      rest := "";
      assert tail == [parts[k]];
    } else {
      var after := parts[k + 1..];
      assert tail[0] == parts[k] && tail[1..] == after;
      assert EmptyFrom(after, 0) by {
        forall j | 0 <= j < |after| ensures after[j] == "" {
          assert after[j] == parts[k + 1 + j];
        }
      }
      JoinOfEmpties(after, "/");
      rest := "/" + Join(after, "/");
    }
  }

  /** Empty pieces joined with "/" give a string of slashes. */
  lemma {:induction false} JoinOfEmpties(parts: seq<string>, sep: string)
    requires sep == "/"
    requires EmptyFrom(parts, 0)
    ensures AllSlashes(Join(parts, sep))
  {
    if |parts| > 1 {
      assert EmptyFrom(parts[1..], 0) by {
        assert forall j :: 0 <= j < |parts| - 1 ==> parts[1..][j] == parts[j + 1];
      }
      JoinOfEmpties(parts[1..], sep);
      assert Join(parts, sep) == sep + Join(parts[1..], sep);
    }
  }

  /** The first character of every non-empty piece appears in the joined string. */
  lemma {:induction false} JoinHoldsPartStart(parts: seq<string>, sep: string, k: nat)
    requires k < |parts| && parts[k] != ""
    ensures parts[k][0] in Join(parts, sep)
  {
    if |parts| > 1 {
      var joined := Join(parts, sep);
      assert joined == parts[0] + sep + Join(parts[1..], sep);
      if k == 0 {
        assert joined[0] == parts[0][0];
      } else {
        JoinHoldsPartStart(parts[1..], sep, k - 1);
        var rest := Join(parts[1..], sep);
        var i :| 0 <= i < |rest| && rest[i] == parts[k][0];
        assert joined[|parts[0]| + |sep| + i] == rest[i];
      }
    }
  }

  /** The category a URL from the command line stands for: the URL, named after its last segment. */
  function FromURL(url: string): Category {
    Category(NameFromURL(url), url)
  }

  /** A category as the command line produces it: a non-empty trimmed URL, named after its last segment. */
  predicate GivenOnCommandLine(c: Category) {
    c.url != "" && IsTrimmed(c.url) && c == FromURL(c.url)
  }

  /** The categories a list of URLs names, one per URL, in order. */
  function Named(urls: seq<string>): (cats: seq<Category>)
    ensures |cats| == |urls|
  {
    seq(|urls|, k requires 0 <= k < |urls| => FromURL(urls[k]))
  }

  /**
   `main`'s reading of the `-categories` flag: the comma-separated entries,
   each trimmed, blank ones skipped, each naming one category. Every
   non-blank entry yields its category, and nothing else is yielded.
   */
  function CategoriesFromList(list: string): (cats: seq<Category>)
    ensures |cats| <= |Split(list, ",")|
    ensures forall c <- cats :: GivenOnCommandLine(c)
    ensures forall k :: 0 <= k < |Split(list, ",")| && TrimSpace(Split(list, ",")[k]) != "" ==>
      FromURL(TrimSpace(Split(list, ",")[k])) in cats
    ensures forall c <- cats :: exists k :: 0 <= k < |Split(list, ",")| && c == FromURL(TrimSpace(Split(list, ",")[k]))
  {
    var pieces := Split(list, ",");
    ReadingEntries(pieces);
    Named(NonBlank(pieces))
  }

  /** The categories named by the non-blank entries are exactly those of the entries, each well-formed. */
  lemma ReadingEntries(pieces: seq<string>)
    ensures var cats := Named(NonBlank(pieces));
      && (forall c <- cats :: GivenOnCommandLine(c))
      && (forall k :: 0 <= k < |pieces| && TrimSpace(pieces[k]) != "" ==> FromURL(TrimSpace(pieces[k])) in cats)
      && (forall c <- cats :: exists k :: 0 <= k < |pieces| && c == FromURL(TrimSpace(pieces[k])))
  {
    forall k | 0 <= k < |pieces| && TrimSpace(pieces[k]) != "" {
      EntryNamed(pieces, k);
    }
    forall m | 0 <= m < |NonBlank(pieces)| {
      NamedFromEntry(pieces, m);
    }
  }

  /** A non-blank entry names its category. */
  lemma EntryNamed(pieces: seq<string>, k: nat)
    requires k < |pieces| && TrimSpace(pieces[k]) != ""
    ensures FromURL(TrimSpace(pieces[k])) in Named(NonBlank(pieces))
  {
    var urls := NonBlank(pieces);
    NonBlankKeeps(pieces, k);
    var m :| 0 <= m < |urls| && urls[m] == TrimSpace(pieces[k]);
    assert Named(urls)[m] == FromURL(urls[m]);
  }

  /** The category named at position `m` is a well-formed command-line category of some entry. */
  lemma NamedFromEntry(pieces: seq<string>, m: nat)
    requires m < |NonBlank(pieces)|
    ensures GivenOnCommandLine(Named(NonBlank(pieces))[m])
    ensures exists k :: 0 <= k < |pieces| && Named(NonBlank(pieces))[m] == FromURL(TrimSpace(pieces[k]))
  {
    var urls := NonBlank(pieces);
    var url := urls[m];
    NonBlankClean(pieces);
    assert Named(urls)[m] == FromURL(url);
    NonBlankFromPieces(pieces, url);
  }

  /**
   Reading a list written as comma-free entries joined with "," gives the
   categories of the non-blank entries, trimmed, in entry order.
   */
  lemma CategoriesFromListRoundTrip(entries: seq<string>)
    requires |entries| >= 1
    requires forall k :: 0 <= k < |entries| ==> ',' !in entries[k]
    ensures CategoriesFromList(Join(entries, ",")) == Named(NonBlank(entries))
  {
    SplitJoin(entries, ",");
  }

  /** `-limit`: a positive limit below the number of categories keeps only the first `limit` of them. */
  function TakeLimit(categories: seq<Category>, limit: int): (kept: seq<Category>)
    ensures |kept| == (if 0 < limit < |categories| then limit else |categories|)
    ensures kept == categories[..|kept|]
  {
    if limit > 0 && limit < |categories| then categories[..limit] else categories
  }
}
