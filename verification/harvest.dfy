/**
 The run as `main` puts it together: cut the category list to the limit,
 walk every category (a category whose walk fails contributes nothing),
 gather the products in whatever order the walkers deliver them, remove
 duplicates by ID, and enrich the survivors unless details are skipped.
 */
module Harvest {
  import opened Wrappers
  import opened Catalog
  import opened Pagination
  import opened Walker
  import opened Dedupe
  import opened Details
  import Enrichment
  import Categories

  /** Every product carries an ID. */
  predicate IdsNonEmpty(s: seq<Product>) {
    forall k :: 0 <= k < |s| ==> s[k].id != ""
  }

  /** No two products share an ID. */
  predicate IdsDistinct(s: seq<Product>) {
    forall k, l :: 0 <= k < l < |s| ==> s[k].id != s[l].id
  }

  /** Every non-empty ID of `from` is the ID of some product of `into`. */
  predicate IdsCovered(from: seq<Product>, into: seq<Product>) {
    forall i :: 0 <= i < |from| && from[i].id != "" ==> exists k :: 0 <= k < |into| && into[k].id == from[i].id
  }

  /** The products of every category whose walk succeeds, in category order. */
  function Harvested(cats: seq<Category>, startPage: int, endPage: int,
                     load: string -> Result<Page, FetchError>,
                     extract: (Page, Category) -> seq<Product>): seq<Product>
  {
    if |cats| == 0 then []
    else
      var n := |cats| - 1;
      var before := Harvested(cats[..n], startPage, endPage, load, extract);
      match WalkFrom(cats[n], startPage, MaxPages(endPage), load, extract).result
      case Ok(products) => before + products
      case Err(_) => before
  }

  /**
   A category whose walk fails adds nothing, and one whose walk succeeds
   adds exactly its products: the harvest of a list grows by each
   successful walk.
   */
  lemma {:induction false} HarvestedSingle(cat: Category, startPage: int, endPage: int,
                                           load: string -> Result<Page, FetchError>,
                                           extract: (Page, Category) -> seq<Product>)
    ensures var w := WalkFrom(cat, startPage, MaxPages(endPage), load, extract).result;
      Harvested([cat], startPage, endPage, load, extract) == (if w.Ok? then w.value else [])
  {
    assert [cat][..0] == [];
  }

  /** The walking loop of `main`, one category after another: the products of each successful walk are sent on. */
  method Collect(cats: seq<Category>, startPage: int, endPage: int, delayMs: int,
                 load: string -> Result<Page, FetchError>,
                 extract: (Page, Category) -> seq<Product>)
    returns (sent: seq<Product>)
    ensures sent == Harvested(cats, startPage, endPage, load, extract)
  {
    sent := [];
    var i := 0;
    while i < |cats|
      invariant i <= |cats|
      invariant sent == Harvested(cats[..i], startPage, endPage, load, extract)
    {
      assert cats[..i + 1][..i] == cats[..i];
      var r;
      ghost var fetched, pauses;
      r, fetched, pauses := GetProductsFromCategory(cats[i], startPage, endPage, delayMs, load, extract);
      if r.Ok? {
        sent := sent + r.value;
      }
      i := i + 1;
    }
    assert cats[..i] == cats;
  }

  /**
   The run from a list of categories to the final products. `collected`
   is what the walkers delivered, in an order the model leaves open;
   `final` is what the run ends with.
   */
  method Run(categories: seq<Category>, limit: int, startPage: int, endPage: int, delayMs: int,
             load: string -> Result<Page, FetchError>,
             extract: (Page, Category) -> seq<Product>,
             skipDetails: bool,
             fetch: string -> Result<Details, FetchError>)
    returns (collected: seq<Product>, final: seq<Product>)
    ensures multiset(collected) ==
      multiset(Harvested(Categories.TakeLimit(categories, limit), startPage, endPage, load, extract))
    ensures IdsNonEmpty(final) && IdsDistinct(final)
    ensures |final| <= |collected|
    ensures IdsCovered(collected, final)
    ensures skipDetails ==> ListsMap(final, DedupeMap(collected))
    ensures !skipDetails ==>
      exists unique :: ListsMap(unique, DedupeMap(collected)) && multiset(final) == multiset(Enrichment.EnrichAll(unique, fetch))
  {
    var cats := Categories.TakeLimit(categories, limit);
    var sent := Collect(cats, startPage, endPage, delayMs, load, extract);
    collected := Enrichment.Drain(sent);
    final := Finish(collected, skipDetails, fetch);
  }

  /** The tail of the run: de-duplicate what was collected, then enrich it unless details are skipped. */
  method Finish(collected: seq<Product>, skipDetails: bool, fetch: string -> Result<Details, FetchError>)
    returns (final: seq<Product>)
    ensures IdsNonEmpty(final) && IdsDistinct(final)
    ensures |final| <= |collected|
    ensures IdsCovered(collected, final)
    ensures skipDetails ==> ListsMap(final, DedupeMap(collected))
    ensures !skipDetails ==>
      exists unique :: ListsMap(unique, DedupeMap(collected)) && multiset(final) == multiset(Enrichment.EnrichAll(unique, fetch))
  {
    var unique := RemoveDuplicateProducts(collected);
    assert IdsNonEmpty(unique) && IdsDistinct(unique) && IdsCovered(collected, unique);
    if !skipDetails {
      final := EnrichUnique(unique, fetch);
      CoverageCarries(collected, unique, final);
      assert ListsMap(unique, DedupeMap(collected));
    } else {
      final := unique;
    }
  }

  /** Enriching a de-duplicated list: the enriched products in some order, with the same IDs, still non-empty and pairwise distinct. */
  method EnrichUnique(unique: seq<Product>, fetch: string -> Result<Details, FetchError>)
    returns (final: seq<Product>)
    requires IdsNonEmpty(unique) && IdsDistinct(unique)
    ensures multiset(final) == multiset(Enrichment.EnrichAll(unique, fetch))
    ensures |final| == |unique|
    ensures IdsNonEmpty(final) && IdsDistinct(final)
    ensures IdsCovered(unique, final)
  {
    var stats;
    final, stats := Enrichment.EnrichProductsWithDetails(unique, fetch);
    PermutationKeepsIds(Enrichment.EnrichAll(unique, fetch), final);
  }

  /** Every ID of `collected` is in `unique`, and every ID of `unique` is in `final`: so every ID of `collected` is in `final`. */
  lemma CoverageCarries(collected: seq<Product>, unique: seq<Product>, final: seq<Product>)
    requires IdsCovered(collected, unique) && IdsCovered(unique, final)
    ensures IdsCovered(collected, final)
  {
    forall i | 0 <= i < |collected| && collected[i].id != ""
      ensures exists m :: 0 <= m < |final| && final[m].id == collected[i].id
    {
      var k :| 0 <= k < |unique| && unique[k].id == collected[i].id;
      var m :| 0 <= m < |final| && final[m].id == unique[k].id;
    }
  }

  /** A permutation of products with distinct non-empty IDs has the same IDs, still distinct and non-empty. */
  lemma PermutationKeepsIds(results: seq<Product>, out: seq<Product>)
    requires IdsNonEmpty(results) && IdsDistinct(results)
    requires multiset(out) == multiset(results)
    ensures IdsNonEmpty(out) && IdsDistinct(out)
    ensures IdsCovered(results, out)
  {
    forall k | 0 <= k < |out|
      ensures out[k] in results
    {
      assert out[k] in multiset(out);
    }
    forall k, l | 0 <= k < l < |out|
      ensures out[k].id != out[l].id
    {
      if out[k].id == out[l].id {
        SameIdSameProduct(results, out[k], out[l]);
        OccursTwice(out, k, l);
        var i :| 0 <= i < |results| && results[i] == out[k];
        OccursOnce(results, i);
        assert false;
      }
    }
    forall i | 0 <= i < |results|
      ensures exists k :: 0 <= k < |out| && out[k].id == results[i].id
    {
      assert results[i] in multiset(out);
      var k :| 0 <= k < |out| && out[k] == results[i];
    }
  }

  /** In a list with distinct IDs, two of its products with the same ID are the same product. */
  lemma SameIdSameProduct(results: seq<Product>, p: Product, q: Product)
    requires IdsDistinct(results)
    requires p in results && q in results && p.id == q.id
    ensures p == q
  {
    var i :| 0 <= i < |results| && results[i] == p;
    var j :| 0 <= j < |results| && results[j] == q;
    assert i == j;
  }

  /** An element found at one index only is counted once. */
  lemma OccursOnce<T>(s: seq<T>, i: nat)
    requires i < |s|
    requires forall m :: 0 <= m < |s| && s[m] == s[i] ==> m == i
    ensures multiset(s)[s[i]] == 1
  {
    var x := s[i];
    var before, after := s[..i], s[i + 1..];
    assert s == before + [x] + after;
    assert x !in before;
    assert forall m :: 0 <= m < |after| ==> after[m] == s[i + 1 + m];
    assert x !in after;
  }

  /** An element found at two indices is counted at least twice. */
  lemma OccursTwice<T>(s: seq<T>, k: nat, l: nat)
    requires k < l < |s| && s[k] == s[l]
    ensures multiset(s)[s[k]] >= 2
  {
    var x := s[l];
    assert s == s[..l] + [x] + s[l + 1..];
    assert s[..l][k] == x;
    assert x in multiset(s[..l]);
  }
}
