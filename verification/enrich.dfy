/**
 Enrichment (`enrichProductsWithDetails`): every product that lacks a
 description or features gets its detail page fetched, and the fetched
 values fill in the product where they are non-empty. The products come
 back in the order their workers finish, which the model leaves open.
 */
module Enrichment {
  import opened Wrappers
  import opened Catalog
  import opened Details

  /** `maxNum`. */
  function MaxNum(a: int, b: int): (m: int)
    ensures m >= a && m >= b
    ensures m == a || m == b
  {
    if a > b then a else b
  }

  /** `batchSize`: progress is reported every 5% of the products, and never less often than every product. */
  function ProgressStep(n: nat): (step: nat)
    ensures step >= 1
    ensures n < 40 ==> step == 1
    ensures n >= 20 ==> 20 * step <= n < 20 * (step + 1)
  {
    MaxNum(1, n / 20)
  }

  // ---------------------------------------------------------------------------
  // One product
  // ---------------------------------------------------------------------------

  /** A product that already has features and a description is not fetched again. */
  predicate HasDetails(p: Product) {
    |p.features| > 0 && p.description != ""
  }

  /** The best-effort merge: each fetched field replaces the product's only when it is non-empty. */
  function Merge(p: Product, d: Details): Product {
    var withDescription := if d.description != "" then p.(description := d.description) else p;
    if |d.features| > 0 then withDescription.(features := d.features) else withDescription
  }

  /** What happened to one product, as the counters see it. */
  datatype Outcome = Skipped | Enriched | Errored(error: FetchError)

  /** One product's fate, given what fetching its detail page would give. */
  function EnrichOne(p: Product, fetched: Result<Details, FetchError>): (Product, Outcome) {
    if HasDetails(p) then (p, Skipped)
    else
      match fetched
      case Err(e) => (p, Errored(e))
      case Ok(d) => (Merge(p, d), Enriched)
  }

  /** The fields that identify a product and that enrichment never touches. */
  predicate SameIdentity(p: Product, q: Product) {
    && p.id == q.id && p.name == q.name && p.url == q.url
    && p.price == q.price && p.imageURL == q.imageURL && p.category == q.category
  }

  /**
   A product is skipped exactly when it already has details and then comes
   back untouched; a failed fetch leaves it untouched too; otherwise its
   description and features are the fetched ones where those are non-empty
   and its own elsewhere. Its identity never changes.
   */
  lemma EnrichOneSpec(p: Product, fetched: Result<Details, FetchError>)
    ensures var (q, outcome) := EnrichOne(p, fetched);
      && SameIdentity(p, q)
      && (outcome == Skipped <==> HasDetails(p))
      && (outcome.Errored? <==> !HasDetails(p) && fetched.Err?)
      && (outcome.Enriched? <==> !HasDetails(p) && fetched.Ok?)
      && (!outcome.Enriched? ==> q == p)
      && (outcome.Errored? ==> outcome.error == fetched.error)
      && (outcome.Enriched? ==>
            && q.description == (if fetched.value.description != "" then fetched.value.description else p.description)
            && q.features == (if |fetched.value.features| > 0 then fetched.value.features else p.features))
  {
  }

  /** Enrichment never empties a field: a non-empty description or feature list stays non-empty. */
  lemma MergeNeverLoses(p: Product, d: Details)
    ensures p.description != "" ==> Merge(p, d).description != ""
    ensures |p.features| > 0 ==> |Merge(p, d).features| > 0
  {
  }

  /** Merging the same details twice is merging them once. */
  lemma MergeIdempotent(p: Product, d: Details)
    ensures Merge(Merge(p, d), d) == Merge(p, d)
  {
  }

  /** A page that offers both a description and features completes the product, so a second run skips it. */
  lemma CompletePageCompletesProduct(p: Product, d: Details)
    requires d.description != "" && |d.features| > 0
    ensures HasDetails(Merge(p, d))
    ensures EnrichOne(Merge(p, d), Ok(d)) == (Merge(p, d), Skipped)
  {
  }

  // ---------------------------------------------------------------------------
  // The batch
  // ---------------------------------------------------------------------------

  /** The per-product results, in input order; `fetch` gives a product URL's detail fetch. */
  function EnrichAll(products: seq<Product>, fetch: string -> Result<Details, FetchError>): (results: seq<Product>)
    ensures |results| == |products|
    ensures forall i :: 0 <= i < |products| ==> results[i].id == products[i].id
  {
    if |products| == 0 then []
    else
      var n := |products| - 1;
      EnrichOneSpec(products[n], fetch(products[n].url));
      EnrichAll(products[..n], fetch) + [EnrichOne(products[n], fetch(products[n].url)).0]
  }

  /** Result `i` is product `i`'s own fate. */
  lemma {:induction false} EnrichAllAt(products: seq<Product>, fetch: string -> Result<Details, FetchError>, i: nat)
    requires i < |products|
    ensures EnrichAll(products, fetch)[i] == EnrichOne(products[i], fetch(products[i].url)).0
  {
    var n := |products| - 1;
    if i < n {
      EnrichAllAt(products[..n], fetch, i);
    }
  }

  /** How many products already have details. */
  function CountSkipped(products: seq<Product>): (count: nat)
    ensures count <= |products|
  {
    if |products| == 0 then 0
    else
      var n := |products| - 1;
      CountSkipped(products[..n]) + (if HasDetails(products[n]) then 1 else 0)
  }

  /** The errors of the products that needed a fetch and did not get their details. */
  function Failures(products: seq<Product>, fetch: string -> Result<Details, FetchError>): (errors: multiset<FetchError>)
    ensures |errors| + CountSkipped(products) <= |products|
  {
    if |products| == 0 then multiset{}
    else
      var n := |products| - 1;
      var p := products[n];
      var before := Failures(products[..n], fetch);
      if !HasDetails(p) && fetch(p.url).Err? then before + multiset{fetch(p.url).error} else before
  }

  /** The counters and the error tally (`errorMap`, keyed by error rather than by its text). */
  datatype Stats = Stats(processed: nat, skipped: nat, enriched: nat, errors: nat, errorLog: multiset<FetchError>)

  /** The counters after one more product with the given outcome. */
  function Count(stats: Stats, outcome: Outcome): Stats {
    match outcome
    case Skipped => stats.(skipped := stats.skipped + 1)
    case Enriched => stats.(processed := stats.processed + 1, enriched := stats.enriched + 1)
    case Errored(e) =>
      stats.(processed := stats.processed + 1, errors := stats.errors + 1, errorLog := stats.errorLog + multiset{e})
  }

  /** The channel and counters account for exactly the products in `done`. */
  predicate Tallied(done: seq<Product>, fetch: string -> Result<Details, FetchError>, channel: seq<Product>, stats: Stats) {
    && channel == EnrichAll(done, fetch)
    && stats.skipped == CountSkipped(done)
    && stats.errorLog == Failures(done, fetch) && stats.errors == |stats.errorLog|
    && stats.skipped + stats.enriched + stats.errors == |done|
    && stats.processed == stats.enriched + stats.errors
  }

  /**
   The dispatch loop of `enrichProductsWithDetails`: each product meets the
   fate `EnrichOne` gives it (skipped, fetched and merged, or failed), the
   result is sent on the channel, and the counters are kept. The channel is shown in
   input order; the order it is received in is left to `Drain`.
   */
  method Dispatch(products: seq<Product>, fetch: string -> Result<Details, FetchError>)
    returns (channel: seq<Product>, stats: Stats)
    ensures channel == EnrichAll(products, fetch)
    ensures stats.skipped + stats.enriched + stats.errors == |products|
    ensures stats.processed == stats.enriched + stats.errors
    ensures stats.skipped == CountSkipped(products)
    ensures stats.errorLog == Failures(products, fetch) && stats.errors == |stats.errorLog|
  {
    channel := [];
    stats := Stats(0, 0, 0, 0, multiset{});
    var i := 0;
    while i < |products|
      invariant i <= |products|
      invariant Tallied(products[..i], fetch, channel, stats)
    {
      TallyStep(products, fetch, i, channel, stats);
      var p := products[i];
      var (q, outcome) := EnrichOne(p, fetch(p.url));
      channel := channel + [q];
      stats := Count(stats, outcome);
      i := i + 1;
    }
    assert products[..i] == products;
  }

  /** Counting one more product keeps the tally. */
  lemma TallyStep(products: seq<Product>, fetch: string -> Result<Details, FetchError>, i: nat,
                  channel: seq<Product>, stats: Stats)
    requires i < |products| && Tallied(products[..i], fetch, channel, stats)
    ensures var p := products[i];
      var (q, outcome) := EnrichOne(p, fetch(p.url));
      Tallied(products[..i + 1], fetch, channel + [q], Count(stats, outcome))
  {
    EnrichStep(products, fetch, i);
  }

  /**
   `enrichProductsWithDetails`: the output is a permutation of the
   per-product results, written back over the input, and the counters
   account for every product once.
   */
  method EnrichProductsWithDetails(products: seq<Product>, fetch: string -> Result<Details, FetchError>)
    returns (out: seq<Product>, stats: Stats)
    ensures multiset(out) == multiset(EnrichAll(products, fetch))
    ensures |out| == |products|
    ensures stats.skipped + stats.enriched + stats.errors == |products|
    ensures stats.processed == stats.enriched + stats.errors
    ensures stats.skipped == CountSkipped(products)
    ensures stats.errorLog == Failures(products, fetch) && stats.errors == |stats.errorLog|
  {
    var channel;
    channel, stats := Dispatch(products, fetch);
    var collected := Drain(channel);
    assert |collected| == |multiset(collected)| == |channel|;
    if |collected| > 0 {
      out := collected;
    } else {
      out := products;
    }
  }

  /** Extending the prefix by one product extends each reference by that product's share. */
  lemma EnrichStep(products: seq<Product>, fetch: string -> Result<Details, FetchError>, i: nat)
    requires i < |products|
    ensures var p := products[i];
      && EnrichAll(products[..i + 1], fetch) == EnrichAll(products[..i], fetch) + [EnrichOne(p, fetch(p.url)).0]
      && CountSkipped(products[..i + 1]) == CountSkipped(products[..i]) + (if HasDetails(p) then 1 else 0)
      && Failures(products[..i + 1], fetch) ==
           Failures(products[..i], fetch) + (if !HasDetails(p) && fetch(p.url).Err? then multiset{fetch(p.url).error} else multiset{})
  {
    var prefix := products[..i + 1];
    assert prefix[..i] == products[..i];
    assert prefix[i] == products[i];
  }

  /** Receiving everything sent on the channel, in an order the model leaves open. */
  method Drain(channel: seq<Product>) returns (received: seq<Product>)
    ensures multiset(received) == multiset(channel)
  {
    received := [];
    var pending := channel;
    while |pending| > 0
      invariant multiset(received) + multiset(pending) == multiset(channel)
      decreases |pending|
    {
      var k :| 0 <= k < |pending|;
      assert pending == pending[..k] + [pending[k]] + pending[k + 1..];
      received := received + [pending[k]];
      pending := pending[..k] + pending[k + 1..];
    }
  }
}
