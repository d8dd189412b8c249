/**
 A walk over numbered pages, apart from what the pages hold: page `p`
 comes to a failure, the products of a last page, or products and a next
 page (`step(p)`), and is requested at `url(p)`. The walk goes from a first
 page to a last one and stops at the first failure or last page.
 */
module Walks {
  import opened Wrappers
  import opened Catalog

  /** What one page of a walk comes to: a failure, the last page's products, or products and a next page. */
  datatype Step = Failed(error: FetchError) | Stop(products: seq<Product>) | Next(products: seq<Product>)

  /** The outcome of a walk and the URLs it fetched, in order. */
  datatype Walk = Walk(result: Result<seq<Product>, FetchError>, fetched: seq<string>)

  /** Puts already fetched pages and products in front of the rest of a walk. */
  function Prepend(products: seq<Product>, urls: seq<string>, rest: Walk): Walk {
    Walk(match rest.result
         case Ok(more) => Ok(products + more)
         case Err(e) => Err(e),
         urls + rest.fetched)
  }

  /** The walk from `pageNum` to `cap`, one page at a time. */
  function Walking(step: int -> Step, url: int -> string, pageNum: int, cap: int): Walk
    decreases cap - pageNum + 1
  {
    if pageNum > cap then Walk(Ok([]), [])
    else
      match step(pageNum)
      case Failed(e) => Walk(Err(e), [url(pageNum)])
      case Stop(products) => Walk(Ok(products), [url(pageNum)])
      case Next(products) => Prepend(products, [url(pageNum)], Walking(step, url, pageNum + 1, cap))
  }

  /** Putting pages in front of a walk in two steps is putting them in front at once. */
  lemma PrependAssoc(a: seq<Product>, u: seq<string>, b: seq<Product>, v: seq<string>, w: Walk)
    ensures Prepend(a, u, Prepend(b, v, w)) == Prepend(a + b, u + v, w)
  {
    assert u + (v + w.fetched) == (u + v) + w.fetched;
    if w.result.Ok? {
      assert a + (b + w.result.value) == (a + b) + w.result.value;
    }
  }

  /** Putting nothing in front of a walk leaves it as it is. */
  lemma PrependNothing(w: Walk)
    ensures Prepend([], [], w) == w
  {
    assert [] + w.fetched == w.fetched;
    if w.result.Ok? {
      assert [] + w.result.value == w.result.value;
    }
  }

  /** The products a page contributes: none when it fails. */
  function StepProducts(s: Step): seq<Product> {
    if s.Failed? then [] else s.products
  }

  /** The products of `n` pages from `pageNum`, in page order. */
  function ProductsOf(step: int -> Step, pageNum: int, n: nat): seq<Product>
    decreases n
  {
    if n == 0 then [] else StepProducts(step(pageNum)) + ProductsOf(step, pageNum + 1, n - 1)
  }

  /**
   A walk requests consecutive pages from its first one, never more than
   the pages up to the last, and at least one when it starts at or below it.
   */
  lemma {:induction false} WalkingFetchesConsecutivePages(step: int -> Step, url: int -> string, pageNum: int, cap: int)
    ensures var w := Walking(step, url, pageNum, cap);
      && |w.fetched| <= (if pageNum <= cap then cap - pageNum + 1 else 0)
      && (pageNum <= cap ==> |w.fetched| >= 1)
      && forall k :: 0 <= k < |w.fetched| ==> w.fetched[k] == url(pageNum + k)
    decreases cap - pageNum + 1
  {
    if pageNum <= cap && step(pageNum).Next? {
      WalkingFetchesConsecutivePages(step, url, pageNum + 1, cap);
      var rest := Walking(step, url, pageNum + 1, cap);
      var w := Walking(step, url, pageNum, cap);
      assert w.fetched == [url(pageNum)] + rest.fetched;
      forall k | 1 <= k < |w.fetched|
        ensures w.fetched[k] == url(pageNum + k)
      {
        assert w.fetched[k] == rest.fetched[k - 1];
      }
    }
  }

  /** Every page of a walk but the last one requested went on to its successor. */
  lemma {:induction false} WalkingContinuesBeforeLast(step: int -> Step, url: int -> string, pageNum: int, cap: int)
    ensures var w := Walking(step, url, pageNum, cap);
      forall p :: pageNum <= p < pageNum + |w.fetched| - 1 ==> step(p).Next?
    decreases cap - pageNum + 1
  {
    if pageNum <= cap && step(pageNum).Next? {
      WalkingContinuesBeforeLast(step, url, pageNum + 1, cap);
      var rest := Walking(step, url, pageNum + 1, cap);
      assert |Walking(step, url, pageNum, cap).fetched| == 1 + |rest.fetched|;
    }
  }

  /** The last page a walk requests failed, ended the walk, or was the last page allowed. */
  lemma {:induction false} WalkingLastStops(step: int -> Step, url: int -> string, pageNum: int, cap: int)
    ensures var w := Walking(step, url, pageNum, cap);
      |w.fetched| > 0 ==>
        var last := pageNum + |w.fetched| - 1;
        !step(last).Next? || last == cap
    decreases cap - pageNum + 1
  {
    if pageNum <= cap && step(pageNum).Next? {
      WalkingLastStops(step, url, pageNum + 1, cap);
      WalkingFetchesConsecutivePages(step, url, pageNum + 1, cap);
      var rest := Walking(step, url, pageNum + 1, cap);
      assert |Walking(step, url, pageNum, cap).fetched| == 1 + |rest.fetched|;
    }
  }

  /**
   A walk that fails reports the failure of the last page it requested;
   one that succeeds returns the products of every page it requested, in
   page order.
   */
  lemma {:induction false} WalkingResult(step: int -> Step, url: int -> string, pageNum: int, cap: int)
    ensures var w := Walking(step, url, pageNum, cap);
      && (w.result.Err? ==> |w.fetched| > 0 && step(pageNum + |w.fetched| - 1) == Failed(w.result.error))
      && (w.result.Ok? ==> w.result.value == ProductsOf(step, pageNum, |w.fetched|))
    decreases cap - pageNum + 1
  {
    if pageNum <= cap {
      var s := step(pageNum);
      if s.Next? {
        WalkingResult(step, url, pageNum + 1, cap);
        var rest := Walking(step, url, pageNum + 1, cap);
        assert pageNum + 1 + |rest.fetched| - 1 == pageNum + (1 + |rest.fetched|) - 1;
      } else if s.Stop? {
        assert ProductsOf(step, pageNum + 1, 0) == [];
        assert s.products + [] == s.products;
      }
    }
  }
}
