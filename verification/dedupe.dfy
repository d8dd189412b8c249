/**
 `removeDuplicateProducts`: one product per ID, the last one collected
 winning, products without an ID dropped. The result comes out in the
 iteration order of a Go map, which is unspecified; the model lets that
 order be any order and states what holds for all of them.
 */
module Dedupe {
  import opened Catalog

  /**
   The map the first loop builds: each non-empty ID to the last product
   carrying it. Written as the left fold the loop performs.
   */
  function DedupeMap(products: seq<Product>): (m: map<string, Product>)
    ensures forall id :: id in m ==> id != "" && m[id].id == id
    ensures |m.Keys| <= |products|
  {
    if |products| == 0 then map[]
    else
      var before := DedupeMap(products[..|products| - 1]);
      var p := products[|products| - 1];
      if p.id == "" then before else before[p.id := p]
  }

  /** The position of a product that is the last one with its ID. */
  predicate LastWithId(products: seq<Product>, i: int) {
    0 <= i < |products| && forall j :: i < j < |products| ==> products[j].id != products[i].id
  }

  /** The map holds an ID exactly when some product carries it and it is not empty. */
  lemma {:induction false} DedupeMapKeys(products: seq<Product>, id: string)
    ensures id in DedupeMap(products) <==> id != "" && exists i :: 0 <= i < |products| && products[i].id == id
  {
    if |products| > 0 {
      var n := |products| - 1;
      var init := products[..n];
      DedupeMapKeys(init, id);
      assert forall i :: 0 <= i < n ==> init[i] == products[i];
      if id in DedupeMap(products) && products[n].id != id {
        var i :| 0 <= i < n && init[i].id == id;
        assert products[i].id == id;
      }
    }
  }

  /** The map sends each of its IDs to the last product carrying it. */
  lemma {:induction false} DedupeMapLastWins(products: seq<Product>, id: string)
    requires id in DedupeMap(products)
    ensures exists i :: LastWithId(products, i) && products[i].id == id && DedupeMap(products)[id] == products[i]
  {
    var n := |products| - 1;
    var init := products[..n];
    if products[n].id == id {
      assert LastWithId(products, n);
    } else {
      DedupeMapLastWins(init, id);
      var i :| LastWithId(init, i) && init[i].id == id && DedupeMap(init)[id] == init[i];
      assert forall j :: 0 <= j < n ==> init[j] == products[j];
      assert LastWithId(products, i);
    }
  }

  /**
   `unique` lists the map `m` by its values: one product per key, each
   stored under its own ID.
   */
  predicate ListsMap(unique: seq<Product>, m: map<string, Product>) {
    && (forall k, l :: 0 <= k < l < |unique| ==> unique[k].id != unique[l].id)
    && (forall k :: 0 <= k < |unique| ==> unique[k].id in m && m[unique[k].id] == unique[k])
    && (forall id :: id in m ==> exists k :: 0 <= k < |unique| && unique[k].id == id)
  }

  /** The first loop of `removeDuplicateProducts`: fill the map in input order. */
  method BuildMap(products: seq<Product>) returns (uniqueMap: map<string, Product>)
    ensures uniqueMap == DedupeMap(products)
  {
    uniqueMap := map[];
    var i := 0;
    while i < |products|
      invariant i <= |products|
      invariant uniqueMap == DedupeMap(products[..i])
    {
      assert products[..i + 1][..i] == products[..i];
      var product := products[i];
      if product.id != "" {
        uniqueMap := uniqueMap[product.id := product];
      }
      i := i + 1;
    }
    assert products[..i] == products;
  }

  /**
   The second loop: read the map out, one product per key, in whatever
   order the map yields its keys.
   */
  method ReadOut(uniqueMap: map<string, Product>) returns (unique: seq<Product>)
    requires forall id :: id in uniqueMap ==> uniqueMap[id].id == id
    ensures ListsMap(unique, uniqueMap)
    ensures |unique| == |uniqueMap.Keys|
  {
    var keys := uniqueMap.Keys;
    unique := [];
    while keys != {}
      invariant keys <= uniqueMap.Keys
      invariant |unique| + |keys| == |uniqueMap.Keys|
      invariant ReadSoFar(unique, uniqueMap, keys)
      decreases |keys|
    {
      var id :| id in keys;
      ReadOneMore(unique, uniqueMap, keys, id);
      unique := unique + [uniqueMap[id]];
      keys := keys - {id};
    }
  }

  /**
   `unique` lists the entries of `m` whose keys are no longer pending in
   `keys`: distinct IDs, each stored under its own ID, and every key either
   pending or listed.
   */
  predicate ReadSoFar(unique: seq<Product>, m: map<string, Product>, keys: set<string>) {
    && (forall k, l :: 0 <= k < l < |unique| ==> unique[k].id != unique[l].id)
    && (forall k :: 0 <= k < |unique| ==> unique[k].id in m && m[unique[k].id] == unique[k] && unique[k].id !in keys)
    && (forall id :: id in m ==> id in keys || exists k :: 0 <= k < |unique| && unique[k].id == id)
  }

  /** Reading out one pending key lists its product and keeps the listing exact. */
  lemma ReadOneMore(unique: seq<Product>, m: map<string, Product>, keys: set<string>, id: string)
    requires forall i :: i in m ==> m[i].id == i
    requires ReadSoFar(unique, m, keys) && id in keys && keys <= m.Keys
    ensures ReadSoFar(unique + [m[id]], m, keys - {id})
  {
    var after := unique + [m[id]];
    forall other | other in m
      ensures other in keys - {id} || exists k :: 0 <= k < |after| && after[k].id == other
    {
      if other == id {
        assert after[|unique|].id == other;
      } else if other !in keys {
        var k :| 0 <= k < |unique| && unique[k].id == other;
        assert after[k].id == other;
      }
    }
  }

  /**
   `removeDuplicateProducts`: every product in the result is the last one
   with its ID, its ID is not empty and no other result shares it, and
   every non-empty ID of the input is represented.
   */
  method RemoveDuplicateProducts(products: seq<Product>) returns (unique: seq<Product>)
    ensures ListsMap(unique, DedupeMap(products))
    ensures |unique| <= |products|
    ensures forall k :: 0 <= k < |unique| ==> unique[k].id != ""
    ensures forall k :: 0 <= k < |unique| ==>
      exists i :: LastWithId(products, i) && unique[k] == products[i]
    ensures forall i :: 0 <= i < |products| && products[i].id != "" ==>
      exists k :: 0 <= k < |unique| && unique[k].id == products[i].id
  {
    var uniqueMap := BuildMap(products);
    unique := ReadOut(uniqueMap);
    forall k | 0 <= k < |unique|
      ensures exists i :: LastWithId(products, i) && unique[k] == products[i]
    {
      DedupeMapLastWins(products, unique[k].id);
    }
    forall i | 0 <= i < |products| && products[i].id != ""
      ensures exists k :: 0 <= k < |unique| && unique[k].id == products[i].id
    {
      DedupeMapKeys(products, products[i].id);
    }
  }

  /**
   Products with distinct, non-empty IDs are a fixed point: the map built
   from them holds every one of them under its ID, and nothing else.
   */
  lemma {:induction false} DedupeMapOfDistinct(unique: seq<Product>)
    requires forall k :: 0 <= k < |unique| ==> unique[k].id != ""
    requires forall k, l :: 0 <= k < l < |unique| ==> unique[k].id != unique[l].id
    ensures ListsMap(unique, DedupeMap(unique))
  {
    var m := DedupeMap(unique);
    forall k | 0 <= k < |unique|
      ensures unique[k].id in m && m[unique[k].id] == unique[k]
    {
      DedupeMapKeys(unique, unique[k].id);
      DedupeMapLastWins(unique, unique[k].id);
      var i :| LastWithId(unique, i) && unique[i].id == unique[k].id && m[unique[k].id] == unique[i];
      assert i == k;
    }
    forall id | id in m
      ensures exists k :: 0 <= k < |unique| && unique[k].id == id
    {
      DedupeMapKeys(unique, id);
    }
  }

  /** Two listings of the same map hold the same products. */
  lemma ListingsAgree(a: seq<Product>, b: seq<Product>, m: map<string, Product>)
    requires ListsMap(a, m) && ListsMap(b, m)
    ensures forall p :: p in a <==> p in b
  {
    forall p | p in a ensures p in b {
      var k :| 0 <= k < |a| && a[k] == p;
      var l :| 0 <= l < |b| && b[l].id == p.id;
    }
    forall p | p in b ensures p in a {
      var k :| 0 <= k < |b| && b[k] == p;
      var l :| 0 <= l < |a| && a[l].id == p.id;
    }
  }

  /**
   De-duplicating twice is de-duplicating once: the map rebuilt from any
   listing of the result is the map itself, so a second pass returns the
   same products, whatever order either pass yields.
   */
  lemma DedupeIdempotent(products: seq<Product>, unique: seq<Product>, again: seq<Product>)
    requires ListsMap(unique, DedupeMap(products))
    requires ListsMap(again, DedupeMap(unique))
    ensures DedupeMap(unique) == DedupeMap(products)
    ensures forall p :: p in again <==> p in unique
  {
    var m := DedupeMap(products);
    RebuildsMap(unique, m);
    ListingsAgree(again, unique, m);
  }

  /** Any listing of a map of non-empty IDs rebuilds that very map. */
  lemma RebuildsMap(unique: seq<Product>, m: map<string, Product>)
    requires ListsMap(unique, m)
    requires forall id :: id in m ==> id != ""
    ensures DedupeMap(unique) == m
  {
    forall k | 0 <= k < |unique| ensures unique[k].id != "" {
      assert unique[k].id in m;
    }
    DedupeMapOfDistinct(unique);
    ListedMapsAgree(unique, DedupeMap(unique), m);
  }

  /** A listing determines the map it lists. */
  lemma ListedMapsAgree(unique: seq<Product>, m1: map<string, Product>, m2: map<string, Product>)
    requires ListsMap(unique, m1) && ListsMap(unique, m2)
    ensures m1 == m2
  {
    forall id | id in m1 ensures id in m2 && m1[id] == m2[id] {
      var k :| 0 <= k < |unique| && unique[k].id == id;
    }
    forall id | id in m2 ensures id in m1 {
      var k :| 0 <= k < |unique| && unique[k].id == id;
    }
    assert m1.Keys == m2.Keys;
  }

  /**
   Two records with ID "42" and one without an ID: the second "42" is the
   one kept, the one without an ID is dropped.
   */
  lemma LaterDuplicateWins(first: Product, second: Product, anonymous: Product)
    requires first.id == "42" && second.id == "42" && anonymous.id == ""
    ensures DedupeMap([first, second, anonymous]) == map["42" := second]
  {
    assert [first, second, anonymous][..2] == [first, second];
    assert [first, second][..1] == [first];
    assert [first][..0] == [];
    assert DedupeMap([first]) == map["42" := first];
    assert DedupeMap([first, second]) == map["42" := first]["42" := second];
  }
}
