/**
 * `ProductManager`: the product lookup, which remembers its result, and the
 * substitute selection, run step by step as the manager runs it.
 */
module Manager {
  import opened Wrappers
  import opened Sorting
  import opened Text
  import opened Models
  import opened Ranking

  /**
   * The category walk: each pass replaces the pool by the pool of the
   * current category, and a pool smaller than the limit stops the walk.
   */
  method WalkCategories(better: seq<Product>, cats: seq<Category>) returns (similar: Option<seq<Product>>)
    ensures similar == StopPool(better, cats)
    ensures similar.None? <==> cats == []
  {
    similar := None;
    var i := 0;
    while i < |cats|
      invariant 0 <= i <= |cats|
      invariant similar == if i == 0 then None else Some(CategoryPool(better, cats[i - 1]))
      invariant forall j :: 0 <= j < i ==> |CategoryPool(better, cats[j])| >= POOL_LIMIT
    {
      similar := Some(CategoryPool(better, cats[i]));
      if |similar.value| < POOL_LIMIT {
        StopIndexUnique(better, cats, i);
        return;
      }
      i := i + 1;
    }
    if cats != [] {
      StopIndexUnique(better, cats, i - 1);
    }
  }

  /** The inner scoring loop: how many of `cats` the candidate also has. */
  method CountShared(cats: seq<Category>, candidate: Product) returns (score: nat)
    ensures score == Score(cats, candidate)
    ensures score <= |cats|
  {
    score := 0;
    var j := 0;
    while j < |cats|
      invariant 0 <= j <= |cats|
      invariant score == Score(cats[..j], candidate)
    {
      assert cats[..j + 1][..j] == cats[..j];
      if cats[j] in candidate.categories {
        score := score + 1;
      }
      j := j + 1;
    }
    assert cats[..|cats|] == cats;
  }

  /** The relevance list: one (name, score) entry per pool member, in pool order. */
  method ScoreCandidates(pool: seq<Product>, cats: seq<Category>) returns (relevance: seq<Entry>)
    ensures relevance == Relevance(pool, cats)
    ensures |relevance| == |pool|
    ensures forall k :: 0 <= k < |pool| ==> relevance[k].name == pool[k].name
  {
    relevance := [];
    var n := 0;
    while n < |pool|
      invariant 0 <= n <= |pool|
      invariant |relevance| == n
      invariant forall k :: 0 <= k < n ==> relevance[k] == Entry(pool[k].name, Score(cats, pool[k]))
    {
      var score := CountShared(cats, pool[n]);
      relevance := relevance + [Entry(pool[n].name, score)];
      n := n + 1;
    }
  }

  /** `names_list`: the names of the kept entries, in order. */
  method ListNames(entries: seq<Entry>) returns (names: seq<string>)
    ensures names == Names(entries)
    ensures forall k :: 0 <= k < |entries| ==> entries[k].name in names
  {
    names := [];
    var t := 0;
    while t < |entries|
      invariant 0 <= t <= |entries|
      invariant names == Names(entries[..t])
    {
      names := names + [entries[t].name];
      t := t + 1;
    }
    assert entries[..t] == entries;
    assert forall k :: 0 <= k < |entries| ==> names[k] == entries[k].name;
  }

  /**
   * The exclusion loop: excluding, one by one, every pool member whose name
   * is not listed leaves exactly the listed members, in pool order.
   */
  method ExcludeUnlisted(pool: seq<Product>, names: seq<string>) returns (kept: seq<Product>)
    ensures kept == Filter(pool, NameIn(names))
    ensures forall x :: x in kept <==> x in pool && x.name in names
  {
    kept := pool;
    ghost var dropped: seq<string> := [];
    FilterKeepsAll(pool, Not(NameIn(dropped)));
    var e := 0;
    while e < |pool|
      invariant 0 <= e <= |pool|
      invariant kept == Filter(pool, Not(NameIn(dropped)))
      invariant forall k :: 0 <= k < e ==> pool[k].name in names || pool[k].name in dropped
      invariant forall d :: d in dropped ==> d !in names
    {
      var name := pool[e].name;
      ghost var dropped' := if name in names then dropped else dropped + [name];
      forall k | 0 <= k < e + 1
        ensures pool[k].name in names || pool[k].name in dropped'
      {
        if k < e && pool[k].name !in names {
          assert pool[k].name in dropped;
        }
      }
      if name !in names {
        ExcludeOneMore(pool, dropped, name);
        kept := Exclude(kept, NameIs(name));
      }
      dropped := dropped';
      e := e + 1;
    }
    ExcludedAllUnlisted(pool, names, dropped);
    FilterMembers(pool, NameIn(names));
  }

  class ProductManager {
    /** The Product table, in primary-key order; the manager only reads it. */
    const products: seq<Product>
    /** The result of the last lookup (None before any lookup). */
    var searchedProduct: Option<Product>

    ghost predicate Valid()
    {
      WellFormed(products)
    }

    constructor (table: seq<Product>)
      requires WellFormed(table)
      ensures Valid() && products == table && searchedProduct == None
    {
      products := table;
      searchedProduct := None;
    }

    /**
     * `get_product_from_(search)`: the lowest-primary-key product whose name
     * contains `search` ignoring case, or None; the result is also kept in
     * `searchedProduct`.
     */
    method GetProductFrom(search: string) returns (r: Option<Product>)
      requires Valid()
      modifies this`searchedProduct
      ensures searchedProduct == r
      ensures r == FirstNamed(products, search)
      ensures r.None? <==> forall p :: p in products ==> !IContains(p.name, search)
      ensures r.Some? ==> r.value in products && IContains(r.value.name, search)
      ensures r.Some? ==> forall p :: p in products && IContains(p.name, search) ==> r.value.pk <= p.pk
    {
      FirstNamedIsLowestPk(products, search);
      searchedProduct := First(Filter(products, NameIContains(search)));
      r := searchedProduct;
    }

    /**
     * `get_substitutes(product)`: None for no product, an AttributeError for
     * a product without categories, and otherwise at most 24 products with a
     * nutriscore no lower than the product's, ordered by nutriscore.
     */
    method GetSubstitutes(product: Option<Product>) returns (r: Substitution)
      requires Valid()
      ensures r == SubstitutesFor(products, product)
      ensures r.NoProduct? <==> product.None?
      ensures r.AttributeError? <==> product.Some? && product.value.categories == []
      ensures r.Substitutes? ==> |r.products| <= TOP_COUNT && UniqueNames(r.products)
      ensures r.Substitutes? ==> SortedBy(r.products, NutriscoreLe)
      ensures r.Substitutes? ==> forall x :: x in r.products ==>
                x in products && LexLe(product.value.nutriscore, x.nutriscore) &&
                StopCategory(Filter(products, NutriscoreGte(product.value.nutriscore)),
                             product.value.categories) in x.categories
    {
      if product.None? {
        return NoProduct;
      }
      var searched := product.value;
      var better := Filter(products, NutriscoreGte(searched.nutriscore));
      var cats := searched.categories;

      var similar := WalkCategories(better, cats);
      var pool := if similar.Some? then similar.value else [];
      var relevance := ScoreCandidates(pool, cats);
      relevance := SortBy(relevance, ScoreLe);
      relevance := relevance[..Min(TOP_COUNT, |relevance|)];
      var names := ListNames(relevance);
      var kept := ExcludeUnlisted(pool, names);

      match similar
      case None =>
        r := AttributeError;
      case Some(_) =>
        OrderByNutriscoreTwice(kept);
        r := Substitutes(OrderByNutriscore(OrderByNutriscore(kept)));
        SubstitutesAtMostTopCount(products, searched);
        SubstitutesOrdered(products, searched);
        forall x | x in r.products
          ensures x in products && LexLe(searched.nutriscore, x.nutriscore)
          ensures StopCategory(better, cats) in x.categories
        {
          SubstitutesMembers(products, searched, x);
        }
    }
  }
}
