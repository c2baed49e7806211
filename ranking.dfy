/**
 * What `get_substitutes` computes, as functions of the Product table and the
 * searched product, and the properties of that result.
 */
module Ranking {
  import opened Wrappers
  import opened Sorting
  import opened Text
  import opened Models

  /** A category pool below this size stops the category walk. */
  const POOL_LIMIT := 100
  /** How many relevance entries survive the truncation. */
  const TOP_COUNT := 24

  /** One `(product.name, score)` pair of the relevance list. */
  datatype Entry = Entry(name: string, score: nat)

  /** The sort key of the relevance list: the score, ascending. */
  predicate ScoreLe(a: Entry, b: Entry)
  {
    a.score <= b.score
  }

  /** The outcome of `get_substitutes`. */
  datatype Substitution =
    | NoProduct                           // the given product was None
    | AttributeError                      // `order_by` called on the plain list `[]`
    | Substitutes(products: seq<Product>)

  function CategoryPool(better: seq<Product>, c: Category): seq<Product>
  {
    Filter(better, HasCategory(c))
  }

  /**
   * The category at which the walk over `cats` stops, from position `i` on:
   * the first whose pool is smaller than the limit, or else the last one.
   */
  function StopIndex(better: seq<Product>, cats: seq<Category>, i: nat): (k: nat)
    requires i < |cats|
    ensures i <= k < |cats|
    ensures forall j :: i <= j < k ==> |CategoryPool(better, cats[j])| >= POOL_LIMIT
    ensures |CategoryPool(better, cats[k])| < POOL_LIMIT || k == |cats| - 1
    decreases |cats| - i
  {
    if |CategoryPool(better, cats[i])| < POOL_LIMIT || i == |cats| - 1 then i
    else StopIndex(better, cats, i + 1)
  }

  /**
   * `similar_products` after the category walk: the pool of the stop
   * category alone, replacing every earlier pool, or nothing (the plain
   * list `[]`) when the product has no category.
   */
  function StopPool(better: seq<Product>, cats: seq<Category>): Option<seq<Product>>
  {
    if cats == [] then None else Some(CategoryPool(better, StopCategory(better, cats)))
  }

  function StopCategory(better: seq<Product>, cats: seq<Category>): Category
    requires cats != []
  {
    cats[StopIndex(better, cats, 0)]
  }

  /** How many of `cats` the candidate `p` also has. */
  function Score(cats: seq<Category>, p: Product): (n: nat)
    ensures n <= |cats|
  {
    if cats == [] then 0
    else Score(cats[..|cats| - 1], p) + (if cats[|cats| - 1] in p.categories then 1 else 0)
  }

  /** The relevance list, one entry per pool member in pool order. */
  function Relevance(pool: seq<Product>, cats: seq<Category>): seq<Entry>
  {
    seq(|pool|, k requires 0 <= k < |pool| => Entry(pool[k].name, Score(cats, pool[k])))
  }

  function Min(a: int, b: int): int
  {
    if a < b then a else b
  }

  /** `relevance_list.sort(key=score)` followed by `relevance_list[0:24]`. */
  function TopEntries(relevance: seq<Entry>): seq<Entry>
  {
    var ranked := SortBy(relevance, ScoreLe);
    ranked[..Min(TOP_COUNT, |ranked|)]
  }

  function Names(entries: seq<Entry>): seq<string>
  {
    seq(|entries|, i requires 0 <= i < |entries| => entries[i].name)
  }

  /** The result of `get_substitutes(product)` on the Product table `table`. */
  function SubstitutesFor(table: seq<Product>, product: Option<Product>): Substitution
  {
    match product
    case None => NoProduct
    case Some(p) =>
      match StopPool(Filter(table, NutriscoreGte(p.nutriscore)), p.categories)
      case None => AttributeError
      case Some(pool) =>
        var names := Names(TopEntries(Relevance(pool, p.categories)));
        Substitutes(OrderByNutriscore(Filter(pool, NameIn(names))))
  }

  lemma ScoreLeTotalPreorder()
    ensures TotalPreorder(ScoreLe)
  {
  }

  /** The stop index is determined by its two defining conditions. */
  lemma StopIndexUnique(better: seq<Product>, cats: seq<Category>, k: nat)
    requires k < |cats|
    requires forall j :: 0 <= j < k ==> |CategoryPool(better, cats[j])| >= POOL_LIMIT
    requires |CategoryPool(better, cats[k])| < POOL_LIMIT || k == |cats| - 1
    ensures StopIndex(better, cats, 0) == k
  {
  }

  /** Every member of the stop pool passed the nutriscore filter and has the stop category. */
  lemma StopPoolMembers(table: seq<Product>, p: Product, x: Product)
    requires p.categories != []
    ensures var better := Filter(table, NutriscoreGte(p.nutriscore));
      var stop := StopCategory(better, p.categories);
      x in StopPool(better, p.categories).value <==>
        x in table && LexLe(p.nutriscore, x.nutriscore) && stop in x.categories
  {
    var better := Filter(table, NutriscoreGte(p.nutriscore));
    FilterMembers(table, NutriscoreGte(p.nutriscore));
    FilterMembers(better, HasCategory(StopCategory(better, p.categories)));
  }

  /** The score counts the searched product's categories that the candidate shares. */
  lemma {:induction false} ScoreCountsShared(cats: seq<Category>, p: Product)
    requires DistinctCategories(cats)
    ensures Score(cats, p) == |set c | c in cats && c in p.categories|
  {
    if cats != [] {
      var init, last := cats[..|cats| - 1], cats[|cats| - 1];
      assert DistinctCategories(init);
      ScoreCountsShared(init, p);
      var before := set c | c in init && c in p.categories;
      var after := set c | c in cats && c in p.categories;
      assert cats == init + [last];
      assert last !in init;
      if last in p.categories {
        assert after == before + {last};
      } else {
        assert after == before;
      }
    }
  }

  /** A candidate holding one of the searched categories scores at least one. */
  lemma {:induction false} ScoreAtLeastOne(cats: seq<Category>, p: Product, c: Category)
    requires c in cats && c in p.categories
    ensures Score(cats, p) >= 1
  {
    var init := cats[..|cats| - 1];
    if c != cats[|cats| - 1] {
      assert cats == init + [cats[|cats| - 1]];
      ScoreAtLeastOne(init, p, c);
    }
  }

  /**
   * Every score of the relevance list lies between 1 and the number of the
   * searched product's categories, since each candidate has the stop category.
   */
  lemma RelevanceBounds(table: seq<Product>, p: Product)
    requires p.categories != []
    ensures var pool := StopPool(Filter(table, NutriscoreGte(p.nutriscore)), p.categories).value;
      forall e :: e in Relevance(pool, p.categories) ==> 1 <= e.score <= |p.categories|
  {
    var better := Filter(table, NutriscoreGte(p.nutriscore));
    var stop := StopCategory(better, p.categories);
    var pool := StopPool(better, p.categories).value;
    forall k | 0 <= k < |pool|
      ensures Score(p.categories, pool[k]) >= 1
    {
      assert pool[k] in pool;
      StopPoolMembers(table, p, pool[k]);
      ScoreAtLeastOne(p.categories, pool[k], stop);
    }
  }

  /** The truncation keeps min(24, n) entries of the relevance list, in ascending score. */
  lemma TopEntriesShape(relevance: seq<Entry>)
    ensures var top := TopEntries(relevance);
      |top| == Min(TOP_COUNT, |relevance|) &&
      multiset(top) <= multiset(relevance) &&
      SortedBy(top, ScoreLe)
  {
    var ranked := SortBy(relevance, ScoreLe);
    var n := Min(TOP_COUNT, |ranked|);
    ScoreLeTotalPreorder();
    SortBySorted(relevance, ScoreLe);
    assert ranked == ranked[..n] + ranked[n..];
    assert multiset(ranked) == multiset(ranked[..n]) + multiset(ranked[n..]);
  }

  /**
   * Every kept entry scores no higher than every dropped one: the
   * truncation keeps the least relevant entries.
   */
  lemma TopEntriesLeastRelevant(relevance: seq<Entry>, e: Entry, d: Entry)
    requires e in TopEntries(relevance)
    requires d in multiset(relevance) - multiset(TopEntries(relevance))
    ensures e.score <= d.score
  {
    var ranked := SortBy(relevance, ScoreLe);
    ScoreLeTotalPreorder();
    SortBySorted(relevance, ScoreLe);
    SortedPrefixBeforeRest(ranked, ScoreLe, Min(TOP_COUNT, |ranked|), e, d);
  }

  /** Among entries of equal score, the sorted relevance list keeps the pool order. */
  lemma RelevanceSortStable(relevance: seq<Entry>, e: Entry)
    ensures EquivClass(SortBy(relevance, ScoreLe), ScoreLe, e) == EquivClass(relevance, ScoreLe, e)
  {
    ScoreLeTotalPreorder();
    SortByStable(relevance, ScoreLe, e);
  }

  /**
   * Among entries of equal score, the truncated list keeps a leading part of
   * them, in pool order.
   */
  lemma TopEntriesKeepPoolOrder(relevance: seq<Entry>, e: Entry)
    ensures var kept := EquivClass(TopEntries(relevance), ScoreLe, e);
      var all := EquivClass(relevance, ScoreLe, e);
      |kept| <= |all| && kept == all[..|kept|]
  {
    var ranked := SortBy(relevance, ScoreLe);
    var n := Min(TOP_COUNT, |ranked|);
    var top, rest := ranked[..n], ranked[n..];
    assert ranked == top + rest;
    assert top == TopEntries(relevance);
    EquivClassAppend(top, rest, ScoreLe, e);
    RelevanceSortStable(relevance, e);
  }

  lemma TopNamesCount(relevance: seq<Entry>)
    ensures |Names(TopEntries(relevance))| <= TOP_COUNT
  {
  }

  /**
   * A substitute is exactly a member of the stop pool whose name is among
   * the kept names; hence it passed the nutriscore filter and carries the
   * stop category.
   */
  lemma SubstitutesMembers(table: seq<Product>, p: Product, x: Product)
    requires p.categories != []
    ensures var better := Filter(table, NutriscoreGte(p.nutriscore));
      var stop := StopCategory(better, p.categories);
      var pool := StopPool(better, p.categories).value;
      var names := Names(TopEntries(Relevance(pool, p.categories)));
      var r := SubstitutesFor(table, Some(p));
      r.Substitutes? &&
      (x in r.products <==> x in pool && x.name in names) &&
      (x in r.products ==> x in table && LexLe(p.nutriscore, x.nutriscore) && stop in x.categories)
  {
    var better := Filter(table, NutriscoreGte(p.nutriscore));
    var pool := StopPool(better, p.categories).value;
    var names := Names(TopEntries(Relevance(pool, p.categories)));
    var kept := Filter(pool, NameIn(names));
    StopPoolMembers(table, p, x);
    FilterMembers(pool, NameIn(names));
    OrderByNutriscoreSorts(kept);
    assert x in OrderByNutriscore(kept) <==> x in multiset(kept);
  }

  /**
   * The substitutes come non-decreasing by nutriscore, with ties in pool
   * order, and are a rearrangement of the kept pool members.
   */
  lemma SubstitutesOrdered(table: seq<Product>, p: Product)
    requires p.categories != []
    ensures var better := Filter(table, NutriscoreGte(p.nutriscore));
      var pool := StopPool(better, p.categories).value;
      var kept := Filter(pool, NameIn(Names(TopEntries(Relevance(pool, p.categories)))));
      var r := SubstitutesFor(table, Some(p));
      r.Substitutes? &&
      SortedBy(r.products, NutriscoreLe) &&
      multiset(r.products) == multiset(kept) &&
      forall y :: EquivClass(r.products, NutriscoreLe, y) == EquivClass(kept, NutriscoreLe, y)
  {
    var better := Filter(table, NutriscoreGte(p.nutriscore));
    var pool := StopPool(better, p.categories).value;
    var kept := Filter(pool, NameIn(Names(TopEntries(Relevance(pool, p.categories)))));
    OrderByNutriscoreSorts(kept);
    forall y {
      OrderByNutriscoreStable(kept, y);
    }
  }

  lemma StopPoolUniqueNames(table: seq<Product>, p: Product)
    requires UniqueNames(table) && p.categories != []
    ensures UniqueNames(StopPool(Filter(table, NutriscoreGte(p.nutriscore)), p.categories).value)
  {
    var better := Filter(table, NutriscoreGte(p.nutriscore));
    FilterUniqueNames(table, NutriscoreGte(p.nutriscore));
    FilterUniqueNames(better, HasCategory(StopCategory(better, p.categories)));
  }

  /** Keeping the pool members named in `names` keeps at most |names| of them. */
  lemma KeptWithinNames(pool: seq<Product>, names: seq<string>)
    requires UniqueNames(pool)
    ensures UniqueNames(Filter(pool, NameIn(names)))
    ensures |Filter(pool, NameIn(names))| <= |names|
  {
    var kept := Filter(pool, NameIn(names));
    FilterUniqueNames(pool, NameIn(names));
    FilterMembers(pool, NameIn(names));
    forall k | 0 <= k < |kept|
      ensures kept[k].name in names
    {
      assert kept[k] in kept;
    }
    UniqueNamesBound(kept, names);
  }

  /** On a well-formed table there are at most 24 substitutes, all with distinct names. */
  lemma SubstitutesAtMostTopCount(table: seq<Product>, p: Product)
    requires WellFormed(table)
    requires p.categories != []
    ensures var r := SubstitutesFor(table, Some(p));
      r.Substitutes? && |r.products| <= TOP_COUNT && UniqueNames(r.products)
  {
    var better := Filter(table, NutriscoreGte(p.nutriscore));
    var pool := StopPool(better, p.categories).value;
    var names := Names(TopEntries(Relevance(pool, p.categories)));
    var kept := Filter(pool, NameIn(names));
    StopPoolUniqueNames(table, p);
    KeptWithinNames(pool, names);
    TopNamesCount(Relevance(pool, p.categories));
    OrderByNutriscoreSorts(kept);
    UniqueNamesPermutation(OrderByNutriscore(kept), kept);
    assert SubstitutesFor(table, Some(p)) == Substitutes(OrderByNutriscore(kept));
  }

  // A worked example: A ("a", Dairy), B ("b", Dairy) and C ("c", Snacks).
  const DAIRY := Category("Dairy")
  const SNACKS := Category("Snacks")
  const EXAMPLE_A := Product(1, "A", "a", [DAIRY])
  const EXAMPLE_B := Product(2, "B", "b", [DAIRY])
  const EXAMPLE_C := Product(3, "C", "c", [SNACKS])
  const EXAMPLE_TABLE := [EXAMPLE_A, EXAMPLE_B, EXAMPLE_C]

  /** Searching "A" finds A. */
  lemma ExampleLookup()
    ensures FirstNamed(EXAMPLE_TABLE, "A") == Some(EXAMPLE_A)
  {
    assert LowerCase("A") == "a";
    assert StartsWith(LowerCase("A"), LowerCase("A"));
    assert Filter(EXAMPLE_TABLE, NameIContains("A"))[0] == EXAMPLE_A;
  }

  /** All three products pass A's nutriscore; the Dairy pool is A and B. */
  lemma ExamplePool()
    ensures StopPool(Filter(EXAMPLE_TABLE, NutriscoreGte("a")), [DAIRY]) == Some([EXAMPLE_A, EXAMPLE_B])
  {
    var table := EXAMPLE_TABLE;
    assert LexLe("a", "b") && LexLe("a", "c");
    LexLeReflexive("a");
    FilterKeepsAll(table, NutriscoreGte("a"));
    assert table[1..] == [EXAMPLE_B, EXAMPLE_C] && table[1..][1..] == [EXAMPLE_C];
    assert Filter([EXAMPLE_C], HasCategory(DAIRY)) == [];
    assert Filter([EXAMPLE_B, EXAMPLE_C], HasCategory(DAIRY)) == [EXAMPLE_B];
    assert CategoryPool(table, DAIRY) == [EXAMPLE_A, EXAMPLE_B];
  }

  /** Both score 1, both names are kept, and the substitutes of A are A then B; C shares no category. */
  lemma ExampleSubstitutes()
    ensures SubstitutesFor(EXAMPLE_TABLE, Some(EXAMPLE_A)) == Substitutes([EXAMPLE_A, EXAMPLE_B])
  {
    var pool := [EXAMPLE_A, EXAMPLE_B];
    ExamplePool();
    var relevance := Relevance(pool, [DAIRY]);
    assert relevance == [Entry("A", 1), Entry("B", 1)];
    SortByOfSorted(relevance, ScoreLe);
    assert Names(TopEntries(relevance)) == ["A", "B"];
    FilterKeepsAll(pool, NameIn(["A", "B"]));
    assert LexLe("a", "b");
    SortByOfSorted(pool, NutriscoreLe);
  }
}
