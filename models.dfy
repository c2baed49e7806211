/**
 * The `Category` and `Product` records and the queries the product manager
 * runs on them. The Product table is a sequence in primary-key order; a
 * queryset is a sequence of rows, and `filter`, `exclude`, `first` and
 * `order_by` are functions on such sequences.
 */
module Models {
  import opened Wrappers
  import opened Text
  import opened Sorting

  /** A category, identified by its unique name. */
  datatype Category = Category(name: string)

  /**
   * A product as far as the queries see it: its primary key, its unique
   * name, its nutriscore grade (text) and its categories (the many-to-many
   * relation, in the order the relation yields them).
   */
  datatype Product = Product(pk: nat, name: string, nutriscore: string, categories: seq<Category>)

  predicate DistinctCategories(cs: seq<Category>)
  {
    forall i, j :: 0 <= i < j < |cs| ==> cs[i] != cs[j]
  }

  predicate UniqueNames(s: seq<Product>)
  {
    forall i, j :: 0 <= i < j < |s| ==> s[i].name != s[j].name
  }

  predicate PkOrdered(s: seq<Product>)
  {
    forall i, j :: 0 <= i < j < |s| ==> s[i].pk < s[j].pk
  }

  /**
   * What the database guarantees of the Product table, read as a sequence
   * in strictly increasing primary-key order (so keys are distinct):
   * `name` is unique, and a product is linked to a category at most once.
   */
  predicate WellFormed(table: seq<Product>)
  {
    PkOrdered(table) && UniqueNames(table) &&
    forall k :: 0 <= k < |table| ==> DistinctCategories(table[k].categories)
  }

  /** The field lookups the manager uses; `Not` is what `exclude` applies. */
  datatype Lookup =
    | NameIContains(search: string)    // name__icontains=search
    | NameIs(name: string)             // name=name
    | NameIn(names: seq<string>)       // name__in=names
    | NutriscoreGte(grade: string)     // nutriscore__gte=grade
    | HasCategory(category: Category)  // categories=category
    | Not(lookup: Lookup)

  predicate Matches(p: Product, q: Lookup)
  {
    match q
    case NameIContains(search) => IContains(p.name, search)
    case NameIs(name) => p.name == name
    case NameIn(names) => p.name in names
    case NutriscoreGte(grade) => LexLe(grade, p.nutriscore)
    case HasCategory(c) => c in p.categories
    case Not(q') => !Matches(p, q')
  }

  /** `s.filter(q)`: the rows of `s` that match `q`, in the order of `s`. */
  function Filter(s: seq<Product>, q: Lookup): (r: seq<Product>)
    ensures |r| <= |s|
  {
    if s == [] then []
    else (if Matches(s[0], q) then [s[0]] else []) + Filter(s[1..], q)
  }

  /** `s.exclude(q)`. */
  function Exclude(s: seq<Product>, q: Lookup): seq<Product>
  {
    Filter(s, Not(q))
  }

  /** `s.first()` on a queryset already in primary-key order. */
  function First(s: seq<Product>): Option<Product>
  {
    if s == [] then None else Some(s[0])
  }

  /** `name__icontains=search` followed by `.first()`. */
  function FirstNamed(table: seq<Product>, search: string): Option<Product>
  {
    First(Filter(table, NameIContains(search)))
  }

  predicate NutriscoreLe(a: Product, b: Product)
  {
    LexLe(a.nutriscore, b.nutriscore)
  }

  /** `s.order_by("nutriscore")`, ties kept in the order of `s`. */
  function OrderByNutriscore(s: seq<Product>): seq<Product>
  {
    SortBy(s, NutriscoreLe)
  }

  /** The rows of `s.filter(q)` are exactly the rows of `s` that match `q`. */
  lemma {:induction false} FilterMembers(s: seq<Product>, q: Lookup)
    ensures forall p :: p in Filter(s, q) <==> p in s && Matches(p, q)
  {
    if s != [] {
      FilterMembers(s[1..], q);
      assert s == [s[0]] + s[1..];
    }
  }

  /** Filtering keeps the order of the rows, so a unique name stays unique. */
  lemma {:induction false} FilterUniqueNames(s: seq<Product>, q: Lookup)
    requires UniqueNames(s)
    ensures UniqueNames(Filter(s, q))
  {
    if s != [] {
      FilterUniqueNames(s[1..], q);
      FilterMembers(s[1..], q);
      var rest := Filter(s[1..], q);
      forall j | 0 <= j < |rest|
        ensures rest[j].name != s[0].name
      {
        assert rest[j] in s[1..];
      }
    }
  }

  /** A filter that every row passes changes nothing. */
  lemma {:induction false} FilterKeepsAll(s: seq<Product>, q: Lookup)
    requires forall k :: 0 <= k < |s| ==> Matches(s[k], q)
    ensures Filter(s, q) == s
  {
    if s != [] {
      FilterKeepsAll(s[1..], q);
      assert s == [s[0]] + s[1..];
    }
  }

  /** Two lookups that agree on every row of `s` select the same rows. */
  lemma {:induction false} FilterAgrees(s: seq<Product>, q: Lookup, q': Lookup)
    requires forall k :: 0 <= k < |s| ==> (Matches(s[k], q) <==> Matches(s[k], q'))
    ensures Filter(s, q) == Filter(s, q')
  {
    if s != [] {
      FilterAgrees(s[1..], q, q');
    }
  }

  lemma FilterCons(x: Product, t: seq<Product>, q: Lookup)
    ensures Filter([x] + t, q) == (if Matches(x, q) then [x] else []) + Filter(t, q)
  {
    assert ([x] + t)[0] == x && ([x] + t)[1..] == t;
  }

  /** Chaining two filters is one filter by the conjunction of their lookups. */
  lemma {:induction false} FilterChain(s: seq<Product>, q1: Lookup, q2: Lookup, q: Lookup)
    requires forall p :: p in s ==> (Matches(p, q) <==> Matches(p, q1) && Matches(p, q2))
    ensures Filter(Filter(s, q1), q2) == Filter(s, q)
  {
    if s != [] {
      var x, t := s[0], s[1..];
      assert s == [x] + t;
      FilterChain(t, q1, q2, q);
      FilterChainCons(x, t, q1, q2, q);
    }
  }

  /** The step of `FilterChain` past one row `x`. */
  lemma FilterChainCons(x: Product, t: seq<Product>, q1: Lookup, q2: Lookup, q: Lookup)
    requires Matches(x, q) <==> Matches(x, q1) && Matches(x, q2)
    requires Filter(Filter(t, q1), q2) == Filter(t, q)
    ensures Filter(Filter([x] + t, q1), q2) == Filter([x] + t, q)
  {
    FilterCons(x, t, q1);
    FilterCons(x, t, q);
    if Matches(x, q1) {
      assert Filter([x] + t, q1) == [x] + Filter(t, q1);
      FilterCons(x, Filter(t, q1), q2);
    } else {
      assert Filter([x] + t, q1) == Filter(t, q1);
    }
  }

  /** Excluding one more name extends the list of excluded names. */
  lemma ExcludeOneMore(s: seq<Product>, dropped: seq<string>, name: string)
    ensures Exclude(Filter(s, Not(NameIn(dropped))), NameIs(name)) == Filter(s, Not(NameIn(dropped + [name])))
  {
    forall p | p in s
      ensures Matches(p, Not(NameIn(dropped + [name]))) <==>
              Matches(p, Not(NameIn(dropped))) && Matches(p, Not(NameIs(name)))
    {
      assert Matches(p, NameIn(dropped + [name])) <==> p.name in dropped + [name];
      assert Matches(p, NameIn(dropped)) <==> p.name in dropped;
      assert Matches(p, NameIs(name)) <==> p.name == name;
      assert p.name in dropped + [name] <==> p.name in dropped || p.name in [name];
    }
    FilterChain(s, Not(NameIn(dropped)), Not(NameIs(name)), Not(NameIn(dropped + [name])));
  }

  /**
   * Once every row not named in `names` has had its name excluded, and no
   * name in `names` was, the rows left are the rows named in `names`.
   */
  lemma ExcludedAllUnlisted(s: seq<Product>, names: seq<string>, dropped: seq<string>)
    requires forall k :: 0 <= k < |s| ==> s[k].name in names || s[k].name in dropped
    requires forall d :: d in dropped ==> d !in names
    ensures Filter(s, Not(NameIn(dropped))) == Filter(s, NameIn(names))
  {
    FilterAgrees(s, Not(NameIn(dropped)), NameIn(names));
  }

  /**
   * `filter(name__icontains=search).first()` on the table is the matching
   * product of lowest primary key, and it is absent exactly when no name
   * matches.
   */
  lemma {:induction false} FirstNamedIsLowestPk(table: seq<Product>, search: string)
    requires PkOrdered(table)
    ensures var r := FirstNamed(table, search);
      (r.None? <==> forall p :: p in table ==> !IContains(p.name, search)) &&
      (r.Some? ==> r.value in table && IContains(r.value.name, search) &&
                   forall p :: p in table && IContains(p.name, search) ==> r.value.pk <= p.pk)
  {
    if table != [] {
      var x, t := table[0], table[1..];
      assert table == [x] + t;
      assert PkOrdered(t);
      FirstNamedIsLowestPk(t, search);
      FirstNamedCons(x, t, search);
      if IContains(x.name, search) {
        forall p | p in table
          ensures x.pk <= p.pk
        {
          var k :| 0 <= k < |table| && table[k] == p;
        }
      }
    }
  }

  /** The first match in `[x] + t` is `x` when it matches, and otherwise the first match in `t`. */
  lemma FirstNamedCons(x: Product, t: seq<Product>, search: string)
    ensures FirstNamed([x] + t, search)
         == if IContains(x.name, search) then Some(x) else FirstNamed(t, search)
  {
    FilterCons(x, t, NameIContains(search));
  }

  lemma NutriscoreLeTotalPreorder()
    ensures TotalPreorder(NutriscoreLe)
  {
    forall a: Product, b: Product
      ensures NutriscoreLe(a, b) || NutriscoreLe(b, a)
    {
      LexLeTotal(a.nutriscore, b.nutriscore);
    }
    forall a: Product, b: Product, c: Product | NutriscoreLe(a, b) && NutriscoreLe(b, c)
      ensures NutriscoreLe(a, c)
    {
      LexLeTransitive(a.nutriscore, b.nutriscore, c.nutriscore);
    }
  }

  /** `order_by("nutriscore")` yields the same rows, non-decreasing by nutriscore. */
  lemma OrderByNutriscoreSorts(s: seq<Product>)
    ensures SortedBy(OrderByNutriscore(s), NutriscoreLe)
    ensures multiset(OrderByNutriscore(s)) == multiset(s)
  {
    NutriscoreLeTotalPreorder();
    SortBySorted(s, NutriscoreLe);
  }

  /** Rows with the same nutriscore keep the order they had before `order_by`. */
  lemma OrderByNutriscoreStable(s: seq<Product>, p: Product)
    ensures EquivClass(OrderByNutriscore(s), NutriscoreLe, p) == EquivClass(s, NutriscoreLe, p)
  {
    NutriscoreLeTotalPreorder();
    SortByStable(s, NutriscoreLe, p);
  }

  /** `.order_by("nutriscore").order_by("nutriscore")` is one `order_by`. */
  lemma OrderByNutriscoreTwice(s: seq<Product>)
    ensures OrderByNutriscore(OrderByNutriscore(s)) == OrderByNutriscore(s)
  {
    NutriscoreLeTotalPreorder();
    SortByIdempotent(s, NutriscoreLe);
  }

  lemma {:induction false} AtMostOnce(s: seq<Product>, x: Product)
    requires UniqueNames(s)
    ensures multiset(s)[x] <= 1
  {
    if s != [] {
      assert s == [s[0]] + s[1..];
      AtMostOnce(s[1..], x);
      if s[0] == x {
        assert x !in s[1..] by {
          forall k | 0 <= k < |s[1..]|
            ensures s[1..][k] != x
          {
            assert s[1..][k] == s[k + 1];
          }
        }
      }
    }
  }

  /** Any rearrangement of rows with unique names still has unique names. */
  lemma UniqueNamesPermutation(a: seq<Product>, b: seq<Product>)
    requires multiset(a) == multiset(b) && UniqueNames(b)
    ensures UniqueNames(a)
  {
    forall i, j | 0 <= i < j < |a|
      ensures a[i].name != a[j].name
    {
      if a[i] == a[j] {
        assert a == a[..j] + a[j..];
        assert a[i] in a[..j] && a[j] in a[j..];
        assert multiset(a)[a[i]] == multiset(a[..j])[a[i]] + multiset(a[j..])[a[i]];
        AtMostOnce(b, a[i]);
      } else {
        assert a[i] in multiset(b) && a[j] in multiset(b);
        var k :| 0 <= k < |b| && b[k] == a[i];
        var l :| 0 <= l < |b| && b[l] == a[j];
      }
    }
  }

  /** Rows with unique names, each named in `names`, are no more than `names`. */
  lemma {:induction false} UniqueNamesBound(s: seq<Product>, names: seq<string>)
    requires UniqueNames(s)
    requires forall k :: 0 <= k < |s| ==> s[k].name in names
    ensures |s| <= |names|
  {
    if s != [] {
      var i :| 0 <= i < |names| && names[i] == s[0].name;
      var others := names[..i] + names[i + 1..];
      forall k | 1 <= k < |s|
        ensures s[k].name in others
      {
        var m :| 0 <= m < |names| && names[m] == s[k].name;
        if m < i {
          assert others[m] == names[m];
        } else {
          assert m != i;
          assert others[m - 1] == names[m];
        }
      }
      forall k | 0 <= k < |s[1..]|
        ensures s[1..][k].name in others
      {
        assert s[1..][k] == s[k + 1];
      }
      UniqueNamesBound(s[1..], others);
    }
  }
}
