# ProductManager substitute search, modelled in Dafny

This project models the data layer of the PurBeurreWeb food application: the
`Category` and `Product` records and the two queries of `ProductManager` in
`apps/food/models.py`.

- **Product lookup** (`get_product_from_`): the first product, by primary key,
  whose name contains the search text ignoring case, or None. The manager also
  keeps the result in `searched_product`.
- **Substitute selection** (`get_substitutes`): keep the products whose
  nutriscore is at least the searched product's. Walk the searched product's
  categories, replacing the pool by each category's pool, and stop at the first
  pool smaller than 100. Score every pool member by the searched categories it
  shares. Stable-sort the scores ascending and keep the first 24 names. Exclude
  the other pool members. Order the rest by nutriscore.

Layout, one module per file:

- `wrappers.dfy` (`Wrappers`): `Option`.
- `text.dfy` (`Text`): ASCII case folding, substring search (`icontains`),
  lexicographic order on strings (`gte`, `order_by`).
- `sorting.dfy` (`Sorting`): a stable insertion sort by a total preorder, with
  its proofs: sorted, a permutation, stable, idempotent.
- `models.dfy` (`Models`): the records, the table invariant, the field lookups
  as a `Lookup` datatype, and `filter`/`exclude`/`first`/`order_by` as
  functions on sequences of rows.
- `ranking.dfy` (`Ranking`): `SubstitutesFor`, the result of `get_substitutes`
  as a function of the table, and the lemmas about it.
- `manager.dfy` (`Manager`): the `ProductManager` class. Its methods run the
  source's loops step by step and are proved equal to the functions above.

Three behaviours of the code are easy to misread; the model follows the code:

- The category walk **replaces** the pool on each pass; it does not intersect.
  It stops at the first pool **smaller** than 100. If no pool is, the pool is
  that of the last category.
- The relevance sort is **ascending**, so the truncation keeps the 24
  **least** relevant entries.
- A product with **no categories** does not give an empty list. The pool stays
  the plain list `[]`, and `order_by` on it raises. The model returns
  `AttributeError`.

## Data model

| record | source | holds |
|---|---|---|
| `Models.Category` | apps/food/models.py:6-9 | a category, identified by its unique name |
| `Models.Product` | apps/food/models.py:75-88 | primary key, unique name, nutriscore text, and the categories of the many-to-many relation; the descriptive fields are left out |
| `Ranking.Entry` | apps/food/models.py:54 | one `(product.name, score)` pair of the relevance list |
| `Ranking.Substitution` | apps/food/models.py:29-30,69-72 | the outcome of `get_substitutes`: no product, the `AttributeError` of `[].order_by`, or the substitutes |

## Model

| member | source | states |
|---|---|---|
| `Models.WellFormed` | apps/food/models.py:75-88 | the Product table, read as a sequence in strictly increasing primary-key order (so keys are distinct); `name` unique (line 78); each category linked at most once (line 85) |
| `Models.Matches` | apps/food/models.py:21-66 | the field lookups the queries use: `name__icontains` is `IContains` (line 21), `nutriscore__gte=g` is `LexLe(g, p.nutriscore)` (line 33), `categories=c` is `c in p.categories` (line 40), `name in names_list` is list membership (line 65), `name=` is exact equality (line 66), and `exclude` negates |
| `Models.NutriscoreLe` | apps/food/models.py:69 | the key of `order_by("nutriscore")`: rows compared by `LexLe` on their nutriscore |
| `Text.IContains` | apps/food/models.py:21 | `name__icontains=search`: the search text, ASCII lower-cased, occurs in the lower-cased name |
| `Text.LexLe` | apps/food/models.py:33 | the string order of `nutriscore__gte` and `order_by("nutriscore")`: lexicographic on character codes, a proper prefix first |
| `Models.Filter` | apps/food/models.py:33-40 | `queryset.filter(q)`: the rows that match the lookup `q`, in queryset order |
| `Models.Exclude` | apps/food/models.py:66 | `queryset.exclude(q)`: the filter by the negated lookup |
| `Models.First` | apps/food/models.py:21 | `.first()` on a queryset in primary-key order: its first row, or None when it is empty |
| `Models.FirstNamed` | apps/food/models.py:21 | `filter(name__icontains=search).first()` on the table |
| `Models.OrderByNutriscore` | apps/food/models.py:69 | `order_by("nutriscore")`: the rows stably sorted by nutriscore, ties kept in queryset order |
| `Sorting.SortBy` | apps/food/models.py:57 | a stable insertion sort: each element goes after every earlier one not above it |
| `Ranking.ScoreLe` | apps/food/models.py:57 | the key of `relevance_list.sort(key=lambda score: score[1])`: entries compared by score alone, names ignored |
| `Ranking.CategoryPool` | apps/food/models.py:40 | `better_products.filter(categories=category)`: the nutriscore-filtered rows carrying the category |
| `Ranking.StopCategory` | apps/food/models.py:39-43 | the category at which the walk stops, the one at `StopIndex` |
| `Ranking.StopPool` | apps/food/models.py:38-43 | `similar_products` after the walk: the stop category's pool alone, or None standing for the plain list `[]` when there are no categories |
| `Ranking.Score` | apps/food/models.py:50-53 | the counter of the inner loop: how many of the searched categories, taken in order, the candidate has |
| `Ranking.Relevance` | apps/food/models.py:46-54 | `relevance_list`: one (name, score) entry per pool member, in pool order |
| `Ranking.TopEntries` | apps/food/models.py:57-58 | the relevance list stably sorted by ascending score and cut to its first 24 entries |
| `Ranking.Names` | apps/food/models.py:60-61 | `names_list`: the names of the kept entries, in order |
| `Ranking.SubstitutesFor` | apps/food/models.py:24-72 | the whole of `get_substitutes`: None for no product; `AttributeError` when the pool stays `[]`; otherwise the stop-pool members named among the kept 24, ordered by nutriscore |
| `Manager.ProductManager.constructor` | apps/food/models.py:90 | the manager reads a Product table that meets the database's invariants; no lookup has happened yet |
| `Manager.ProductManager.GetProductFrom` | apps/food/models.py:19-22 | returns the lowest-primary-key product whose name contains the search text ignoring case; None exactly when no name matches; the result is stored in `searchedProduct` |
| `Models.FirstNamedIsLowestPk` | apps/food/models.py:21 | `filter(name__icontains=…).first()` on a table in key order gives the matching product of lowest key, and None exactly when nothing matches |
| `Text.ContainsIffOccurs` | apps/food/models.py:21 | the substring test holds exactly when the search text occurs at some position of the name |
| `Text.EmptySearchMatchesAll` | apps/food/models.py:21 | an empty search text matches every name |
| `Text.LexLeReflexive` | apps/food/models.py:33 | the string order of `gte` is reflexive |
| `Text.LexLeTotal` | apps/food/models.py:33 | any two nutriscore strings are comparable |
| `Text.LexLeTransitive` | apps/food/models.py:33 | the string order is transitive |
| `Text.LexLeAntisymmetric` | apps/food/models.py:33 | two strings each at most the other are equal |
| `Models.FilterMembers` | apps/food/models.py:33 | `filter(q)` keeps exactly the rows that match `q` |
| `Models.FilterUniqueNames` | apps/food/models.py:78 | filtering rows with unique names leaves rows with unique names |
| `Models.FilterKeepsAll` | apps/food/models.py:64-66 | a filter every row passes changes nothing |
| `Models.FilterAgrees` | apps/food/models.py:64-66 | lookups that agree on every row select the same rows |
| `Models.FilterChain` | apps/food/models.py:66 | two chained filters equal one filter by the conjunction of their lookups |
| `Models.ExcludeOneMore` | apps/food/models.py:66 | one more `exclude(name=…)` adds that name to the excluded names |
| `Models.ExcludedAllUnlisted` | apps/food/models.py:64-66 | once each unlisted member's name is excluded, and no listed name is, the rows left are the listed members |
| `Ranking.StopIndex` | apps/food/models.py:39-43 | the walk stops at the first category whose pool has fewer than 100 members; every earlier pool has at least 100; if none is small, it stops at the last category |
| `Ranking.StopPoolMembers` | apps/food/models.py:33-43 | the pool after the walk is exactly the table rows with nutriscore at least the searched one that carry the stop category; it replaces earlier pools, it does not intersect them |
| `Manager.WalkCategories` | apps/food/models.py:37-43 | the loop with its early `break` leaves the stop category's pool, or the plain list `[]` exactly when there is no category |
| `Ranking.ScoreCountsShared` | apps/food/models.py:49-54 | a candidate's score is the number of the searched product's categories it also has |
| `Ranking.ScoreAtLeastOne` | apps/food/models.py:51-53 | a candidate holding one of the searched categories scores at least 1 |
| `Ranking.RelevanceBounds` | apps/food/models.py:49-54 | every score of the relevance list lies between 1 and the number of searched categories |
| `Manager.CountShared` | apps/food/models.py:50-53 | the inner loop's counter ends at the candidate's score, at most the number of searched categories |
| `Manager.ScoreCandidates` | apps/food/models.py:46-54 | the outer loop builds one (name, score) entry per pool member, in pool order |
| `Sorting.SortBySorted` | apps/food/models.py:57 | the stable sort yields a sequence ordered by its key |
| `Sorting.SortByStable` | apps/food/models.py:57 | entries with equal keys keep their relative order |
| `Sorting.SortByIdempotent` | apps/food/models.py:69 | sorting a sorted sequence again changes nothing |
| `Ranking.RelevanceSortStable` | apps/food/models.py:57 | `relevance_list.sort(key=score)` keeps pool order among equal scores |
| `Ranking.TopEntriesKeepPoolOrder` | apps/food/models.py:57-58 | among equal scores, the truncated list keeps a leading part of them, in pool order |
| `Ranking.TopEntriesShape` | apps/food/models.py:57-58 | the truncation keeps min(24, n) entries of the relevance list, ascending by score |
| `Ranking.TopEntriesLeastRelevant` | apps/food/models.py:57-58 | every kept entry scores no higher than every dropped entry: the least relevant are kept |
| `Manager.ListNames` | apps/food/models.py:60-61 | `names_list` holds the name of every kept entry, in order |
| `Manager.ExcludeUnlisted` | apps/food/models.py:63-66 | the exclusion loop leaves exactly the pool members whose names are listed, in pool order; it never adds a row |
| `Models.OrderByNutriscoreSorts` | apps/food/models.py:69 | `order_by("nutriscore")` gives the same rows, non-decreasing by nutriscore |
| `Models.OrderByNutriscoreStable` | apps/food/models.py:69 | rows with equal nutriscore keep the order they had |
| `Models.OrderByNutriscoreTwice` | apps/food/models.py:69 | ordering by nutriscore twice is the same as ordering once |
| `Models.UniqueNamesPermutation` | apps/food/models.py:78 | a rearrangement of rows with unique names has unique names |
| `Models.UniqueNamesBound` | apps/food/models.py:78 | rows with unique names, all named in a list, are no more than the list |
| `Ranking.StopPoolUniqueNames` | apps/food/models.py:78 | the stop pool of a table with unique names has unique names |
| `Ranking.KeptWithinNames` | apps/food/models.py:63-66 | the pool members kept by name are no more than the names and have distinct names |
| `Ranking.SubstitutesMembers` | apps/food/models.py:33-66 | a substitute is exactly a stop-pool member named among the kept 24; so its nutriscore is at least the searched one and it carries the stop category |
| `Ranking.SubstitutesOrdered` | apps/food/models.py:69 | the substitutes are the kept members, rearranged non-decreasing by nutriscore, ties in pool order |
| `Ranking.SubstitutesAtMostTopCount` | apps/food/models.py:57-66 | there are at most 24 substitutes, and their names are distinct |
| `Manager.ProductManager.GetSubstitutes` | apps/food/models.py:24-72 | None for no product; AttributeError exactly for a product without categories; otherwise at most 24 distinct products from the table, each with nutriscore at least the searched one and the stop category, ordered by nutriscore |
| `Ranking.ExampleLookup` | apps/food/models.py:19-22 | in the table A ("a", Dairy), B ("b", Dairy), C ("c", Snacks), searching "A" finds A |
| `Ranking.ExamplePool` | apps/food/models.py:33-43 | in that table, the pool for A is A and B |
| `Ranking.ExampleSubstitutes` | apps/food/models.py:24-72 | in that table, the substitutes of A are A then B |

## Left out

- Django's ORM is not modelled: `models.Model`, `Manager`, lazy querysets and their caching, and the many-to-many join table. The table is a sequence of `Product` rows in primary-key order; a product's categories are a sequence in the order the relation yields them.
- The iteration order of querysets without `order_by` is taken to be table order, and filters keep it.
- `order_by("nutriscore")` leaves the order of equal grades to the database. The model keeps such rows in pool order (a stable sort). Being ordered and being a permutation of the input hold for any tie order. Idempotence does not: a sort that put ties in reverse arrival order would undo itself when applied twice.
- `Models.OrderByNutriscoreTwice`: in the source, line 69's two `order_by` calls give one ordering because Django's second `order_by` replaces the first, so one ORDER BY is issued. The model applies its sort twice and proves that the result equals one sort. That holds only because of the stable tie rule the model chose.
- `icontains` is modelled with ASCII lower-casing and plain substring search. Database collation and Unicode case folding are not modelled.
- `nutriscore__gte` and `order_by` are modelled as lexicographic order on character codes. Database collations are not modelled.
- Python truthiness: a model instance is always true, so `not product` is true only for None.
- `get_substitutes` reads the searched product's categories from the record passed in; the database round trip by primary key is not modelled.
- `searched_product` does not exist before the first lookup; the model starts it at None.
- `Manager.ProductManager.GetSubstitutes` runs the source's loops in helper methods (`WalkCategories`, `CountShared`, `ScoreCandidates`, `ListNames`, `ExcludeUnlisted`), one per loop, rather than in one body.
- `Manager.ProductManager.GetSubstitutes`: the bound of 24 and distinct names rest on the table's unique names, taken as the class invariant `Valid()`.
- `Category.__str__`, `Product.__str__` and `get_absolute_url` (URL reversing) are not modelled; they play no part in the queries.
- The descriptive product fields play no part in the logic and are left out: brand, ingredients, allergens, stores, labels, url, image and nutrition_facts.
