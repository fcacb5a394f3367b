/**
 * The recipe catalogue of the backend: loading the rows of the recipe table
 * (missing cells, de-duplication by normalised name, gram conversion of the
 * ingredients), and the `/get-all-recipes` listing (search, sort by name,
 * one page of the result, page count).
 */
module Catalogue {
  import opened Wrappers
  import opened Seqs
  import opened PyText
  import opened GramConversion

  /** A row of the recipe table as read; a missing cell is `None`. */
  datatype Row = Row(
    name: string,
    image: string,
    cookTime: Option<string>,
    prepTime: Option<string>,
    totalTime: Option<string>,
    ingredients: Option<string>,
    directions: string)

  /** A loaded recipe: the row with its missing cells filled and its ingredients converted. */
  datatype Recipe = Recipe(
    name: string,
    image: string,
    cookTime: string,
    prepTime: string,
    totalTime: string,
    ingredients: string,
    directions: string,
    convertedIngredients: seq<string>,
    totalGrams: GramTotal)

  /** The normalised name rows are grouped by: stripped, then lower-cased. */
  function Key(r: Row): string {
    Lower(Strip(r.name))
  }

  /** The set of keys of some elements. */
  ghost function KeysBy<T, K>(key: T -> K, xs: seq<T>): set<K> {
    set x | x in xs :: key(x)
  }

  /** `xs[i]` is the first element with its key. */
  predicate FirstOfKey<T, K(==)>(key: T -> K, xs: seq<T>, i: nat)
    requires i < |xs|
  {
    forall j :: 0 <= j < i ==> key(xs[j]) != key(xs[i])
  }

  /** The elements kept when the keys in `seen` are already taken: the first element of every other key. */
  function DedupFrom<T, K(==)>(key: T -> K, xs: seq<T>, seen: set<K>): seq<T>
    decreases |xs|
  {
    if xs == [] then []
    else if key(xs[0]) in seen then DedupFrom(key, xs[1..], seen)
    else [xs[0]] + DedupFrom(key, xs[1..], seen + {key(xs[0])})
  }

  /** What is kept is a subsequence, none of it with a key already seen. */
  lemma {:induction false} DedupFromSound<T, K>(key: T -> K, xs: seq<T>, seen: set<K>)
    ensures Subsequence(DedupFrom(key, xs, seen), xs)
    ensures forall x :: x in DedupFrom(key, xs, seen) ==> key(x) !in seen
    decreases |xs|
  {
    if xs != [] {
      var x, rest := xs[0], xs[1..];
      assert xs == [x] + rest;
      if key(x) in seen {
        DedupFromSound(key, rest, seen);
        SubsequenceCons(DedupFrom(key, rest, seen), x, rest);
      } else {
        DedupFromSound(key, rest, seen + {key(x)});
        SubsequenceKeep(x, DedupFrom(key, rest, seen + {key(x)}), rest);
      }
    }
  }

  /** No two elements of `xs` share a key. */
  predicate Distinct<T, K(==)>(key: T -> K, xs: seq<T>) {
    forall i, j :: 0 <= i < j < |xs| ==> key(xs[i]) != key(xs[j])
  }

  /** No two kept elements share a key. */
  lemma {:induction false} DedupFromDistinct<T, K>(key: T -> K, xs: seq<T>, seen: set<K>)
    ensures Distinct(key, DedupFrom(key, xs, seen))
    decreases |xs|
  {
    if xs != [] {
      var x, rest := xs[0], xs[1..];
      if key(x) in seen {
        assert DedupFrom(key, xs, seen) == DedupFrom(key, rest, seen);
        DedupFromDistinct(key, rest, seen);
      } else {
        var tail := DedupFrom(key, rest, seen + {key(x)});
        DedupFromDistinct(key, rest, seen + {key(x)});
        DedupFromSound(key, rest, seen + {key(x)});
        var d := [x] + tail;
        assert DedupFrom(key, xs, seen) == d;
        forall i, j | 0 <= i < j < |d| ensures key(d[i]) != key(d[j]) {
          assert d[j] == tail[j - 1];
          if i > 0 {
            assert d[i] == tail[i - 1];
          } else {
            assert d[j] in tail;
            assert key(d[j]) !in seen + {key(x)};
          }
        }
      }
    }
  }

  /** Every key not yet seen is kept, and only those. */
  lemma {:induction false} DedupFromKeys<T, K>(key: T -> K, xs: seq<T>, seen: set<K>)
    ensures KeysBy(key, DedupFrom(key, xs, seen)) == KeysBy(key, xs) - seen
    decreases |xs|
  {
    if xs != [] {
      var x, rest := xs[0], xs[1..];
      assert KeysBy(key, xs) == {key(x)} + KeysBy(key, rest) by {
        assert forall y :: y in xs <==> y == x || y in rest;
      }
      if key(x) in seen {
        DedupFromKeys(key, rest, seen);
      } else {
        var tail := DedupFrom(key, rest, seen + {key(x)});
        DedupFromKeys(key, rest, seen + {key(x)});
        assert KeysBy(key, [x] + tail) == {key(x)} + KeysBy(key, tail) by {
          assert forall y :: y in [x] + tail <==> y == x || y in tail;
        }
      }
    }
  }

  /** The element kept for a key is the first element with that key. */
  lemma {:induction false} DedupFromKeepsFirst<T, K>(key: T -> K, xs: seq<T>, seen: set<K>, i: nat)
    requires i < |xs| && FirstOfKey(key, xs, i) && key(xs[i]) !in seen
    ensures xs[i] in DedupFrom(key, xs, seen)
    decreases |xs|
  {
    if i > 0 {
      var x, rest := xs[0], xs[1..];
      assert key(x) != key(xs[i]);
      assert xs[i] == rest[i - 1];
      assert FirstOfKey(key, rest, i - 1) by {
        forall j | 0 <= j < i - 1 ensures key(rest[j]) != key(rest[i - 1]) {
          assert rest[j] == xs[j + 1];
        }
      }
      if key(x) in seen {
        DedupFromKeepsFirst(key, rest, seen, i - 1);
      } else {
        DedupFromKeepsFirst(key, rest, seen + {key(x)}, i - 1);
      }
    }
  }

  /** Grouping the rows by normalised name and keeping the first row of each group. */
  function Dedup(rows: seq<Row>): seq<Row> {
    DedupFrom(Key, rows, {})
  }

  /**
   * The de-duplicated rows: a subsequence of the rows in which no two share a
   * normalised name, every normalised name of the rows is still present, and
   * the row kept for a name is the first row with it.
   */
  lemma DedupSpec(rows: seq<Row>)
    ensures Subsequence(Dedup(rows), rows)
    ensures Distinct(Key, Dedup(rows))
    ensures KeysBy(Key, Dedup(rows)) == KeysBy(Key, rows)
    ensures forall i :: 0 <= i < |rows| && FirstOfKey(Key, rows, i) ==> rows[i] in Dedup(rows)
  {
    DedupFromSound(Key, rows, {});
    DedupFromDistinct(Key, rows, {});
    DedupFromKeys(Key, rows, {});
    forall i | 0 <= i < |rows| && FirstOfKey(Key, rows, i) ensures rows[i] in Dedup(rows) {
      DedupFromKeepsFirst(Key, rows, {}, i);
    }
  }

  /** Nothing is lost from a non-empty table: the de-duplicated table is empty only when the table is. */
  lemma DedupEmpty(rows: seq<Row>)
    ensures Dedup(rows) == [] <==> rows == []
  {
    DedupFromKeys(Key, rows, {});
    if rows != [] {
      assert Key(rows[0]) in KeysBy(Key, rows);
    }
  }

  /** A missing cell reads "N/A". */
  function CellText(c: Option<string>): string {
    if c.None? then "N/A" else c.value
  }

  /** A missing ingredients cell is filled with the empty text. */
  function IngredientsText(r: Row): string {
    if r.ingredients.None? then "" else r.ingredients.value
  }

  /** One de-duplicated row with its missing cells filled and its gram conversion added. */
  function Load(r: Row): (recipe: Recipe)
    ensures recipe.name == r.name && recipe.ingredients == IngredientsText(r)
    ensures recipe.convertedIngredients == ConvertedValues(recipe.ingredients)
    ensures recipe.totalGrams == TotalGrams(recipe.ingredients)
  {
    var ingredients := IngredientsText(r);
    Recipe(r.name, r.image, CellText(r.cookTime), CellText(r.prepTime), CellText(r.totalTime),
           ingredients, r.directions, ConvertedValues(ingredients), TotalGrams(ingredients))
  }

  /** The records the loader returns. */
  function LoadRecipes(rows: seq<Row>): seq<Recipe> {
    MapSeq(Load, Dedup(rows))
  }

  /** The normalised name of a loaded record. */
  function RecipeKey(r: Recipe): string {
    Lower(Strip(r.name))
  }

  /** Loading keeps the name, so the normalised name. */
  lemma LoadKeepsKey()
    ensures forall r :: RecipeKey(Load(r)) == Key(r)
  {
  }

  /** Mapping keeps distinct keys distinct when it keeps every key. */
  lemma MapSeqDistinct<A, B, K>(f: A -> B, keyA: A -> K, keyB: B -> K, xs: seq<A>)
    requires Distinct(keyA, xs) && forall x :: keyB(f(x)) == keyA(x)
    ensures Distinct(keyB, MapSeq(f, xs))
  {
  }

  lemma MapSeqMember<A, B>(f: A -> B, xs: seq<A>, x: A)
    requires x in xs
    ensures f(x) in MapSeq(f, xs)
  {
    var k :| 0 <= k < |xs| && xs[k] == x;
    assert MapSeq(f, xs)[k] == f(x);
  }

  /**
   * The loaded records: none exactly when the table is empty, no two with
   * the same normalised name, and the first row of every normalised name
   * among them, loaded.
   */
  lemma LoadRecipesSpec(rows: seq<Row>)
    ensures LoadRecipes(rows) == [] <==> rows == []
    ensures Distinct(RecipeKey, LoadRecipes(rows))
    ensures forall i :: 0 <= i < |rows| && FirstOfKey(Key, rows, i) ==> Load(rows[i]) in LoadRecipes(rows)
  {
    var d := Dedup(rows);
    DedupEmpty(rows);
    DedupSpec(rows);
    LoadKeepsKey();
    MapSeqDistinct(Load, Key, RecipeKey, d);
    forall i | 0 <= i < |rows| && FirstOfKey(Key, rows, i) ensures Load(rows[i]) in LoadRecipes(rows) {
      MapSeqMember(Load, d, rows[i]);
    }
  }

  /** The search text: the `search` argument, "" when absent, stripped and lower-cased. */
  function SearchQuery(search: Option<string>): string {
    Lower(Strip(if search.None? then "" else search.value))
  }

  /** `[x for x in xs if keep(x)]`. */
  function FilterBy<T>(keep: T -> bool, xs: seq<T>): seq<T>
    decreases |xs|
  {
    if xs == [] then []
    else if keep(xs[0]) then [xs[0]] + FilterBy(keep, xs[1..])
    else FilterBy(keep, xs[1..])
  }

  /** The filtered list is a subsequence holding exactly the elements that pass. */
  lemma {:induction false} FilterBySpec<T>(keep: T -> bool, xs: seq<T>)
    ensures Subsequence(FilterBy(keep, xs), xs)
    ensures forall x :: x in FilterBy(keep, xs) <==> x in xs && keep(x)
    decreases |xs|
  {
    if xs != [] {
      var x, rest := xs[0], xs[1..];
      assert xs == [x] + rest;
      FilterBySpec(keep, rest);
      if keep(x) {
        SubsequenceKeep(x, FilterBy(keep, rest), rest);
      } else {
        SubsequenceCons(FilterBy(keep, rest), x, rest);
      }
    }
  }

  /** The search test of one record: its lower-cased name contains the query. */
  predicate NameContains(query: string, r: Recipe) {
    IsSubstring(query, Lower(r.name))
  }

  /** The search step: filter by name only when the query is not empty. */
  function Search(recipes: seq<Recipe>, query: string): seq<Recipe> {
    if query != [] then FilterBy(r => NameContains(query, r), recipes) else recipes
  }

  /** The empty text occurs in every text. */
  lemma EmptyIsSubstring(s: string)
    ensures IsSubstring([], s)
  {
    assert OccursAt([], s, 0);
  }

  lemma {:induction false} SubsequenceRefl<T>(xs: seq<T>)
    ensures Subsequence(xs, xs)
    decreases |xs|
  {
    if xs != [] {
      SubsequenceRefl(xs[1..]);
    }
  }

  /**
   * A record is kept exactly when its lower-cased name contains the query
   * (always, for the empty query), and the result is a subsequence.
   */
  lemma SearchSpec(recipes: seq<Recipe>, query: string)
    ensures forall r :: r in Search(recipes, query) <==> r in recipes && NameContains(query, r)
    ensures Subsequence(Search(recipes, query), recipes)
  {
    if query == [] {
      forall r | r in recipes ensures NameContains(query, r) {
        EmptyIsSubstring(Lower(r.name));
      }
      SubsequenceRefl(recipes);
    } else {
      FilterBySpec(r => NameContains(query, r), recipes);
    }
  }

  /** A missing, empty or blank search keeps every record. */
  lemma BlankSearchKeepsAll(recipes: seq<Recipe>, search: Option<string>)
    requires search.None? || forall k :: 0 <= k < |search.value| ==> IsPySpace(search.value[k])
    ensures Search(recipes, SearchQuery(search)) == recipes
  {
    if search.Some? {
      StripEmpty(search.value);
    }
  }

  /** `xs` is non-decreasing by `key`. */
  predicate SortedBy<T>(key: T -> string, xs: seq<T>) {
    forall i, j :: 0 <= i < j < |xs| ==> LexLeq(key(xs[i]), key(xs[j]))
  }

  /** `x` put into a sorted list just before the first element whose key is not below its own. */
  function InsertBy<T>(key: T -> string, x: T, xs: seq<T>): seq<T>
    decreases |xs|
  {
    if xs == [] then [x]
    else if LexLeq(key(x), key(xs[0])) then [x] + xs
    else [xs[0]] + InsertBy(key, x, xs[1..])
  }

  /** `sorted(xs, key=key)`, by insertion. */
  function SortBy<T>(key: T -> string, xs: seq<T>): seq<T>
    decreases |xs|
  {
    if xs == [] then [] else InsertBy(key, xs[0], SortBy(key, xs[1..]))
  }

  lemma {:induction false} InsertByPermutes<T>(key: T -> string, x: T, xs: seq<T>)
    ensures multiset(InsertBy(key, x, xs)) == multiset(xs) + multiset{x}
    decreases |xs|
  {
    if xs != [] && !LexLeq(key(x), key(xs[0])) {
      InsertByPermutes(key, x, xs[1..]);
      assert xs == [xs[0]] + xs[1..];
    }
  }

  lemma SortedByTail<T>(key: T -> string, xs: seq<T>)
    requires xs != [] && SortedBy(key, xs)
    ensures SortedBy(key, xs[1..])
  {
    var rest := xs[1..];
    forall i, j | 0 <= i < j < |rest| ensures LexLeq(key(rest[i]), key(rest[j])) {
      assert rest[i] == xs[i + 1] && rest[j] == xs[j + 1];
    }
  }

  /** A first element no greater than the head of a sorted list keeps it sorted. */
  lemma SortedByPrepend<T>(key: T -> string, x: T, xs: seq<T>)
    requires SortedBy(key, xs) && (xs != [] ==> LexLeq(key(x), key(xs[0])))
    ensures SortedBy(key, [x] + xs)
  {
    var t := [x] + xs;
    forall i, j | 0 <= i < j < |t| ensures LexLeq(key(t[i]), key(t[j])) {
      assert t[j] == xs[j - 1];
      if i == 0 {
        if j > 1 {
          LexLeqTrans(key(x), key(xs[0]), key(xs[j - 1]));
        }
      } else {
        assert t[i] == xs[i - 1];
      }
    }
  }

  /** A first element no greater than any element of a sorted list keeps it sorted. */
  lemma SortedByPrependBelow<T>(key: T -> string, x: T, xs: seq<T>)
    requires SortedBy(key, xs) && forall y :: y in multiset(xs) ==> LexLeq(key(x), key(y))
    ensures SortedBy(key, [x] + xs)
  {
    if xs != [] {
      assert xs[0] in multiset(xs);
    }
    SortedByPrepend(key, x, xs);
  }

  lemma {:induction false} InsertBySorted<T>(key: T -> string, x: T, xs: seq<T>)
    requires SortedBy(key, xs)
    ensures SortedBy(key, InsertBy(key, x, xs))
    decreases |xs|
  {
    if xs != [] {
      var h, rest := xs[0], xs[1..];
      if LexLeq(key(x), key(h)) {
        SortedByPrepend(key, x, xs);
      } else {
        LexLeqTotal(key(x), key(h));
        SortedByTail(key, xs);
        InsertBySorted(key, x, rest);
        InsertByPermutes(key, x, rest);
        var u := InsertBy(key, x, rest);
        forall y | y in multiset(u) ensures LexLeq(key(h), key(y)) {
          if y != x {
            assert y in multiset(rest);
            var k :| 0 <= k < |rest| && rest[k] == y;
            assert xs[k + 1] == y;
          }
        }
        SortedByPrependBelow(key, h, u);
      }
    }
  }

  /** The sorted list is a permutation of the list, non-decreasing by key. */
  lemma {:induction false} SortBySpec<T>(key: T -> string, xs: seq<T>)
    ensures SortedBy(key, SortBy(key, xs))
    ensures multiset(SortBy(key, xs)) == multiset(xs)
    decreases |xs|
  {
    if xs != [] {
      SortBySpec(key, xs[1..]);
      InsertBySorted(key, xs[0], SortBy(key, xs[1..]));
      InsertByPermutes(key, xs[0], SortBy(key, xs[1..]));
      assert xs == [xs[0]] + xs[1..];
    }
  }

  /** Sorting keeps the length of the list. */
  lemma SortByLength<T>(key: T -> string, xs: seq<T>)
    ensures |SortBy(key, xs)| == |xs|
  {
    SortBySpec(key, xs);
    assert |multiset(SortBy(key, xs))| == |multiset(xs)|;
  }

  /** The sort key of a record: `x.get('recipe_name', '').lower()`. */
  function SortKey(r: Recipe): string {
    Lower(r.name)
  }

  /** The records sorted by lower-cased name. */
  function SortByName(recipes: seq<Recipe>): seq<Recipe> {
    SortBy(SortKey, recipes)
  }

  /** Where Python puts a slice bound `i` on a list of length `n`: negative bounds count from the end. */
  function SliceBound(i: int, n: nat): (b: nat)
    ensures b <= n
  {
    if i < 0 then (if i + n < 0 then 0 else i + n) else if i > n then n else i
  }

  /** Python's `xs[a:b]`. */
  function PySlice<T>(xs: seq<T>, a: int, b: int): seq<T> {
    var i, j := SliceBound(a, |xs|), SliceBound(b, |xs|);
    if i < j then xs[i..j] else []
  }

  /** `sorted_recipes[start:end]` with `start = (page - 1) * limit` and `end = start + limit`. */
  function PageSlice<T>(xs: seq<T>, page: int, limit: int): seq<T> {
    var start := (page - 1) * limit;
    PySlice(xs, start, start + limit)
  }

  function Min(a: int, b: int): int { if a <= b then a else b }

  lemma StartOfNextPage(page: int, limit: int)
    ensures (page - 1) * limit + limit == page * limit
  {
  }

  /**
   * For `page >= 1` and `limit >= 1` a page holds the sorted records from
   * `(page - 1) * limit` up to `page * limit`, cut at the end of the list,
   * so at most `limit` of them.
   */
  lemma PageSliceSpec<T>(xs: seq<T>, page: int, limit: int)
    requires page >= 1 && limit >= 1
    ensures var start := (page - 1) * limit;
            start >= 0
            && PageSlice(xs, page, limit) == xs[Min(start, |xs|)..Min(page * limit, |xs|)]
    ensures |PageSlice(xs, page, limit)| <= limit
  {
    StartOfNextPage(page, limit);
    NonNegativeProduct(page - 1, limit);
  }

  lemma NonNegativeProduct(a: int, b: int)
    requires a >= 0 && b >= 0
    ensures a * b >= 0
  {
  }

  /** Python's `a // b`: the quotient rounded towards minus infinity. */
  function FloorDiv(a: int, b: int): int
    requires b != 0
  {
    if b > 0 then a / b else (-a) / (-b)
  }

  /** `FloorDiv(a, b)` is the largest `q` with `q * b` at most `a` (or at least `a` for negative `b`). */
  lemma FloorDivSpec(a: int, b: int)
    requires b != 0
    ensures var q := FloorDiv(a, b);
            if b > 0 then q * b <= a < q * b + b else q * b >= a > q * b + b
  {
    if b < 0 {
      var q := (-a) / (-b);
      assert q * (-b) <= -a < q * (-b) + (-b);
      NegateProduct(q, b);
    }
  }

  lemma NegateProduct(q: int, b: int)
    ensures q * (-b) == -(q * b)
  {
  }

  /** `(len(recipes) + limit - 1) // limit`. */
  function TotalPages(n: nat, limit: int): int
    requires limit != 0
  {
    FloorDiv(n + limit - 1, limit)
  }

  /** For `limit >= 1` the page count is the ceiling of `n / limit`: zero pages for no records. */
  lemma TotalPagesSpec(n: nat, limit: int)
    requires limit >= 1
    ensures var t := TotalPages(n, limit);
            t >= 0 && (t - 1) * limit < n <= t * limit
    ensures TotalPages(n, limit) == 0 <==> n == 0
  {
    var t := TotalPages(n, limit);
    FloorDivSpec(n + limit - 1, limit);
    StartOfNextPage(t, limit);
    MultipleOfAtLeastOne(t, limit);
  }

  /** Pages `1` to `k` of a list laid end to end. */
  function Pages<T>(xs: seq<T>, limit: int, k: int): seq<T>
    decreases k
  {
    if k <= 0 then [] else Pages(xs, limit, k - 1) + PageSlice(xs, k, limit)
  }

  /** The first `k` pages are the first `k * limit` elements, cut at the end of the list. */
  lemma {:induction false} PagesPrefix<T>(xs: seq<T>, limit: int, k: nat)
    requires limit >= 1
    ensures Pages(xs, limit, k) == xs[..Min(k * limit, |xs|)]
  {
    if k > 0 {
      PagesPrefix(xs, limit, k - 1);
      PageSliceSpec(xs, k, limit);
      MultiplyMonotone(k - 1, k, limit);
      PrefixSplit(xs, Min((k - 1) * limit, |xs|), Min(k * limit, |xs|));
    }
  }

  lemma PrefixSplit<T>(xs: seq<T>, a: int, b: int)
    requires 0 <= a <= b <= |xs|
    ensures xs[..a] + xs[a..b] == xs[..b]
  {
  }

  lemma MultiplyMonotone(a: int, b: int, c: int)
    requires a <= b && c >= 0
    ensures a * c <= b * c
  {
  }

  /**
   * For `limit >= 1`, pages 1 to `total_pages` laid end to end give back the
   * whole list, and every page after the last is empty.
   */
  lemma PagesCover<T>(xs: seq<T>, limit: int)
    requires limit >= 1
    ensures Pages(xs, limit, TotalPages(|xs|, limit)) == xs
    ensures forall page :: page > TotalPages(|xs|, limit) ==> PageSlice(xs, page, limit) == []
  {
    var t := TotalPages(|xs|, limit);
    TotalPagesSpec(|xs|, limit);
    PagesPrefix(xs, limit, t);
    forall page | page > t ensures PageSlice(xs, page, limit) == [] {
      PageSliceSpec(xs, page, limit);
      MultiplyMonotone(t, page - 1, limit);
    }
  }

  /**
   * For `page >= 1` and `limit >= 1`, a page of a sorted list is sorted,
   * holds at most `limit` elements, and only elements of the list.
   */
  lemma SortedPage<T>(key: T -> string, xs: seq<T>, page: int, limit: int)
    requires page >= 1 && limit >= 1
    ensures var p := PageSlice(SortBy(key, xs), page, limit);
            SortedBy(key, p) && |p| <= limit && forall x :: x in p ==> x in multiset(xs)
  {
    var sorted := SortBy(key, xs);
    SortBySpec(key, xs);
    PageSliceSpec(sorted, page, limit);
    SliceSorted(key, sorted, Min((page - 1) * limit, |sorted|), Min(page * limit, |sorted|));
  }

  /** A slice of a sorted list is sorted and holds only elements of the list. */
  lemma SliceSorted<T>(key: T -> string, ys: seq<T>, a: int, b: int)
    requires 0 <= a <= b <= |ys| && SortedBy(key, ys)
    ensures SortedBy(key, ys[a..b]) && forall x :: x in ys[a..b] ==> x in multiset(ys)
  {
    var p := ys[a..b];
    forall i, j | 0 <= i < j < |p| ensures LexLeq(key(p[i]), key(p[j])) {
      assert p[i] == ys[a + i] && p[j] == ys[a + j];
    }
  }

  /** For `limit >= 1`, the pages of a sorted list laid end to end are a sorted permutation of the list. */
  lemma SortedPagesCover<T>(key: T -> string, xs: seq<T>, limit: int)
    requires limit >= 1
    ensures var all := Pages(SortBy(key, xs), limit, TotalPages(|xs|, limit));
            multiset(all) == multiset(xs) && SortedBy(key, all)
  {
    var sorted := SortBy(key, xs);
    SortBySpec(key, xs);
    SortByLength(key, xs);
    PagesCover(sorted, limit);
  }

  /** The query arguments of `/get-all-recipes`; an absent argument is `None`. */
  datatype Query = Query(search: Option<string>, page: Option<int>, limit: Option<int>)

  /**
   * The answer of `/get-all-recipes`: the 404 "No recipes found", the error
   * raised by a zero `limit` in the page count, or the listing.
   */
  datatype Response =
    | NotFound
    | DivisionByZero
    | Listing(recipes: seq<Recipe>, totalPages: int, currentPage: int, totalRecipes: nat)

  function OrDefault(o: Option<int>, d: int): int {
    if o.None? then d else o.value
  }

  /** `get_all_recipes` on the records the loader returned. */
  function GetAllRecipes(recipes: seq<Recipe>, query: Query): Response {
    if recipes == [] then NotFound
    else Respond(Search(recipes, SearchQuery(query.search)), OrDefault(query.page, 1), OrDefault(query.limit, 20))
  }

  /** The listing of the matching records for one page. */
  function Respond(found: seq<Recipe>, page: int, limit: int): Response {
    if limit == 0 then DivisionByZero
    else Listing(PageSlice(SortByName(found), page, limit), TotalPages(|found|, limit), page, |found|)
  }

  /**
   * For `page >= 1` and `limit >= 1` the listing counts the matching
   * records, holds at most `limit` of them, sorted by name, and echoes the
   * page asked for.
   */
  lemma RespondSpec(found: seq<Recipe>, page: int, limit: int)
    requires page >= 1 && limit >= 1
    ensures var response := Respond(found, page, limit);
            && response.Listing?
            && response.currentPage == page
            && response.totalRecipes == |found|
            && |response.recipes| <= limit
            && SortedBy(SortKey, response.recipes)
            && (forall r :: r in response.recipes ==> r in multiset(found))
  {
    SortedPage(SortKey, found, page, limit);
  }

  /**
   * The 404 comes exactly when nothing was loaded, before any search. For
   * `page >= 1` and `limit >= 1` (the defaults are 1 and 20) the listing
   * counts the matching records, holds at most `limit` of them, sorted by
   * name, each a loaded record whose name contains the search text, and
   * echoes the page asked for.
   */
  lemma GetAllRecipesSpec(recipes: seq<Recipe>, query: Query)
    ensures GetAllRecipes(recipes, query) == NotFound <==> recipes == []
    ensures var page, limit := OrDefault(query.page, 1), OrDefault(query.limit, 20);
            var q := SearchQuery(query.search);
            recipes != [] && page >= 1 && limit >= 1 ==>
              var response := GetAllRecipes(recipes, query);
              && response.Listing?
              && response.currentPage == page
              && response.totalRecipes == |Search(recipes, q)|
              && |response.recipes| <= limit
              && SortedBy(SortKey, response.recipes)
              && (forall r :: r in response.recipes ==> r in recipes && NameContains(q, r))
  {
    var page, limit := OrDefault(query.page, 1), OrDefault(query.limit, 20);
    if recipes != [] && page >= 1 && limit >= 1 {
      var q := SearchQuery(query.search);
      var found := Search(recipes, q);
      SearchSpec(recipes, q);
      RespondSpec(found, page, limit);
      var response := Respond(found, page, limit);
      assert GetAllRecipes(recipes, query) == response;
      forall r | r in response.recipes ensures r in recipes && NameContains(q, r) {
        assert r in found;
      }
    }
  }

  /**
   * Walking the pages 1 to `total_pages` of one search with one `limit >= 1`
   * shows every matching record once: the listings laid end to end are a
   * permutation of the matching records, sorted by name.
   */
  lemma ListingPagesCover(recipes: seq<Recipe>, query: string, limit: int)
    requires limit >= 1
    ensures var found := Search(recipes, query);
            var all := Pages(SortByName(found), limit, TotalPages(|found|, limit));
            multiset(all) == multiset(found) && SortedBy(SortKey, all)
  {
    SortedPagesCover(SortKey, Search(recipes, query), limit);
  }
}
