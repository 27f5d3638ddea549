/**
 The read-side query filters: the ingredient name search (the viewset's
 case-insensitive prefix filter followed by `IngredientSearchFilter`), the
 `RecipeFilter` favorite/cart filters, `RecipeViewSet.get_queryset`, and the
 `recipes_limit` slice of `FollowSerializer.get_recipes`. A queryset is a
 sequence of rows; a filter across a join yields a row once per matching join
 row, which under the tables' uniqueness constraints is at most once.
 */
module Filters {
  import opened Common
  import opened Schema
  import opened Strings
  import Numerals
  import Sorting

  /** `.filter(p)` on a single table: the rows satisfying `p`, in order. */
  function Keep<T(!new)>(s: seq<T>, p: T -> bool): (r: seq<T>)
    ensures forall x :: x in r <==> x in s && p(x)
    ensures |r| <= |s|
    decreases |s|
  {
    if |s| == 0 then []
    else
      assert s == [s[0]] + s[1..];
      (if p(s[0]) then [s[0]] else []) + Keep(s[1..], p)
  }

  /** A filter by a stronger condition swallows one by a weaker condition applied before it. */
  lemma {:induction false} KeepAbsorbs<T(!new)>(s: seq<T>, p: T -> bool, q: T -> bool)
    requires forall x :: q(x) ==> p(x)
    ensures Keep(Keep(s, p), q) == Keep(s, q)
    decreases |s|
  {
    if |s| > 0 {
      KeepAbsorbs(s[1..], p, q);
      var tail := Keep(s[1..], p);
      assert Keep(s, q) == (if q(s[0]) then [s[0]] else []) + Keep(s[1..], q);
      if p(s[0]) {
        var t := [s[0]] + tail;
        assert Keep(s, p) == t;
        assert t[0] == s[0] && t[1..] == tail;
        assert Keep(t, q) == (if q(s[0]) then [s[0]] else []) + Keep(tail, q);
      } else {
        assert Keep(s, p) == tail;
      }
    }
  }

  lemma {:induction false} KeepNoDuplicates<T(!new)>(s: seq<T>, p: T -> bool)
    requires NoDuplicates(s)
    ensures NoDuplicates(Keep(s, p))
    decreases |s|
  {
    if |s| > 0 {
      ConsNoDuplicates(s[0], s[1..]);
      assert s == [s[0]] + s[1..];
      KeepNoDuplicates(s[1..], p);
      if p(s[0]) {
        ConsNoDuplicates(s[0], Keep(s[1..], p));
      }
    }
  }

  // ---------------------------------------------------------------- ingredient search

  function IngredientName(i: Ingredient): string
  {
    i.name
  }

  /** A string with every character case-folded by `fold`. */
  function Fold(s: string, fold: char -> char): (r: string)
    ensures |r| == |s|
    ensures forall k :: 0 <= k < |s| ==> r[k] == fold(s[k])
  {
    seq(|s|, k requires 0 <= k < |s| => fold(s[k]))
  }

  /** `name__istartswith`: a prefix test after folding both sides. */
  predicate IStartsWith(s: string, prefix: string, fold: char -> char)
  {
    StartsWith(Fold(s, fold), Fold(prefix, fold))
  }

  /** A case-sensitive prefix is also a case-insensitive one. */
  lemma StartsWithFolded(s: string, prefix: string, fold: char -> char)
    requires StartsWith(s, prefix)
    ensures IStartsWith(s, prefix, fold)
  {
    assert Fold(s, fold)[..|prefix|] == Fold(prefix, fold);
  }

  /**
   The ingredient list: `IngredientViewSet.get_queryset` keeps the names that
   start with a non-empty `name` up to case, then `IngredientSearchFilter`
   keeps the names that start with it exactly and orders by name (or only
   orders, for an empty or missing term).
   */
  function IngredientList(ingredients: seq<Ingredient>, name: Option<string>, fold: char -> char)
    : (r: seq<Ingredient>)
    ensures Sorting.SortedBy(r, IngredientName)
  {
    var base :=
      if name.Some? && |name.value| > 0
      then Keep(ingredients, (i: Ingredient) => IStartsWith(i.name, name.value, fold))
      else ingredients;
    var term := if name.Some? then name.value else "";
    if |term| > 0
    then Sorting.SortBy(Keep(base, (i: Ingredient) => StartsWith(i.name, term)), IngredientName)
    else Sorting.SortBy(base, IngredientName)
  }

  /**
   With a non-empty term the list is, up to order, exactly the ingredients whose
   name starts with the term case-sensitively; the case-insensitive filter
   removes nothing more. Without a term it is every ingredient. Either way it is
   sorted by name.
   */
  lemma IngredientListCorrect(ingredients: seq<Ingredient>, name: Option<string>, fold: char -> char)
    ensures var r := IngredientList(ingredients, name, fold);
      && Sorting.SortedBy(r, IngredientName)
      && (name.Some? && |name.value| > 0 ==>
            && multiset(r) == multiset(Keep(ingredients, (i: Ingredient) => StartsWith(i.name, name.value)))
            && forall x :: x in r <==> x in ingredients && StartsWith(x.name, name.value))
      && (name.None? || name == Some("") ==> multiset(r) == multiset(ingredients))
  {
    if name.Some? && |name.value| > 0 {
      var t := name.value;
      var p := (i: Ingredient) => IStartsWith(i.name, t, fold);
      var q := (i: Ingredient) => StartsWith(i.name, t);
      forall x: Ingredient
        ensures q(x) ==> p(x)
      {
        if q(x) {
          StartsWithFolded(x.name, t, fold);
        }
      }
      KeepAbsorbs(ingredients, p, q);
      var r := IngredientList(ingredients, name, fold);
      assert multiset(r) == multiset(Keep(ingredients, q));
      forall x
        ensures x in r <==> x in ingredients && StartsWith(x.name, t)
      {
        assert x in r <==> x in multiset(r);
        assert x in Keep(ingredients, q) <==> x in multiset(Keep(ingredients, q));
      }
    }
  }

  function IngredientKey(i: Ingredient): (string, string)
  {
    (i.name, i.unit)
  }

  lemma {:induction false} KeepDistinctBy<T(!new), K>(s: seq<T>, p: T -> bool, key: T -> K)
    requires Sorting.DistinctBy(s, key)
    ensures Sorting.DistinctBy(Keep(s, p), key)
    decreases |s|
  {
    if |s| > 0 {
      var tail := s[1..];
      assert Sorting.DistinctBy(tail, key) by {
        forall i, j | 0 <= i < j < |tail|
          ensures key(tail[i]) != key(tail[j])
        {
          assert tail[i] == s[i + 1] && tail[j] == s[j + 1];
        }
      }
      KeepDistinctBy(tail, p, key);
      if p(s[0]) {
        var rest := Keep(tail, p);
        var r := [s[0]] + rest;
        forall i, j | 0 <= i < j < |r|
          ensures key(r[i]) != key(r[j])
        {
          assert r[j] == rest[j - 1] && r[j] in tail;
          var k :| 0 <= k < |tail| && tail[k] == r[j];
          assert s[k + 1] == r[j];
          if i > 0 {
            assert r[i] == rest[i - 1];
          }
        }
      }
    }
  }

  /** Over a catalogue that keeps `unique_ingredient`, the list never shows a (name, unit) twice. */
  lemma IngredientListUnique(ingredients: seq<Ingredient>, name: Option<string>, fold: char -> char)
    requires UniqueIngredientKeys(ingredients)
    ensures UniqueIngredientKeys(IngredientList(ingredients, name, fold))
  {
    assert Sorting.DistinctBy(ingredients, IngredientKey);
    var base :=
      if name.Some? && |name.value| > 0
      then Keep(ingredients, (i: Ingredient) => IStartsWith(i.name, name.value, fold))
      else ingredients;
    if name.Some? && |name.value| > 0 {
      KeepDistinctBy(ingredients, (i: Ingredient) => IStartsWith(i.name, name.value, fold), IngredientKey);
    }
    var term := if name.Some? then name.value else "";
    var pre := if |term| > 0 then Keep(base, (i: Ingredient) => StartsWith(i.name, term)) else base;
    if |term| > 0 {
      KeepDistinctBy(base, (i: Ingredient) => StartsWith(i.name, term), IngredientKey);
    }
    var r := IngredientList(ingredients, name, fold);
    assert r == Sorting.SortBy(pre, IngredientName);
    Sorting.PermutationKeepsDistinctBy(pre, r, IngredientKey);
    assert Sorting.DistinctBy(r, IngredientKey);
  }

  // ---------------------------------------------------------------- favorite / cart filters

  function Repeat<T(!new)>(x: T, n: nat): (r: seq<T>)
    ensures |r| == n
    ensures forall k :: 0 <= k < n ==> r[k] == x
    ensures forall y :: y in r <==> n > 0 && y == x
  {
    if n == 0 then [] else [x] + Repeat(x, n - 1)
  }

  /**
   `queryset.filter(favorited_by__user=user)` (or `in_shopping_cart__user`): the
   inner join repeats a recipe once per row of `table` pairing it with `user`.
   */
  function JoinFilter(qs: seq<Recipe>, table: seq<UserRecipe>, user: UserId): (r: seq<Recipe>)
    ensures forall x :: x in r <==> x in qs && UserRecipe(user, x.id) in table
    decreases |qs|
  {
    if |qs| == 0 then []
    else
      assert qs == [qs[0]] + qs[1..];
      Repeat(qs[0], JoinCount(table, user, qs[0].id)) + JoinFilter(qs[1..], table, user)
  }

  /** The join filter over a table with no duplicate rows is a plain filter: no recipe is repeated. */
  lemma {:induction false} UniqueJoinFilterIsKeep(qs: seq<Recipe>, table: seq<UserRecipe>, user: UserId)
    requires NoDuplicates(table)
    ensures JoinFilter(qs, table, user) == Keep(qs, (x: Recipe) => UserRecipe(user, x.id) in table)
    decreases |qs|
  {
    if |qs| > 0 {
      UniqueJoinFilterIsKeep(qs[1..], table, user);
      UniqueJoinCountsOnce(table, user, qs[0].id);
      var n := JoinCount(table, user, qs[0].id);
      if n == 1 {
        assert Repeat(qs[0], n) == [qs[0]];
      } else {
        assert Repeat(qs[0], n) == [];
      }
    }
  }

  /**
   `RecipeFilter.filter_is_favorited` / `filter_is_in_shopping_cart`: with a
   true value and a signed-in user only the recipes the user's rows of `table`
   name stay; otherwise the queryset is returned unchanged.
   */
  function RelationFilter(qs: seq<Recipe>, table: seq<UserRecipe>, user: Option<UserId>, value: bool)
    : (r: seq<Recipe>)
    ensures !(value && user.Some?) ==> r == qs
    ensures value && user.Some? ==>
      forall x :: x in r <==> x in qs && UserRecipe(user.value, x.id) in table
    ensures value && user.Some? && NoDuplicates(table) ==>
      r == Keep(qs, (x: Recipe) => UserRecipe(user.value, x.id) in table)
  {
    if value && user.Some? then
      assert NoDuplicates(table) ==> JoinFilter(qs, table, user.value)
                                      == Keep(qs, (x: Recipe) => UserRecipe(user.value, x.id) in table) by {
        if NoDuplicates(table) { UniqueJoinFilterIsKeep(qs, table, user.value); }
      }
      JoinFilter(qs, table, user.value)
    else qs
  }

  // ---------------------------------------------------------------- RecipeViewSet.get_queryset

  /**
   The query parameters `get_queryset` reads. `author` is `None` when it is
   missing or empty and the id it names otherwise; the two flags are the raw
   strings.
   */
  datatype RecipeQuery = RecipeQuery(author: Option<UserId>, isFavorited: Option<string>, isInShoppingCart: Option<string>)

  /**
   `RecipeViewSet.get_queryset`: the author filter, then, for a signed-in user
   only, the favorite filter when `is_favorited` is exactly "1" and the cart
   filter when `is_in_shopping_cart` is exactly "1".
   */
  function RecipeQueryset(qs: seq<Recipe>, favorites: seq<UserRecipe>, cart: seq<UserRecipe>,
                          user: Option<UserId>, q: RecipeQuery): (r: seq<Recipe>)
    ensures forall x :: x in r <==>
      && x in qs
      && (q.author.Some? ==> x.author == q.author.value)
      && (user.Some? && q.isFavorited == Some("1") ==> UserRecipe(user.value, x.id) in favorites)
      && (user.Some? && q.isInShoppingCart == Some("1") ==> UserRecipe(user.value, x.id) in cart)
  {
    var byAuthor := if q.author.Some? then Keep(qs, (x: Recipe) => x.author == q.author.value) else qs;
    var favored := RelationFilter(byAuthor, favorites, user, q.isFavorited == Some("1"));
    RelationFilter(favored, cart, user, q.isInShoppingCart == Some("1"))
  }

  /** For an anonymous user the two flags and the two tables make no difference: only `author` filters. */
  lemma AnonymousIgnoresFlags(qs: seq<Recipe>, favorites: seq<UserRecipe>, cart: seq<UserRecipe>,
                              otherFavorites: seq<UserRecipe>, otherCart: seq<UserRecipe>, q: RecipeQuery)
    ensures RecipeQueryset(qs, favorites, cart, None, q)
            == RecipeQueryset(qs, otherFavorites, otherCart, None, RecipeQuery(q.author, None, None))
  {
  }

  /**
   With the favorite and cart uniqueness constraints the listing repeats no
   recipe, although both filters go through joins.
   */
  lemma RecipeQuerysetNoRepeats(qs: seq<Recipe>, favorites: seq<UserRecipe>, cart: seq<UserRecipe>,
                                user: Option<UserId>, q: RecipeQuery)
    requires NoDuplicates(qs) && NoDuplicates(favorites) && NoDuplicates(cart)
    ensures NoDuplicates(RecipeQueryset(qs, favorites, cart, user, q))
  {
    var byAuthor := if q.author.Some? then Keep(qs, (x: Recipe) => x.author == q.author.value) else qs;
    if q.author.Some? {
      KeepNoDuplicates(qs, (x: Recipe) => x.author == q.author.value);
    }
    var favored := RelationFilter(byAuthor, favorites, user, q.isFavorited == Some("1"));
    if user.Some? && q.isFavorited == Some("1") {
      KeepNoDuplicates(byAuthor, (x: Recipe) => UserRecipe(user.value, x.id) in favorites);
    }
    if user.Some? && q.isInShoppingCart == Some("1") {
      KeepNoDuplicates(favored, (x: Recipe) => UserRecipe(user.value, x.id) in cart);
    }
  }

  /**
   The viewset's "1" flags agree with `RecipeFilter`: on a recipe listing
   without an author parameter, a signed-in user's `is_favorited=1` gives what
   `filter_is_favorited` gives with a true value.
   */
  lemma FavoritedFlagIsRecipeFilter(qs: seq<Recipe>, favorites: seq<UserRecipe>, cart: seq<UserRecipe>, user: UserId)
    ensures RecipeQueryset(qs, favorites, cart, Some(user), RecipeQuery(None, Some("1"), None))
            == RelationFilter(qs, favorites, Some(user), true)
  {
  }

  lemma CartFlagIsRecipeFilter(qs: seq<Recipe>, favorites: seq<UserRecipe>, cart: seq<UserRecipe>, user: UserId)
    ensures RecipeQueryset(qs, favorites, cart, Some(user), RecipeQuery(None, None, Some("1")))
            == RelationFilter(qs, cart, Some(user), true)
  {
  }

  // ---------------------------------------------------------------- FollowSerializer.get_recipes

  /** `str(limit).isdigit()` for an ASCII string, together with the truth test of `limit`. */
  predicate IsDigitString(s: string)
  {
    |s| > 0 && Numerals.AllIn(s, DecimalDigits)
  }

  /** `int(limit)` on a digit string. */
  function ParseLimit(s: string): nat
    requires IsDigitString(s)
  {
    Numerals.Decode(s, DecimalDigits)
  }

  function Min(a: nat, b: nat): nat
  {
    if a <= b then a else b
  }

  /**
   `get_recipes`: `qs[:int(limit)]` when `recipes_limit` is a digit string,
   every recipe of the author otherwise; a limit past the end keeps them all.
   */
  function RecipesLimit(recipes: seq<Recipe>, limit: Option<string>): (r: seq<Recipe>)
    ensures |r| <= |recipes| && r == recipes[..|r|]
    ensures limit.Some? && IsDigitString(limit.value) ==> |r| == Min(ParseLimit(limit.value), |recipes|)
    ensures !(limit.Some? && IsDigitString(limit.value)) ==> r == recipes
  {
    if limit.Some? && IsDigitString(limit.value)
    then recipes[..Min(ParseLimit(limit.value), |recipes|)]
    else recipes
  }

  /** A client that sends `str(n)` as `recipes_limit` gets the first `n` recipes, or all when there are fewer. */
  lemma RecipesLimitOfNumeral(recipes: seq<Recipe>, n: nat)
    ensures var r := RecipesLimit(recipes, Some(Numerals.Encode(n, DecimalDigits)));
      r == recipes[..Min(n, |recipes|)]
  {
    DecimalDigitsValid();
    var s := Numerals.Encode(n, DecimalDigits);
    assert Numerals.AllIn(s, DecimalDigits);
    Numerals.DecodeEncode(n, DecimalDigits);
  }
}
