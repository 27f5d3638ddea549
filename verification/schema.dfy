/**
 The relational schema of `backend/recipes/models.py` (and the follow table of
 the users app): one datatype per row kind, the value bounds and uniqueness
 constraints the database declares, and `Recipe.save`'s assign-once short URL.
 A table is a sequence of rows, so that the uniqueness constraints are
 invariants the write paths have to keep rather than facts a set gives for free.
 */
module Schema {
  import Numerals

  type UserId = nat
  type RecipeId = nat
  type IngredientId = nat

  const MinCookingTime: int := 1
  const MaxCookingTime: int := 32000
  const MinIngredientAmount: int := 1
  const MaxIngredientAmount: int := 32000
  const ShortUrlLength: nat := 8

  /** `string.ascii_letters + string.digits`, the population of the random short URL. */
  const LowerLetters: string := "abcdefghijklmnopqrstuvwxyz"
  const UpperLetters: string := "ABCDEFGHIJKLMNOPQRSTUVWXYZ"
  const DecimalDigits: string := "0123456789"
  const ShortUrlAlphabet: string := LowerLetters + UpperLetters + DecimalDigits

  /** The decimal digits are a numeral alphabet, the one `str` and `int` use. */
  lemma DecimalDigitsValid()
    ensures Numerals.ValidAlphabet(DecimalDigits)
  {
  }

  datatype Ingredient = Ingredient(id: IngredientId, name: string, unit: string)

  datatype Recipe = Recipe(
    id: RecipeId,
    author: UserId,
    name: string,
    text: string,
    cookingTime: int,
    shortUrl: string)

  /** A row of the recipe/ingredient join table, carrying the quantity. */
  datatype RecipeIngredient = RecipeIngredient(recipe: RecipeId, ingredient: IngredientId, amount: int)

  /** A row of `Favorite` or of `ShoppingCart`: both tables have this shape. */
  datatype UserRecipe = UserRecipe(user: UserId, recipe: RecipeId)

  /** A row of `Follow`: `user` subscribes to `author`. */
  datatype Follow = Follow(user: UserId, author: UserId)

  predicate CookingTimeInRange(t: int)
  {
    MinCookingTime <= t <= MaxCookingTime
  }

  predicate AmountInRange(a: int)
  {
    MinIngredientAmount <= a <= MaxIngredientAmount
  }

  /** A table whose rows are pairwise distinct: the `UniqueConstraint` over all of a join row's fields. */
  predicate NoDuplicates<T(==)>(rows: seq<T>)
  {
    forall i, j :: 0 <= i < j < |rows| ==> rows[i] != rows[j]
  }

  /** A row can go in front of a duplicate-free table exactly when it is not already there. */
  lemma ConsNoDuplicates<T>(head: T, tail: seq<T>)
    ensures NoDuplicates([head] + tail) <==> head !in tail && NoDuplicates(tail)
  {
    var t := [head] + tail;
    if head !in tail && NoDuplicates(tail) {
      forall i, j | 0 <= i < j < |t|
        ensures t[i] != t[j]
      {
        assert t[j] == tail[j - 1];
        if i > 0 {
          assert t[i] == tail[i - 1];
        }
      }
    }
    if NoDuplicates(t) {
      forall i, j | 0 <= i < j < |tail|
        ensures tail[i] != tail[j]
      {
        assert t[i + 1] == tail[i] && t[j + 1] == tail[j];
      }
      forall k | 0 <= k < |tail|
        ensures tail[k] != head
      {
        assert t[k + 1] == tail[k] && t[0] != t[k + 1];
      }
    }
  }

  /** How many rows of a favorite or cart table pair `user` with `recipe`: how often a join over the table yields the recipe. */
  function JoinCount(table: seq<UserRecipe>, user: UserId, recipe: RecipeId): (n: nat)
    ensures n > 0 <==> UserRecipe(user, recipe) in table
    decreases |table|
  {
    if |table| == 0 then 0
    else (if table[0] == UserRecipe(user, recipe) then 1 else 0) + JoinCount(table[1..], user, recipe)
  }

  /** Under the uniqueness constraint a join yields each recipe at most once. */
  lemma {:induction false} UniqueJoinCountsOnce(table: seq<UserRecipe>, user: UserId, recipe: RecipeId)
    requires NoDuplicates(table)
    ensures JoinCount(table, user, recipe) <= 1
    decreases |table|
  {
    if |table| > 0 {
      var tail := table[1..];
      assert NoDuplicates(tail) by {
        forall i, j | 0 <= i < j < |tail|
          ensures tail[i] != tail[j]
        {
          assert tail[i] == table[i + 1] && tail[j] == table[j + 1];
        }
      }
      UniqueJoinCountsOnce(tail, user, recipe);
      if table[0] == UserRecipe(user, recipe) {
        assert UserRecipe(user, recipe) !in tail by {
          forall i | 0 <= i < |tail|
            ensures tail[i] != table[0]
          {
            assert tail[i] == table[i + 1];
          }
        }
      }
    }
  }

  /** `unique_ingredient`: (name, measurement_unit) identifies an ingredient. */
  predicate UniqueIngredientKeys(ingredients: seq<Ingredient>)
  {
    forall i, j :: 0 <= i < j < |ingredients| ==>
      (ingredients[i].name, ingredients[i].unit) != (ingredients[j].name, ingredients[j].unit)
  }

  /** `unique_recipe_ingredient`: a recipe lists an ingredient at most once. */
  predicate UniqueRecipeIngredientKeys(rows: seq<RecipeIngredient>)
  {
    forall i, j :: 0 <= i < j < |rows| ==>
      (rows[i].recipe, rows[i].ingredient) != (rows[j].recipe, rows[j].ingredient)
  }

  /** Every constraint the join table declares: unique (recipe, ingredient) and amounts in range. */
  predicate ValidRecipeIngredients(rows: seq<RecipeIngredient>)
  {
    UniqueRecipeIngredientKeys(rows) && forall i :: 0 <= i < |rows| ==> AmountInRange(rows[i].amount)
  }

  predicate IsAsciiAlphanumeric(c: char)
  {
    ('a' <= c <= 'z') || ('A' <= c <= 'Z') || ('0' <= c <= '9')
  }

  lemma ShortUrlAlphabetIsAlphanumeric()
    ensures |ShortUrlAlphabet| == 62
    ensures forall i :: 0 <= i < |ShortUrlAlphabet| ==> IsAsciiAlphanumeric(ShortUrlAlphabet[i])
  {
    assert forall i :: 0 <= i < |LowerLetters| ==> 'a' <= LowerLetters[i] <= 'z';
    assert forall i :: 0 <= i < |UpperLetters| ==> 'A' <= UpperLetters[i] <= 'Z';
    assert forall i :: 0 <= i < |DecimalDigits| ==> '0' <= DecimalDigits[i] <= '9';
    forall i | 0 <= i < |ShortUrlAlphabet|
      ensures IsAsciiAlphanumeric(ShortUrlAlphabet[i])
    {
      if i < 26 {
        assert ShortUrlAlphabet[i] == LowerLetters[i];
      } else if i < 52 {
        assert ShortUrlAlphabet[i] == UpperLetters[i - 26];
      } else {
        assert ShortUrlAlphabet[i] == DecimalDigits[i - 52];
      }
    }
  }

  /** `random.choices(population, k=8)`, with the random draws given as population indices. */
  predicate ValidPicks(picks: seq<nat>)
  {
    |picks| == ShortUrlLength && forall i :: 0 <= i < |picks| ==> picks[i] < |ShortUrlAlphabet|
  }

  function GenerateShortUrl(picks: seq<nat>): (s: string)
    requires ValidPicks(picks)
    ensures |s| == ShortUrlLength
    ensures forall i :: 0 <= i < |s| ==> IsAsciiAlphanumeric(s[i])
  {
    ShortUrlAlphabetIsAlphanumeric();
    seq(|picks|, i requires 0 <= i < |picks| => ShortUrlAlphabet[picks[i]])
  }

  /** `Recipe.save`: a recipe without a short URL gets a fresh random one; one that has a short URL keeps it. */
  function Save(r: Recipe, picks: seq<nat>): (saved: Recipe)
    requires ValidPicks(picks)
    ensures saved.shortUrl != ""
    ensures r.shortUrl != "" ==> saved == r
    ensures r.shortUrl == "" ==> |saved.shortUrl| == ShortUrlLength
    ensures forall i :: 0 <= i < |saved.shortUrl| && r.shortUrl == "" ==> IsAsciiAlphanumeric(saved.shortUrl[i])
    ensures saved.(shortUrl := r.shortUrl) == r
  {
    if r.shortUrl == "" then r.(shortUrl := GenerateShortUrl(picks)) else r
  }

  /** Saving again, with whatever random draws, never changes a short URL once assigned. */
  lemma SaveAssignsOnce(r: Recipe, first: seq<nat>, later: seq<nat>)
    requires ValidPicks(first) && ValidPicks(later)
    ensures Save(Save(r, first), later) == Save(r, first)
    ensures r.shortUrl != "" ==> Save(r, first).shortUrl == r.shortUrl
  {
  }
}
