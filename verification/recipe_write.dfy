/**
 The write side of `RecipeCreateSerializer`: field bounds, `validate_ingredients`,
 and the `create`/`update` bodies, which write the recipe/ingredient join rows.
 Validation runs before any write, and the writes of one request are atomic,
 so a refused request leaves every table as it was.
 */
module RecipeWrite {
  import opened Common
  import opened Schema

  /** One element of the `ingredients` list of a request: `{"id": ..., "amount": ...}`. */
  datatype IngredientInput = IngredientInput(id: IngredientId, amount: int)

  datatype ValidationError =
    | NoIngredients          // "at least one ingredient is needed"
    | RepeatedIngredient     // "ingredients must not repeat"
    | UnknownIngredient      // the primary-key field finds no such ingredient
    | AmountOutOfRange
    | CookingTimeOutOfRange
    | IngredientsRequired    // a required field, or `update` without `ingredients`
    | CookingTimeRequired
    | NameRequired
    | TextRequired
    | ImageRequired

  /** The request body; a field the client left out is `None`. */
  datatype RecipeData = RecipeData(
    name: Option<string>,
    text: Option<string>,
    cookingTime: Option<int>,
    ingredients: Option<seq<IngredientInput>>,
    image: Option<string>)

  predicate DistinctIds(items: seq<IngredientInput>)
  {
    forall i, j :: 0 <= i < j < |items| ==> items[i].id != items[j].id
  }

  /** `validate_ingredients`, with its `seen` set: refuses an empty list and the first repeated id. */
  method ValidateIngredients(value: seq<IngredientInput>) returns (r: Result<seq<IngredientInput>, ValidationError>)
    ensures r == IngredientsVerdict(value)
    ensures |value| == 0 ==> r == Err(NoIngredients)
    ensures |value| > 0 && !DistinctIds(value) ==> r == Err(RepeatedIngredient)
    ensures r.Ok? <==> |value| > 0 && DistinctIds(value)
    ensures r.Ok? ==> r.value == value
  {
    if |value| == 0 {
      return Err(NoIngredients);
    }
    var seen: set<IngredientId> := {};
    var i := 0;
    while i < |value|
      invariant 0 <= i <= |value|
      invariant seen == set k | 0 <= k < i :: value[k].id
      invariant forall a, b :: 0 <= a < b < i ==> value[a].id != value[b].id
    {
      var ingr := value[i].id;
      if ingr in seen {
        var k :| 0 <= k < i && value[k].id == ingr;
        assert value[k].id == value[i].id;
        return Err(RepeatedIngredient);
      }
      seen := seen + {ingr};
      i := i + 1;
    }
    return Ok(value);
  }

  /** `validate_ingredients` as a value, for use inside the other functions. */
  function IngredientsVerdict(value: seq<IngredientInput>): Result<seq<IngredientInput>, ValidationError>
  {
    if |value| == 0 then Err(NoIngredients)
    else if !DistinctIds(value) then Err(RepeatedIngredient)
    else Ok(value)
  }

  /** The errors of one list element: the primary-key field, then `IntegerField(min_value=1, max_value=32000)`. */
  function EntryErrors(entry: IngredientInput, catalog: set<IngredientId>): (errors: set<ValidationError>)
    ensures errors == {} <==> entry.id in catalog && AmountInRange(entry.amount)
    ensures errors <= {UnknownIngredient, AmountOutOfRange}
  {
    (if entry.id in catalog then {} else {UnknownIngredient})
    + (if AmountInRange(entry.amount) then {} else {AmountOutOfRange})
  }

  function ListErrors(entries: seq<IngredientInput>, catalog: set<IngredientId>): (errors: set<ValidationError>)
    ensures errors == {} <==> forall k :: 0 <= k < |entries| ==> EntryErrors(entries[k], catalog) == {}
    decreases |entries|
  {
    if |entries| == 0 then {}
    else EntryErrors(entries[0], catalog) + ListErrors(entries[1..], catalog)
  }

  /** The `ingredients` field: the elements' own checks first; `validate_ingredients` only when they all pass. */
  function IngredientsFieldErrors(entries: seq<IngredientInput>, catalog: set<IngredientId>): set<ValidationError>
  {
    var own := ListErrors(entries, catalog);
    if own != {} then own
    else match IngredientsVerdict(entries)
      case Ok(_) => {}
      case Err(e) => {e}
  }

  function FieldErrors<T>(value: Option<T>, partial: bool, required: ValidationError, check: set<ValidationError>)
    : set<ValidationError>
  {
    match value
    case None => if partial then {} else {required}
    case Some(_) => check
  }

  /** Every entry names a known ingredient with an amount in range, and no id repeats. */
  predicate AcceptableIngredients(entries: seq<IngredientInput>, catalog: set<IngredientId>)
  {
    && |entries| > 0
    && DistinctIds(entries)
    && forall k :: 0 <= k < |entries| ==> entries[k].id in catalog && AmountInRange(entries[k].amount)
  }

  /**
   `is_valid()` of `RecipeCreateSerializer`: every field's errors are collected;
   with `partial` (a PATCH) a missing field is no error. Every field, the
   `image` of `Base64ImageField` included, is required otherwise; the checks on
   `name`, `text` and the image's content beyond presence are not part of this model.
   */
  function ValidateRecipeData(data: RecipeData, catalog: set<IngredientId>, partial: bool)
    : (r: Result<RecipeData, set<ValidationError>>)
    ensures r.Ok? ==> r.value == data
    ensures r.Err? ==> r.error != {}
    ensures r.Ok? <==>
      && (partial || (data.name.Some? && data.text.Some? && data.cookingTime.Some? && data.ingredients.Some?
                      && data.image.Some?))
      && (data.cookingTime.Some? ==> CookingTimeInRange(data.cookingTime.value))
      && (data.ingredients.Some? ==> AcceptableIngredients(data.ingredients.value, catalog))
  {
    var errors :=
      FieldErrors(data.name, partial, NameRequired, {})
      + FieldErrors(data.text, partial, TextRequired, {})
      + FieldErrors(data.cookingTime, partial, CookingTimeRequired,
          if data.cookingTime.Some? && !CookingTimeInRange(data.cookingTime.value) then {CookingTimeOutOfRange} else {})
      + FieldErrors(data.ingredients, partial, IngredientsRequired,
          if data.ingredients.Some? then IngredientsFieldErrors(data.ingredients.value, catalog) else {})
      + FieldErrors(data.image, partial, ImageRequired, {});
    if errors == {} then Ok(data) else Err(errors)
  }

  /** The join rows `_create_recipe_ingredients` bulk-inserts for a recipe. */
  function NewRows(recipe: RecipeId, entries: seq<IngredientInput>): (rows: seq<RecipeIngredient>)
    ensures |rows| == |entries|
    ensures forall k :: 0 <= k < |rows| ==>
      rows[k] == RecipeIngredient(recipe, entries[k].id, entries[k].amount)
  {
    seq(|entries|, k requires 0 <= k < |entries| => RecipeIngredient(recipe, entries[k].id, entries[k].amount))
  }

  /** The join rows of one recipe, in table order: `recipe.recipe_ingredients.all()`. */
  function RowsOf(rows: seq<RecipeIngredient>, recipe: RecipeId): (r: seq<RecipeIngredient>)
    ensures forall x :: x in r <==> x in rows && x.recipe == recipe
    decreases |rows|
  {
    if |rows| == 0 then []
    else
      assert rows == [rows[0]] + rows[1..];
      (if rows[0].recipe == recipe then [rows[0]] else []) + RowsOf(rows[1..], recipe)
  }

  /** The table after `recipe.recipe_ingredients.all().delete()`. */
  function WithoutRecipe(rows: seq<RecipeIngredient>, recipe: RecipeId): (r: seq<RecipeIngredient>)
    ensures forall x :: x in r <==> x in rows && x.recipe != recipe
    decreases |rows|
  {
    if |rows| == 0 then []
    else
      assert rows == [rows[0]] + rows[1..];
      (if rows[0].recipe == recipe then [] else [rows[0]]) + WithoutRecipe(rows[1..], recipe)
  }

  lemma {:induction false} RowsOfAppend(a: seq<RecipeIngredient>, b: seq<RecipeIngredient>, recipe: RecipeId)
    ensures RowsOf(a + b, recipe) == RowsOf(a, recipe) + RowsOf(b, recipe)
    decreases |a|
  {
    if |a| > 0 {
      assert (a + b)[1..] == a[1..] + b;
      RowsOfAppend(a[1..], b, recipe);
    } else {
      assert a + b == b;
    }
  }

  lemma {:induction false} RowsOfWithout(rows: seq<RecipeIngredient>, recipe: RecipeId, other: RecipeId)
    ensures RowsOf(WithoutRecipe(rows, recipe), recipe) == []
    ensures other != recipe ==> RowsOf(WithoutRecipe(rows, recipe), other) == RowsOf(rows, other)
    decreases |rows|
  {
    if |rows| > 0 {
      RowsOfWithout(rows[1..], recipe, other);
      var head := if rows[0].recipe == recipe then [] else [rows[0]];
      RowsOfAppend(head, WithoutRecipe(rows[1..], recipe), recipe);
      RowsOfAppend(head, WithoutRecipe(rows[1..], recipe), other);
    }
  }

  lemma {:induction false} RowsOfNewRows(recipe: RecipeId, entries: seq<IngredientInput>, other: RecipeId)
    ensures RowsOf(NewRows(recipe, entries), recipe) == NewRows(recipe, entries)
    ensures other != recipe ==> RowsOf(NewRows(recipe, entries), other) == []
    decreases |entries|
  {
    if |entries| > 0 {
      var rows := NewRows(recipe, entries);
      assert rows == [rows[0]] + NewRows(recipe, entries[1..]);
      RowsOfNewRows(recipe, entries[1..], other);
      RowsOfAppend([rows[0]], NewRows(recipe, entries[1..]), recipe);
      RowsOfAppend([rows[0]], NewRows(recipe, entries[1..]), other);
    }
  }

  /** `_create_recipe_ingredients` after removing the recipe's old rows: the write of `update`. */
  function ReplaceRows(rows: seq<RecipeIngredient>, recipe: RecipeId, entries: seq<IngredientInput>)
    : (r: seq<RecipeIngredient>)
    ensures RowsOf(r, recipe) == NewRows(recipe, entries)
    ensures forall other :: other != recipe ==> RowsOf(r, other) == RowsOf(rows, other)
  {
    var kept := WithoutRecipe(rows, recipe);
    forall other
      ensures RowsOf(kept + NewRows(recipe, entries), other)
        == (if other == recipe then NewRows(recipe, entries) else RowsOf(rows, other))
    {
      RowsOfAppend(kept, NewRows(recipe, entries), other);
      RowsOfWithout(rows, recipe, other);
      RowsOfNewRows(recipe, entries, other);
    }
    kept + NewRows(recipe, entries)
  }

  lemma ConsUniqueKeys(head: RecipeIngredient, tail: seq<RecipeIngredient>)
    requires UniqueRecipeIngredientKeys(tail)
    requires forall x :: x in tail ==> (x.recipe, x.ingredient) != (head.recipe, head.ingredient)
    ensures UniqueRecipeIngredientKeys([head] + tail)
  {
    var t := [head] + tail;
    forall i, j | 0 <= i < j < |t|
      ensures (t[i].recipe, t[i].ingredient) != (t[j].recipe, t[j].ingredient)
    {
      assert t[j] == tail[j - 1];
      if i > 0 {
        assert t[i] == tail[i - 1];
      }
    }
  }

  lemma {:induction false} WithoutRecipeKeepsUnique(rows: seq<RecipeIngredient>, recipe: RecipeId)
    requires UniqueRecipeIngredientKeys(rows)
    ensures UniqueRecipeIngredientKeys(WithoutRecipe(rows, recipe))
    decreases |rows|
  {
    if |rows| > 0 {
      var tail := rows[1..];
      assert UniqueRecipeIngredientKeys(tail) by {
        forall i, j | 0 <= i < j < |tail|
          ensures (tail[i].recipe, tail[i].ingredient) != (tail[j].recipe, tail[j].ingredient)
        {
          assert tail[i] == rows[i + 1] && tail[j] == rows[j + 1];
        }
      }
      WithoutRecipeKeepsUnique(tail, recipe);
      if rows[0].recipe != recipe {
        var rest := WithoutRecipe(tail, recipe);
        forall x | x in rest
          ensures (x.recipe, x.ingredient) != (rows[0].recipe, rows[0].ingredient)
        {
          var k :| 0 <= k < |tail| && tail[k] == x;
          assert rows[k + 1] == x;
        }
        ConsUniqueKeys(rows[0], rest);
      }
    }
  }

  /** The new rows keep the table's constraints: the kept rows keep theirs, the new ones have distinct ids and amounts in range. */
  lemma ReplaceRowsKeepsConstraints(rows: seq<RecipeIngredient>, recipe: RecipeId, entries: seq<IngredientInput>)
    requires ValidRecipeIngredients(rows)
    requires DistinctIds(entries)
    requires forall k :: 0 <= k < |entries| ==> AmountInRange(entries[k].amount)
    ensures ValidRecipeIngredients(ReplaceRows(rows, recipe, entries))
  {
    var kept := WithoutRecipe(rows, recipe);
    var added := NewRows(recipe, entries);
    var r := kept + added;
    WithoutRecipeKeepsUnique(rows, recipe);
    forall i, j | 0 <= i < j < |r|
      ensures (r[i].recipe, r[i].ingredient) != (r[j].recipe, r[j].ingredient)
    {
      if j < |kept| {
        assert r[i] == kept[i] && r[j] == kept[j];
      } else if i < |kept| {
        assert r[i] == kept[i] && r[i] in kept;
        assert r[j] == added[j - |kept|];
      } else {
        assert r[i] == added[i - |kept|] && r[j] == added[j - |kept|];
      }
    }
    forall i | 0 <= i < |r|
      ensures AmountInRange(r[i].amount)
    {
      if i < |kept| {
        assert r[i] == kept[i] && r[i] in kept;
        var k :| 0 <= k < |rows| && rows[k] == r[i];
      } else {
        assert r[i] == added[i - |kept|];
      }
    }
  }

  /** The tables a recipe write touches. */
  datatype WriteState = WriteState(recipes: map<RecipeId, Recipe>, rows: seq<RecipeIngredient>)

  /** The outcome of a write request: the tables afterwards and the error that refused it, if any. */
  datatype WriteOutcome = WriteOutcome(state: WriteState, errors: set<ValidationError>)

  /**
   PUT or PATCH of recipe `id`: `is_valid` (partial for a PATCH), then `update`,
   which refuses a body without `ingredients`, deletes the recipe's join rows,
   inserts the new ones, and saves the fields that were sent. `picks` are the
   random draws `Recipe.save` would use if the recipe had no short URL.
   */
  function UpdateRecipe(st: WriteState, id: RecipeId, data: RecipeData, catalog: set<IngredientId>,
                        partial: bool, picks: seq<nat>): (out: WriteOutcome)
    requires id in st.recipes
    requires ValidPicks(picks)
    ensures out.errors != {} ==> out.state == st
    ensures out.errors == {} <==> ValidateRecipeData(data, catalog, partial).Ok? && data.ingredients.Some?
    ensures ValidateRecipeData(data, catalog, partial).Ok? && data.ingredients.None? ==>
      out == WriteOutcome(st, {IngredientsRequired})
    ensures out.errors == {} ==>
      && RowsOf(out.state.rows, id) == NewRows(id, data.ingredients.value)
      && (forall other :: other != id ==> RowsOf(out.state.rows, other) == RowsOf(st.rows, other))
      && out.state.recipes.Keys == st.recipes.Keys
      && (forall other :: other in st.recipes && other != id ==> out.state.recipes[other] == st.recipes[other])
      && out.state.recipes[id].shortUrl != ""
      && (st.recipes[id].shortUrl != "" ==> out.state.recipes[id].shortUrl == st.recipes[id].shortUrl)
    ensures out.errors == {} && ValidRecipeIngredients(st.rows) ==> ValidRecipeIngredients(out.state.rows)
    ensures out.errors == {} && CookingTimeInRange(st.recipes[id].cookingTime) ==>
      CookingTimeInRange(out.state.recipes[id].cookingTime)
    ensures out.errors == {} ==>
      && out.state.recipes[id].id == st.recipes[id].id
      && out.state.recipes[id].author == st.recipes[id].author
      && out.state.recipes[id].name == (if data.name.Some? then data.name.value else st.recipes[id].name)
      && out.state.recipes[id].text == (if data.text.Some? then data.text.value else st.recipes[id].text)
      && out.state.recipes[id].cookingTime ==
           (if data.cookingTime.Some? then data.cookingTime.value else st.recipes[id].cookingTime)
  {
    match ValidateRecipeData(data, catalog, partial)
    case Err(errors) => WriteOutcome(st, errors)
    case Ok(valid) =>
      match valid.ingredients
      case None => WriteOutcome(st, {IngredientsRequired})
      case Some(entries) =>
        var rows := ReplaceRows(st.rows, id, entries);
        var before := st.recipes[id];
        var changed := before.(
          name := if valid.name.Some? then valid.name.value else before.name,
          text := if valid.text.Some? then valid.text.value else before.text,
          cookingTime := if valid.cookingTime.Some? then valid.cookingTime.value else before.cookingTime);
        assert ValidRecipeIngredients(st.rows) ==> ValidRecipeIngredients(rows) by {
          if ValidRecipeIngredients(st.rows) {
            ReplaceRowsKeepsConstraints(st.rows, id, entries);
          }
        }
        WriteOutcome(WriteState(st.recipes[id := Save(changed, picks)], rows), {})
  }

  /**
   POST: `is_valid` (not partial), then `create`: the recipe row saved with a
   fresh id and a random short URL, then its join rows.
   */
  function CreateRecipe(st: WriteState, author: UserId, data: RecipeData, catalog: set<IngredientId>,
                        newId: RecipeId, picks: seq<nat>): (out: WriteOutcome)
    requires newId !in st.recipes
    requires ValidPicks(picks)
    ensures out.errors != {} ==> out.state == st
    ensures out.errors == {} <==> ValidateRecipeData(data, catalog, false).Ok?
    ensures out.errors == {} ==>
      && out.state.recipes.Keys == st.recipes.Keys + {newId}
      && (forall other :: other in st.recipes ==> out.state.recipes[other] == st.recipes[other])
      && out.state.recipes[newId].id == newId
      && out.state.recipes[newId].author == author
      && out.state.recipes[newId].name == data.name.value
      && out.state.recipes[newId].text == data.text.value
      && out.state.recipes[newId].cookingTime == data.cookingTime.value
      && CookingTimeInRange(out.state.recipes[newId].cookingTime)
      && |out.state.recipes[newId].shortUrl| == ShortUrlLength
      && RowsOf(out.state.rows, newId) == RowsOf(st.rows, newId) + NewRows(newId, data.ingredients.value)
      && (forall other :: other != newId ==> RowsOf(out.state.rows, other) == RowsOf(st.rows, other))
    ensures out.errors == {} && ValidRecipeIngredients(st.rows) && RowsOf(st.rows, newId) == [] ==>
      ValidRecipeIngredients(out.state.rows)
  {
    match ValidateRecipeData(data, catalog, false)
    case Err(errors) => WriteOutcome(st, errors)
    case Ok(valid) =>
      var entries := valid.ingredients.value;
      var recipe := Save(Recipe(newId, author, valid.name.value, valid.text.value, valid.cookingTime.value, ""), picks);
      var rows := st.rows + NewRows(newId, entries);
      forall other
        ensures RowsOf(rows, other) == RowsOf(st.rows, other) + (if other == newId then NewRows(newId, entries) else [])
      {
        RowsOfAppend(st.rows, NewRows(newId, entries), other);
        RowsOfNewRows(newId, entries, other);
      }
      assert ValidRecipeIngredients(st.rows) && RowsOf(st.rows, newId) == [] ==> ValidRecipeIngredients(rows) by {
        if ValidRecipeIngredients(st.rows) && RowsOf(st.rows, newId) == [] {
          NoRowsMeansWithoutIsIdentity(st.rows, newId);
          ReplaceRowsKeepsConstraints(st.rows, newId, entries);
        }
      }
      WriteOutcome(WriteState(st.recipes[newId := recipe], rows), {})
  }

  lemma {:induction false} NoRowsMeansWithoutIsIdentity(rows: seq<RecipeIngredient>, recipe: RecipeId)
    requires RowsOf(rows, recipe) == []
    ensures WithoutRecipe(rows, recipe) == rows
    decreases |rows|
  {
    if |rows| > 0 {
      assert |RowsOf(rows[1..], recipe)| == 0;
      NoRowsMeansWithoutIsIdentity(rows[1..], recipe);
      assert rows == [rows[0]] + rows[1..];
    }
  }

  /** Every amount the serializer accepts, and the cooking time, lie in [1, 32000]. */
  lemma AcceptedValuesInBounds(data: RecipeData, catalog: set<IngredientId>, partial: bool)
    requires ValidateRecipeData(data, catalog, partial).Ok?
    ensures data.cookingTime.Some? ==> 1 <= data.cookingTime.value <= 32000
    ensures data.ingredients.Some? ==>
      forall k :: 0 <= k < |data.ingredients.value| ==> 1 <= data.ingredients.value[k].amount <= 32000
  {
  }

  /** An empty ingredient list, or one that repeats an id, is refused whatever else the request holds. */
  lemma BadIngredientListsRefused(data: RecipeData, catalog: set<IngredientId>, partial: bool)
    requires data.ingredients.Some?
    requires |data.ingredients.value| == 0 || !DistinctIds(data.ingredients.value)
    ensures ValidateRecipeData(data, catalog, partial).Err?
  {
  }

  /** A POST or a PUT without `image` is refused with `ImageRequired` and writes nothing. */
  lemma ImagelessWriteRefused(st: WriteState, data: RecipeData, catalog: set<IngredientId>,
                              author: UserId, newId: RecipeId, id: RecipeId, picks: seq<nat>)
    requires data.image.None?
    requires newId !in st.recipes && ValidPicks(picks)
    ensures ValidateRecipeData(data, catalog, false).Err?
    ensures ImageRequired in ValidateRecipeData(data, catalog, false).error
    ensures CreateRecipe(st, author, data, catalog, newId, picks) ==
      WriteOutcome(st, ValidateRecipeData(data, catalog, false).error)
    ensures id in st.recipes ==>
      && UpdateRecipe(st, id, data, catalog, false, picks).state == st
      && ImageRequired in UpdateRecipe(st, id, data, catalog, false, picks).errors
  {
  }
}
