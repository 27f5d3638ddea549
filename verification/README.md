# foodgram core in Dafny

This project models the rule-bearing core of the foodgram recipe service, a
Django REST backend where users publish recipes, favorite them, put them in a
shopping cart and follow other authors. It covers:

- the short-link slug (`_base36`) and `get_link`;
- the favorite/cart toggle and the follow/unfollow transitions over their join tables;
- recipe ingredient validation and the create/update writes of the recipe/ingredient rows;
- `Recipe.save`'s assign-once short URL;
- the shopping-list report (grouping, summing, ordering, numbering);
- the two data-URI avatar validators and the file they store;
- `IsAuthorOrReadOnly`;
- the ingredient search, the favorite/cart recipe filters, the recipe listing filters, and the `recipes_limit` slice.

Tables are sequences of rows. The database's uniqueness constraints are then
real invariants: the write paths are proved to keep them, and the read paths
are proved to behave as plain set filters when they hold. A Django filter
across a join yields a row once per matching join row, and the model keeps
that multiplicity.

Modules, one per file:

- `Common`: `Option`, `Result`.
- `Http`: methods and status codes.
- `Strings`: Python's `startswith`, `in`, `split`, `replace` and `join`, and code-point order.
- `Numerals`: the positional encoder and decoder shared by `_base36`, `str(int)` and `int(str)`.
- `Sorting`: `order_by` as an insertion sort, with sortedness and permutation proved.
- `Schema`: the row types, bounds, constraints and `Recipe.save`.
- `ShortLink`, `Permissions`, `Relations`, `RecipeWrite`, `ShoppingList`, `Avatar`, `Filters`.

## Model

| member | source | states |
|---|---|---|
| Numerals.Digits | backend/api/views.py:183-186 | the remainders of repeated `divmod` are digits of the alphabet, with no leading zero digit, and there are none only for 0 |
| Numerals.DecodeEncode | backend/api/views.py:179-186 | reading the numeral of `n` back as a number gives `n` |
| Numerals.EncodeInjective | backend/api/views.py:179-186 | two naturals never share a numeral |
| Numerals.EncodeDecode | backend/api/views.py:179-186 | every numeral without a leading zero digit (and the zero digit alone) is the encoding of its value |
| Numerals.EncodeLoop | backend/api/views.py:182-186 | the `while num: divmod` loop, collecting remainders and reversing them, computes the numeral of `num` |
| ShortLink.Base36 | backend/api/views.py:177-186 | `_base36(n)` is non-empty, uses only 0-9a-z, has no leading '0' for n > 0, and is exactly "0" iff n = 0 |
| ShortLink.Base36RoundTrip | backend/api/views.py:183-186 | decoding `_base36(n)` in base 36 gives n |
| ShortLink.Base36Injective | backend/api/views.py:183-186 | distinct ids get distinct slugs, and equal slugs mean equal ids |
| ShortLink.Base36Onto | backend/api/views.py:181-186 | every 0-9a-z string without a leading '0', and "0", is the slug of its base-36 value |
| ShortLink.Base36Loop | backend/api/views.py:177-186 | the loop as written agrees with `Base36` |
| ShortLink.GetLink | backend/api/views.py:208-216 | for a natural `pk`, always status 200; the path is `/s/<short_url>/` for an existing recipe and `/s/<_base36(pk)>/` otherwise |
| ShortLink.DivMod36 | backend/api/views.py:184 | Python's `divmod(num, 36)` on any integer: `num == q * 36 + r` with `0 <= r < 36` |
| ShortLink.MinusOneIsFixedPoint | backend/api/views.py:183-184 | `divmod(-1, 36)` is `(-1, 35)`, so the loop variable stays at -1 |
| ShortLink.NegativeNeverReturns | backend/api/views.py:183-186 | for a negative number the loop of `_base36` as written has not stopped after any number of passes |
| ShortLink.NaturalReturnsSlug | backend/api/views.py:177-186 | for a natural `num` the loop as written stops within `num` passes and returns exactly `Base36(num)` |
| ShortLink.GetLinkChecked | backend/api/views.py:208-216 | the link view over every integer id: status 200 exactly for `pk >= 0`, with the paths of `GetLink`; a negative id is answered 404 |
| ShortLink.GetLinkCheckedAgrees | backend/api/views.py:208-216 | for every `pk >= 0`, the loop as written returns, and the checked view gives the same answer as `GetLink` |
| ShortLink.MissingRecipeLinkNamesId | backend/api/views.py:212-215 | for a missing recipe the link holds a base-36 slug that reads back as the requested id |
| ShortLink.MissingRecipeLinksDistinct | backend/api/views.py:212-215 | two different missing ids never get the same link |
| Schema.GenerateShortUrl | backend/recipes/models.py:86-89 | a generated short URL has length 8 and only ASCII letters and digits |
| Schema.ShortUrlAlphabetIsAlphanumeric | backend/recipes/models.py:87-88 | the population `ascii_letters + digits` has 62 characters, all ASCII alphanumeric |
| Schema.Save | backend/recipes/models.py:84-90 | after `save` the short URL is non-empty; a recipe that had one is unchanged; otherwise only the short URL is set, to an 8-character alphanumeric string |
| Schema.SaveAssignsOnce | backend/recipes/models.py:84-90 | saving again, with any random draws, never changes an assigned short URL |
| Schema.JoinCount | backend/api/views.py:290 | the number of favorite/cart rows pairing a user with a recipe is positive exactly when the pair is in the table |
| Schema.UniqueJoinCountsOnce | backend/recipes/models.py:148-153 | under the `(user, recipe)` unique constraint a pair occurs at most once |
| Permissions.HasPermission | backend/api/permissions.py:8-12 | safe methods always pass; an anonymous non-safe request is denied; an authenticated user passes |
| Permissions.HasObjectPermission | backend/api/permissions.py:14-18 | safe methods always pass; for any other method, exactly when the requester is the object's author |
| Permissions.AuthenticatedOrReadOnly | backend/api/views.py:192 | the framework's first permission class grants exactly what `has_permission` grants |
| Permissions.AuthorPassesBoth | backend/api/permissions.py:8-18 | an authenticated author passes both checks for every method |
| Permissions.RecipeWritesOnlyByAuthor | backend/api/permissions.py:3-18 | on a recipe, safe methods pass for everyone; a write passes all checks iff the requester is the recipe's author |
| Relations.RemoveAll | backend/api/views.py:253 | `filter(...).delete()` removes exactly that row from the set of rows, keeps the table free of duplicates, and leaves a table without it unchanged |
| Relations.RemoveFirst | backend/api/views.py:108-114 | `.first().delete()` removes one occurrence: the multiset loses exactly one copy of the row |
| Relations.RemoveFirstIsRemoveAll | backend/api/views.py:108-114 | with no duplicate rows, deleting the first match is deleting every match |
| Relations.Toggle | backend/api/views.py:234-254 | POST of a present pair and DELETE of an absent pair answer 400 and change nothing; otherwise POST adds exactly the pair (201) and DELETE removes exactly the pair (204); uniqueness is preserved |
| Relations.ToggleAction | backend/api/views.py:256-266 | only POST and DELETE reach the view: OPTIONS answers 200 and every other method 405, before any lookup and with the table unchanged; for POST and DELETE an unknown recipe answers 404 and changes nothing, and a known one runs the toggle |
| Relations.UnroutedMethodsChangeNothing | backend/api/views.py:256-264 | a method other than POST and DELETE changes neither the favorites, the cart nor the follows, and is answered 405 unless it is OPTIONS |
| Relations.AddTwiceRefused | backend/api/views.py:236-243 | a second POST of the same recipe is refused and leaves the table as the first left it |
| Relations.RemoveTwiceRefused | backend/api/views.py:247-252 | a second DELETE of the same recipe is refused and leaves the table as the first left it |
| Relations.AddThenRemoveRestores | backend/api/views.py:244-253 | adding an absent pair and removing it again restores the table exactly |
| Relations.Subscribe | backend/api/views.py:82-115 | methods other than POST and DELETE answered by the framework (200 for OPTIONS, 405 otherwise) with no change; for those two, unknown author 404; self-follow and duplicate follow 400 unchanged; unfollow without a follow 400 unchanged; otherwise exactly (user, author) is added (201) or exactly one copy of it removed (204, a multiset difference on any table); no duplicates and no self-follows are ever introduced |
| Relations.FollowTwiceRefused | backend/api/views.py:98-102 | following the same author twice: the second request is refused and changes nothing |
| Relations.UnfollowRemovesPair | backend/api/views.py:108-114 | under uniqueness, after unfollowing no (user, author) row remains |
| RecipeWrite.ValidateIngredients | backend/api/serializers.py:352-363 | the `seen`-set loop refuses an empty list, refuses a list that repeats an id, and otherwise returns the list unchanged (both directions); its verdict is the declarative one the serializer model uses |
| RecipeWrite.EntryErrors | backend/api/serializers.py:287-291 | an ingredient entry is error-free iff its id names a known ingredient and its amount lies in [1, 32000] |
| RecipeWrite.ListErrors | backend/api/serializers.py:342 | a nested list has no element errors iff every element is error-free |
| RecipeWrite.ValidateRecipeData | backend/api/serializers.py:341-350 | `is_valid` succeeds iff the required fields `name`, `text`, `cooking_time`, `ingredients` and `image` are present (unless partial), the cooking time is in [1, 32000], and the ingredients are non-empty, known, distinct and in range; the data is returned unchanged |
| RecipeWrite.ImagelessWriteRefused | backend/api/serializers.py:343 | a POST or PUT without `image` is refused with the image error and leaves the tables unchanged |
| RecipeWrite.AcceptedValuesInBounds | backend/api/serializers.py:344-346 | every accepted cooking time and ingredient amount lies in [1, 32000] (constants at serializers.py:20-23, amounts at 289-291) |
| RecipeWrite.BadIngredientListsRefused | backend/api/serializers.py:352-363 | a request with an empty or repeating ingredient list is refused whatever else it holds |
| RecipeWrite.NewRows | backend/api/serializers.py:365-375 | the bulk-created rows are one per entry, in order, for this recipe, carrying the entry's id and amount |
| RecipeWrite.RowsOf | backend/api/serializers.py:391 | `recipe.recipe_ingredients.all()` holds exactly the rows of that recipe |
| RecipeWrite.WithoutRecipe | backend/api/serializers.py:391 | deleting a recipe's rows keeps exactly the rows of other recipes |
| RecipeWrite.ReplaceRows | backend/api/serializers.py:391-392 | after the update the recipe's rows are exactly the new list, no old row of it survives, and every other recipe's rows are unchanged |
| RecipeWrite.ReplaceRowsKeepsConstraints | backend/recipes/models.py:109-125 | the replacement keeps the join table's unique (recipe, ingredient) constraint and amount bounds |
| RecipeWrite.UpdateRecipe | backend/api/serializers.py:384-393 | a refused update changes nothing; a valid update without `ingredients` is refused with the ingredients error; otherwise the rows are replaced, other recipes untouched, the author and short URL kept, and each of name, text and cooking time is the sent value if sent and the old one otherwise |
| RecipeWrite.CreateRecipe | backend/api/serializers.py:377-382 | a refused create changes nothing; otherwise one new recipe by the author holding the sent name, text and cooking time, with an 8-character short URL and exactly the listed rows, keeping the table constraints |
| Sorting.SortBy | backend/api/views.py:293 | `order_by('name')` returns a permutation of its input that is sorted by the key |
| Strings.Split | backend/api/serializers.py:177 | `split` yields one more piece than there are occurrences of the separator |
| Strings.ContainsIffOccurs | backend/api/serializers.py:175-177 | the `";base64," in value` test holds exactly when `split` finds an occurrence |
| Strings.JoinSplit | backend/api/serializers.py:177 | joining the pieces of a split with the separator gives the value back |
| Strings.ReplaceIsJoinOfSplit | backend/api/serializers.py:178 | `replace` equals joining the split pieces with the replacement |
| Strings.ReplaceAbsent | backend/api/serializers.py:178 | `replace("data:", "")` leaves a string without `data:` unchanged |
| ShoppingList.AddTo | backend/api/views.py:291-292 | adding a weight to a group keeps groups distinct, opens the key if new, and changes only that key's sum |
| ShoppingList.Group | backend/api/views.py:289-292 | the grouping by (name, unit) has no repeated key |
| ShoppingList.GroupCorrect | backend/api/views.py:289-292 | the groups are exactly the keys of the ingredients of the user's cart recipes, each with the reference sum of its rows |
| ShoppingList.Products | backend/api/views.py:289-293 | the grouped products are a permutation of the groups, ordered by name |
| ShoppingList.ProductsCorrect | backend/api/views.py:289-293 | the products are sorted by name, one per distinct (name, unit) among the cart's ingredients, each carrying the sum of its rows |
| ShoppingList.UniqueCartTotalIsPlainSum | backend/api/views.py:290-292 | with the cart's uniqueness constraint each line's total is the plain sum of the amounts of the cart recipes' rows |
| ShoppingList.ReportLines | backend/api/views.py:295-303 | exactly two header lines (`Список покупок для <username>`, `Продукты:`) and then, for the i-th product, the line `"<i+1>. <Title(name)> (<unit>) — <total>"`; nothing else |
| ShoppingList.ReportCorrect | backend/api/views.py:289-305 | the attachment text of `DownloadShoppingCart` is the lines joined by newlines: the two headers `Header1(username)` and `Header2`, then one `FormatLine` per distinct (name, unit) of the cart, name-ordered, numbered from 1, each with its sum written by `IntToString` |
| Avatar.PayloadAsWritten | backend/api/serializers.py:175-190 | after the prefix: no marker is a base64-format error; two or more crash; with one marker, a MIME type off the allow-list, a failed decoding and a size over the ceiling each give their own error; valid iff none of these |
| Avatar.PayloadChecked | backend/api/serializers.py:175-190 | the same errors and the same acceptance condition, except that two or more markers are a base64-format error, so it never crashes |
| Avatar.SetAvatarAsWritten | backend/api/serializers.py:170-191 | the avatar endpoint accepts exactly values with the `data:` prefix, one marker, an allowed MIME type, a decodable payload and at most 5·1024·1024 bytes; two markers crash |
| Avatar.SetAvatarChecked | backend/api/serializers.py:170-191 | the same acceptance condition and the same error for each failed check (prefix, marker, MIME type, decoding, 5 MiB), and a value with a repeated marker is refused with the base64-format error instead of crashing |
| Avatar.UserCreateAsWritten | backend/api/serializers.py:114-135 | sign-up maps exactly a missing or empty avatar to none; a non-empty value without the `data:image` prefix, without the marker, with a MIME type off the allow-list or with a payload that fails to decode gets that check's error; it accepts exactly `data:image` values with one marker, an allowed MIME type and a decodable payload, with no size ceiling; two markers crash |
| Avatar.UserCreateChecked | backend/api/serializers.py:114-135 | the same none case, errors and acceptance condition, with two or more markers refused as a base64-format error, never crashing |
| Avatar.SetAvatarCheckedAgrees | backend/api/serializers.py:177 | the guarded validator equals the one as written wherever that does not crash, and answers its crash with the base64 format error |
| Avatar.UserCreateCheckedAgrees | backend/api/serializers.py:123 | the same for the sign-up validator |
| Avatar.UserCreateRefusesBadValue | backend/api/serializers.py:114-135 | a non-empty sign-up avatar that fails the prefix, marker, MIME or decoding check is refused, never taken as "no avatar" |
| Avatar.DoubleMarkerCrashes | backend/api/serializers.py:177 | `data:image;base64,;base64,` makes both validators as written crash, whatever the decoder |
| Avatar.SetAvatarIsUserCreateWithCeiling | backend/api/serializers.py:187-190 | for a `data:image` value the avatar endpoint accepts exactly what sign-up accepts with a decoded size of at most 5 MiB |
| Avatar.SetAvatarStoredFile | backend/api/serializers.py:196-199 | the stored avatar (`StoredFile`, its extension from `Extension`) is `jpg` exactly for image/jpeg and image/jpg, `png` exactly for image/png, and at most 5 MiB |
| Avatar.UserCreateStoredFile | backend/api/serializers.py:147-151 | the sign-up avatar (`StoredFile`) follows the same `Extension` rule and has the decoded size |
| Filters.Keep | backend/api/views.py:276 | a single-table filter keeps exactly the rows satisfying the condition |
| Filters.KeepAbsorbs | backend/api/views.py:174 | a later filter by a stronger condition makes an earlier weaker one redundant |
| Filters.StartsWithFolded | backend/api/views.py:174 | a case-sensitive prefix match is also an `istartswith` match |
| Filters.IngredientList | backend/api/filters.py:33-37 | the ingredient list is always ordered by name |
| Filters.IngredientListCorrect | backend/api/filters.py:33-37 | with a non-empty term, exactly the ingredients whose name starts with it (case-sensitive); with none, every ingredient; always name-ordered |
| Filters.IngredientListUnique | backend/recipes/models.py:27-31 | over a catalogue that keeps `unique_ingredient` the list shows no (name, unit) twice |
| Filters.JoinFilter | backend/api/filters.py:20 | a filter across the favorite or cart join keeps exactly the recipes the user's rows name |
| Filters.UniqueJoinFilterIsKeep | backend/recipes/models.py:148-153 | under the unique constraint the join filter repeats no recipe and equals the plain filter |
| Filters.RelationFilter | backend/api/filters.py:17-27 | with a true value and a signed-in user only the user's favorited (or carted) recipes stay; otherwise the queryset is unchanged |
| Filters.RecipeQueryset | backend/api/views.py:271-284 | a recipe is listed iff it matches the author parameter and, for a signed-in user, is favorited when `is_favorited` is "1" and in the cart when `is_in_shopping_cart` is "1" |
| Filters.AnonymousIgnoresFlags | backend/api/views.py:278-283 | for an anonymous user the flags and the favorite/cart tables make no difference |
| Filters.RecipeQuerysetNoRepeats | backend/api/views.py:271-284 | with the uniqueness constraints the listing repeats no recipe |
| Filters.FavoritedFlagIsRecipeFilter | backend/api/views.py:280-281 | `is_favorited=1` gives what `filter_is_favorited` gives with a true value |
| Filters.CartFlagIsRecipeFilter | backend/api/views.py:282-283 | `is_in_shopping_cart=1` gives what `filter_is_in_shopping_cart` gives with a true value |
| Filters.RecipesLimit | backend/api/serializers.py:242-249 | the result is a prefix of the author's recipes: the first `int(limit)` (read by `ParseLimit`; all, if fewer) for a digit string, all of them otherwise |
| Filters.RecipesLimitOfNumeral | backend/api/serializers.py:246-247 | a `recipes_limit` of `str(n)` yields exactly the first min(n, count) recipes |

## Left out

- I/O and the framework around the rules: HTTP parsing, serialisation of responses, `build_absolute_uri` (the model returns the path), pagination, `HttpResponse` headers, and the `RecipeMinifiedSerializer`/`FollowSerializer` bodies of the 201 answers.
- Password handling (`PasswordSerializer`, `set_password`, `check_password`): hashing is outside the model.
- The recipe fields `name` and `text` are checked for presence only: only the fields with stated rules are modelled.
- RecipeWrite.ValidateRecipeData: the recipe `image` is checked for presence only. What `Base64ImageField` (serializers.py:264-272) does with a present value (the split on `;base64,`, the decoding and the image checks of `ImageField`) is not modelled, so a present but undecodable image is accepted here.
- Base64 decoding is a parameter that returns the decoded length or fails. `str.title()` and the case folding of `istartswith` are parameters too, because Unicode case mapping is outside the model.
- `random.choices` is a parameter of index draws, and `uuid4` file names are left out: nondeterminism is outside the model.
- The uniqueness of `short_url`: a random collision would fail the insert, and the model does not draw names.
- Transactions, the check-then-insert race of the toggles and of `subscribe`, and cascade deletes: concurrency and database mechanics are outside the model.
- `backend/users/models.py` is not part of this model. The follow table's uniqueness is a hypothesis (`NoDuplicates`) of the lemmas that need it.
- Filters.RecipeQueryset: the `author` parameter is taken as an already-converted user id. A non-numeric value, which Django rejects when building the query, is not modelled.
- Filters.RecipesLimit: only ASCII digit strings count as digits. Python's `isdigit` also accepts other Unicode digits, some of which `int` rejects.
- Sorting.SortBy: the database's collation is modelled as code-point order. Ties between equal names keep their input order, where SQL leaves them unspecified.
- The DRF `CharField` steps before `validate_avatar` (whitespace trimming, refusing a blank value, `required`) are not modelled. The validators take the string they are given.
- ShortLink.Base36: `pk` is taken as a natural number. The loop as written over every integer is ShortLink.Base36AsWritten, whose negative case is under Findings. The error for a non-numeric `pk` is outside the model.
- ShortLink.GetLink: `pk` is a natural number, so "always 200" is proved only for `pk >= 0`. For a negative `pk` the source never answers (see Findings). ShortLink.GetLinkChecked is the view over every integer.
- Relations.ToggleAction and Relations.Subscribe take the requester as a signed-in user. The 401 that `IsAuthenticated` gives an anonymous request, before the method dispatch and the lookup, is outside the model.
- `get_queryset` also narrows the recipe lookups of the favorite and cart actions. The model keeps the two apart.

## Findings

| source | as written | input that shows it | evidently intended | confidence | as-written member | corrected member |
|---|---|---|---|---|---|---|
| backend/api/serializers.py:175-177 | the avatar endpoint only tests that `;base64,` occurs, then unpacks the split into exactly two names, so two or more markers raise an uncaught `ValueError` and the request ends in a server error | `data:image;base64,;base64,` | a 400 validation error like every other malformed avatar | not executed | Avatar.SetAvatarAsWritten (with Avatar.DoubleMarkerCrashes) | Avatar.SetAvatarChecked |
| backend/api/serializers.py:119-123 | sign-up has the same test-then-unpack sequence and the same uncaught `ValueError` | `data:image;base64,;base64,` | a 400 validation error | not executed | Avatar.UserCreateAsWritten (with Avatar.DoubleMarkerCrashes) | Avatar.UserCreateChecked |
| backend/api/views.py:183-186 | `while num:` with floor `divmod` never reaches 0 for a negative `num`. The router accepts `-1` as a `pk` and `get_link` is open to everyone, so `_base36(int(pk))` loops forever on a growing list and the request never gets an answer | a `get-link` request for recipe `-1` (route `recipes/-1/get-link/`); `divmod(-1, 36) == (-1, 35)` | an answer for every id; a negative id names no recipe, so a 404 | not executed | ShortLink.NegativeNeverReturns (about ShortLink.Base36AsWritten, with ShortLink.MinusOneIsFixedPoint) | ShortLink.GetLinkChecked (with ShortLink.GetLinkCheckedAgrees) |
