/**
 `IsAuthorOrReadOnly` from `backend/api/permissions.py`, and the composition the
 recipe views use: `(IsAuthenticatedOrReadOnly, IsAuthorOrReadOnly)`. The
 requesting user is `None` for the anonymous user.
 */
module Permissions {
  import opened Common
  import opened Http
  import opened Schema

  /** `IsAuthorOrReadOnly.has_permission`: reads for everyone, writes for a logged-in user. */
  function HasPermission(m: Method, user: Option<UserId>): (allowed: bool)
    ensures IsSafe(m) ==> allowed
    ensures !IsSafe(m) && user.None? ==> !allowed
    ensures user.Some? ==> allowed
  {
    IsSafe(m) || user.Some?
  }

  /** `IsAuthorOrReadOnly.has_object_permission`: reads for everyone, writes only for the object's author. */
  function HasObjectPermission(m: Method, user: Option<UserId>, author: UserId): (allowed: bool)
    ensures IsSafe(m) ==> allowed
    ensures !IsSafe(m) ==> (allowed <==> user == Some(author))
  {
    IsSafe(m) || user == Some(author)
  }

  /** The framework's `IsAuthenticatedOrReadOnly`, listed first on the recipe views. */
  function AuthenticatedOrReadOnly(m: Method, user: Option<UserId>): (allowed: bool)
    ensures allowed <==> HasPermission(m, user)
  {
    IsSafe(m) || user.Some?
  }

  /** A request on one recipe passes every view-level and object-level check. */
  predicate MayAccessRecipe(m: Method, user: Option<UserId>, recipe: Recipe)
  {
    AuthenticatedOrReadOnly(m, user) && HasPermission(m, user) && HasObjectPermission(m, user, recipe.author)
  }

  /** An authenticated author passes both checks whatever the method. */
  lemma AuthorPassesBoth(m: Method, author: UserId)
    ensures HasPermission(m, Some(author)) && HasObjectPermission(m, Some(author), author)
  {
  }

  /** On a recipe, anyone may read, and only its author may write. */
  lemma RecipeWritesOnlyByAuthor(m: Method, user: Option<UserId>, recipe: Recipe)
    ensures IsSafe(m) ==> MayAccessRecipe(m, user, recipe)
    ensures !IsSafe(m) ==> (MayAccessRecipe(m, user, recipe) <==> user == Some(recipe.author))
  {
  }
}
