/**
 The short-link endpoint of the recipe views: `_base36`, the deterministic slug
 for a recipe id, and `get_link`, which answers 200 with `/s/<slug>/` whether or
 not the recipe exists. `build_absolute_uri` is left out: the model returns
 the path the absolute URI is built from.
 */
module ShortLink {
  import opened Common
  import opened Http
  import opened Schema
  import Numerals

  /** `string.digits + string.ascii_lowercase` */
  const Base36Alphabet: string := "0123456789abcdefghijklmnopqrstuvwxyz"

  lemma Base36AlphabetValid()
    ensures |Base36Alphabet| == 36
    ensures Numerals.ValidAlphabet(Base36Alphabet)
  {
    Numerals.IncreasingValid(Base36Alphabet);
  }

  /** `_base36(num)` for `num >= 0`; a negative `num` never reaches 0 under Python's floor `divmod`. */
  function Base36(num: nat): (s: string)
    ensures |s| > 0
    ensures forall i :: 0 <= i < |s| ==> s[i] in Base36Alphabet
    ensures num > 0 ==> s[0] != '0'
    ensures num == 0 <==> s == "0"
  {
    Base36AlphabetValid();
    Numerals.Encode(num, Base36Alphabet)
  }

  /** Reading a slug back as a base-36 number. */
  function Base36Value(s: string): nat
    requires forall i :: 0 <= i < |s| ==> s[i] in Base36Alphabet
  {
    Numerals.Decode(s, Base36Alphabet)
  }

  /** The slug of `num` reads back as `num`. */
  lemma Base36RoundTrip(num: nat)
    ensures Base36Value(Base36(num)) == num
  {
    Base36AlphabetValid();
    Numerals.DecodeEncode(num, Base36Alphabet);
  }

  /** Distinct ids get distinct slugs. */
  lemma Base36Injective(a: nat, b: nat)
    ensures Base36(a) == Base36(b) <==> a == b
  {
    Base36RoundTrip(a);
    Base36RoundTrip(b);
  }

  /** Every non-empty base-36 string without a leading '0' (and "0" itself) is the slug of its value. */
  lemma Base36Onto(s: string)
    requires forall i :: 0 <= i < |s| ==> s[i] in Base36Alphabet
    requires s == "0" || (|s| > 0 && s[0] != '0')
    ensures Base36(Base36Value(s)) == s
  {
    Base36AlphabetValid();
    Numerals.EncodeDecode(s, Base36Alphabet);
  }

  /** `_base36` as written for a natural `num`, with its `divmod` loop. */
  method Base36Loop(num: nat) returns (s: string)
    ensures s == Base36(num)
  {
    Base36AlphabetValid();
    s := Numerals.EncodeLoop(num, Base36Alphabet);
  }

  /** Python's `divmod(num, 36)` on any integer: floor division, so the remainder is never negative. */
  function DivMod36(num: int): (qr: (int, int))
    ensures 0 <= qr.1 < 36
    ensures num == qr.0 * 36 + qr.1
  {
    (num / 36, num % 36)
  }

  /** `divmod(-1, 36) == (-1, 35)`: the loop variable of `_base36` does not move from -1. */
  lemma MinusOneIsFixedPoint()
    ensures DivMod36(-1) == (-1, 35)
  {
  }

  /**
   The `while num:` loop of `_base36` over any integer, allowed at most `fuel`
   passes: `None` when the loop is still running after them.
   */
  function RunLoop(num: int, res: string, fuel: nat): Option<string>
    decreases fuel
  {
    if num == 0 then Some(Numerals.Reverse(res))
    else if fuel == 0 then None
    else
      var qr := DivMod36(num);
      RunLoop(qr.0, res + [Base36Alphabet[qr.1]], fuel - 1)
  }

  /** `_base36(num)` as written, for any integer `num` and at most `fuel` passes of its loop. */
  function Base36AsWritten(num: int, fuel: nat): Option<string>
  {
    if num == 0 then Some("0") else RunLoop(num, [], fuel)
  }

  /** A negative number stays negative under floor division, so the loop never meets 0. */
  lemma {:induction false} NegativeLoopRuns(num: int, res: string, fuel: nat)
    requires num < 0
    ensures RunLoop(num, res, fuel) == None
    decreases fuel
  {
    if fuel > 0 {
      var qr := DivMod36(num);
      NegativeLoopRuns(qr.0, res + [Base36Alphabet[qr.1]], fuel - 1);
    }
  }

  /** `_base36` of a negative number has not returned after any number of passes. */
  lemma NegativeNeverReturns(num: int, fuel: nat)
    requires num < 0
    ensures Base36AsWritten(num, fuel) == None
  {
    NegativeLoopRuns(num, [], fuel);
  }

  lemma {:induction false} NaturalLoopStops(n: nat, res: string, fuel: nat)
    requires fuel >= n
    ensures RunLoop(n, res, fuel) == Some(Numerals.Digits(n, Base36Alphabet) + Numerals.Reverse(res))
    decreases n
  {
    Base36AlphabetValid();
    if n > 0 {
      var qr := DivMod36(n);
      var c := Base36Alphabet[qr.1];
      Numerals.DivShrinks(n, 36);
      NaturalLoopStops(qr.0, res + [c], fuel - 1);
      Numerals.ReverseSnoc(res, c);
      var dq := Numerals.Digits(qr.0, Base36Alphabet);
      assert Numerals.Digits(n, Base36Alphabet) == dq + [c];
      assert RunLoop(n, res, fuel) == RunLoop(qr.0, res + [c], fuel - 1);
      assert dq + Numerals.Reverse(res + [c]) == dq + [c] + Numerals.Reverse(res);
    } else {
      assert Numerals.Digits(n, Base36Alphabet) + Numerals.Reverse(res) == Numerals.Reverse(res);
    }
  }

  /** For a natural `num` the loop as written stops within `num` passes, with the slug `Base36` describes. */
  lemma NaturalReturnsSlug(num: nat, fuel: nat)
    requires fuel >= num
    ensures Base36AsWritten(num, fuel) == Some(Base36(num))
  {
    if num > 0 {
      Base36AlphabetValid();
      var d := Numerals.Digits(num, Base36Alphabet);
      NaturalLoopStops(num, [], fuel);
      assert d + Numerals.Reverse<char>([]) == d;
      assert Base36(num) == d;
    }
  }

  /** The answer of `get_link`: a status and the short-link path. */
  datatype LinkResponse = LinkResponse(status: int, path: string)

  function LinkPath(short: string): string
  {
    "/s/" + short + "/"
  }

  /** `get_link(pk)`: the stored short URL of an existing recipe, the base-36 slug of `pk` otherwise; always 200. */
  function GetLink(recipes: map<RecipeId, Recipe>, pk: nat): (r: LinkResponse)
    ensures r.status == 200
    ensures pk in recipes ==> r.path == LinkPath(recipes[pk].shortUrl)
    ensures pk !in recipes ==> r.path == LinkPath(Base36(pk))
  {
    var short := if pk in recipes then recipes[pk].shortUrl else Base36(pk);
    LinkResponse(Ok200, LinkPath(short))
  }

  /**
   `get_link` over every integer `pk`: a negative id, for which the source's
   `_base36` never returns, is answered as a missing recipe; every other id
   gets the answer of `GetLink`.
   */
  function GetLinkChecked(recipes: map<RecipeId, Recipe>, pk: int): (r: LinkResponse)
    ensures r.status == Ok200 <==> pk >= 0
    ensures pk < 0 ==> r == LinkResponse(NotFound404, "")
    ensures pk >= 0 && pk in recipes ==> r.path == LinkPath(recipes[pk].shortUrl)
    ensures pk >= 0 && pk !in recipes ==> r.path == LinkPath(Base36(pk))
  {
    if pk < 0 then LinkResponse(NotFound404, "") else GetLink(recipes, pk)
  }

  /** Where the source answers at all (`pk >= 0`), the checked view gives the same answer. */
  lemma GetLinkCheckedAgrees(recipes: map<RecipeId, Recipe>, pk: int, fuel: nat)
    requires pk >= 0 && fuel >= pk
    ensures Base36AsWritten(pk, fuel) == Some(Base36(pk))
    ensures GetLinkChecked(recipes, pk) == GetLink(recipes, pk)
  {
    NaturalReturnsSlug(pk, fuel);
  }

  /** For an id with no recipe the link names the id itself: its slug reads back as the id. */
  lemma MissingRecipeLinkNamesId(recipes: map<RecipeId, Recipe>, pk: nat)
    requires pk !in recipes
    ensures exists slug ::
              && GetLink(recipes, pk).path == LinkPath(slug)
              && (forall i :: 0 <= i < |slug| ==> slug[i] in Base36Alphabet)
              && Base36Value(slug) == pk
  {
    Base36RoundTrip(pk);
    assert GetLink(recipes, pk).path == LinkPath(Base36(pk));
  }

  /** Two missing ids never share a link. */
  lemma MissingRecipeLinksDistinct(recipes: map<RecipeId, Recipe>, a: nat, b: nat)
    requires a !in recipes && b !in recipes && a != b
    ensures GetLink(recipes, a).path != GetLink(recipes, b).path
  {
    Base36Injective(a, b);
    LinkPathInjective(Base36(a), Base36(b));
  }

  lemma LinkPathInjective(x: string, y: string)
    ensures LinkPath(x) == LinkPath(y) ==> x == y
  {
    if LinkPath(x) == LinkPath(y) {
      assert x == LinkPath(x)[3..|LinkPath(x)| - 1];
      assert y == LinkPath(y)[3..|LinkPath(y)| - 1];
    }
  }
}
