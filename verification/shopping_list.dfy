/**
 `download_shopping_cart`: the ingredients of every recipe in the user's cart,
 grouped by (name, measurement unit) with their amounts summed, ordered by
 name, and rendered as two header lines followed by numbered lines.

 The query joins each recipe/ingredient row with the user's cart rows for its
 recipe, so a row counts once per matching cart row; under the cart's
 uniqueness constraint that is once for a recipe in the cart and never for
 any other. The `title()` of a name is a parameter of the model.
 */
module ShoppingList {
  import opened Common
  import opened Schema
  import Strings
  import Numerals
  import Sorting

  /** A (name, measurement unit) pair: what `.values(...)` groups by. */
  type Key = (string, string)

  /** One group of the report with its `Sum('ingredient_recipes__amount')`. */
  datatype Item = Item(name: string, unit: string, total: int)

  function ItemKey(item: Item): Key
  {
    (item.name, item.unit)
  }

  function ItemName(item: Item): string
  {
    item.name
  }

  /** The ingredient row a join row points at, found by primary key. */
  function FindIngredient(ingredients: seq<Ingredient>, id: IngredientId): (r: Option<Ingredient>)
    ensures r.Some? ==> r.value in ingredients && r.value.id == id
    ensures r.None? ==> forall k :: 0 <= k < |ingredients| ==> ingredients[k].id != id
    decreases |ingredients|
  {
    if |ingredients| == 0 then None
    else if ingredients[0].id == id then Some(ingredients[0])
    else FindIngredient(ingredients[1..], id)
  }

  /** The cart of one user: everything the join pairs a recipe/ingredient row with. */
  datatype Cart = Cart(ingredients: seq<Ingredient>, cart: seq<UserRecipe>, user: UserId)

  /** Whether a join row survives the join, and under which key. */
  function RowKey(c: Cart, row: RecipeIngredient): Option<Key>
  {
    match FindIngredient(c.ingredients, row.ingredient)
    case None => None
    case Some(ing) => if JoinCount(c.cart, c.user, row.recipe) > 0 then Some((ing.name, ing.unit)) else None
  }

  /** What one join row adds to its group's sum. */
  function Weight(c: Cart, row: RecipeIngredient): int
  {
    row.amount * JoinCount(c.cart, c.user, row.recipe)
  }

  /** The groups the query yields: the keys of the rows that survive the join. */
  function Keys(c: Cart, rows: seq<RecipeIngredient>): set<Key>
  {
    set row | row in rows && RowKey(c, row).Some? :: RowKey(c, row).value
  }

  /** The reference sum of a group, row by row. */
  function Total(c: Cart, rows: seq<RecipeIngredient>, key: Key): int
    decreases |rows|
  {
    if |rows| == 0 then 0
    else
      var last := rows[|rows| - 1];
      Total(c, rows[..|rows| - 1], key) + (if RowKey(c, last) == Some(key) then Weight(c, last) else 0)
  }

  predicate DistinctKeys(items: seq<Item>)
  {
    forall i, j :: 0 <= i < j < |items| ==> ItemKey(items[i]) != ItemKey(items[j])
  }

  function ItemKeys(items: seq<Item>): set<Key>
  {
    set x | x in items :: ItemKey(x)
  }

  /** The running sum of a group, 0 for a group not seen yet. */
  function Lookup(items: seq<Item>, key: Key): int
    decreases |items|
  {
    if |items| == 0 then 0
    else if ItemKey(items[0]) == key then items[0].total
    else Lookup(items[1..], key)
  }

  lemma ItemKeysCons(head: Item, tail: seq<Item>)
    ensures ItemKeys([head] + tail) == {ItemKey(head)} + ItemKeys(tail)
  {
    var r := [head] + tail;
    assert forall x :: x in r <==> x == head || x in tail;
  }

  /** The tail of a list with distinct keys has distinct keys, none of them the head's. */
  lemma DistinctTail(items: seq<Item>)
    requires DistinctKeys(items) && |items| > 0
    ensures DistinctKeys(items[1..])
    ensures ItemKey(items[0]) !in ItemKeys(items[1..])
    ensures items == [items[0]] + items[1..]
  {
    var tail := items[1..];
    forall i, j | 0 <= i < j < |tail|
      ensures ItemKey(tail[i]) != ItemKey(tail[j])
    {
      assert tail[i] == items[i + 1] && tail[j] == items[j + 1];
    }
    forall x | x in tail
      ensures ItemKey(x) != ItemKey(items[0])
    {
      var i :| 0 <= i < |tail| && tail[i] == x;
      assert items[i + 1] == x;
    }
  }

  /** Adds `w` to the group of `key`, opening the group at the end if it is new. */
  function AddTo(items: seq<Item>, key: Key, w: int): (r: seq<Item>)
    requires DistinctKeys(items)
    ensures DistinctKeys(r)
    ensures ItemKeys(r) == ItemKeys(items) + {key}
    ensures forall k :: Lookup(r, k) == Lookup(items, k) + (if k == key then w else 0)
    decreases |items|
  {
    if |items| == 0 then
      ItemKeysCons(Item(key.0, key.1, w), []);
      [Item(key.0, key.1, w)]
    else
      var tail := items[1..];
      DistinctTail(items);
      ItemKeysCons(items[0], tail);
      if ItemKey(items[0]) == key then
        var head := items[0].(total := items[0].total + w);
        LookupAbsent(tail, key);
        ItemKeysCons(head, tail);
        ConsDistinct(head, tail);
        assert ([head] + tail)[1..] == tail;
        [head] + tail
      else
        var rest := AddTo(tail, key, w);
        ItemKeysCons(items[0], rest);
        ConsDistinct(items[0], rest);
        assert ([items[0]] + rest)[1..] == rest;
        [items[0]] + rest
  }

  lemma ConsDistinct(head: Item, tail: seq<Item>)
    requires DistinctKeys(tail) && ItemKey(head) !in ItemKeys(tail)
    ensures DistinctKeys([head] + tail)
  {
    var r := [head] + tail;
    forall i, j | 0 <= i < j < |r|
      ensures ItemKey(r[i]) != ItemKey(r[j])
    {
      assert r[j] == tail[j - 1];
      assert r[j] in tail;
      if i > 0 {
        assert r[i] == tail[i - 1];
      }
    }
  }

  lemma {:induction false} LookupAbsent(items: seq<Item>, key: Key)
    requires key !in ItemKeys(items)
    ensures Lookup(items, key) == 0
    decreases |items|
  {
    if |items| > 0 {
      assert items[0] in items;
      assert ItemKeys(items[1..]) <= ItemKeys(items) by {
        forall x | x in items[1..]
          ensures x in items
        {
        }
      }
      LookupAbsent(items[1..], key);
    }
  }

  /** The grouping `.values('name', 'measurement_unit').annotate(total=Sum(...))`, in order of first appearance. */
  function Group(c: Cart, rows: seq<RecipeIngredient>): (items: seq<Item>)
    ensures DistinctKeys(items)
    decreases |rows|
  {
    if |rows| == 0 then []
    else
      var last := rows[|rows| - 1];
      var prior := Group(c, rows[..|rows| - 1]);
      match RowKey(c, last)
      case None => prior
      case Some(k) => AddTo(prior, k, Weight(c, last))
  }

  lemma KeysSnoc(c: Cart, rows: seq<RecipeIngredient>)
    requires |rows| > 0
    ensures var last := rows[|rows| - 1];
      Keys(c, rows) == Keys(c, rows[..|rows| - 1]) + (if RowKey(c, last).Some? then {RowKey(c, last).value} else {})
  {
    var last := rows[|rows| - 1];
    assert rows == rows[..|rows| - 1] + [last];
    forall k | k in Keys(c, rows)
      ensures k in Keys(c, rows[..|rows| - 1]) + (if RowKey(c, last).Some? then {RowKey(c, last).value} else {})
    {
      var row :| row in rows && RowKey(c, row).Some? && RowKey(c, row).value == k;
      if row != last {
        assert row in rows[..|rows| - 1];
      }
    }
  }

  /** The grouping has exactly one item per surviving key, and each item carries the reference sum of its group. */
  lemma {:induction false} GroupCorrect(c: Cart, rows: seq<RecipeIngredient>)
    ensures ItemKeys(Group(c, rows)) == Keys(c, rows)
    ensures forall k :: Lookup(Group(c, rows), k) == Total(c, rows, k)
    decreases |rows|
  {
    if |rows| == 0 {
      assert ItemKeys([]) == {};
    } else {
      GroupCorrect(c, rows[..|rows| - 1]);
      KeysSnoc(c, rows);
    }
  }

  lemma {:induction false} LookupFinds(items: seq<Item>, i: nat)
    requires DistinctKeys(items) && i < |items|
    ensures Lookup(items, ItemKey(items[i])) == items[i].total
    decreases |items|
  {
    if i > 0 {
      assert ItemKey(items[0]) != ItemKey(items[i]);
      var tail := items[1..];
      assert DistinctKeys(tail) by {
        forall a, b | 0 <= a < b < |tail|
          ensures ItemKey(tail[a]) != ItemKey(tail[b])
        {
          assert tail[a] == items[a + 1] && tail[b] == items[b + 1];
        }
      }
      LookupFinds(tail, i - 1);
    }
  }

  /** `... .order_by('name')`: the groups, sorted by name. */
  function Products(c: Cart, rows: seq<RecipeIngredient>): (items: seq<Item>)
    ensures Sorting.SortedBy(items, ItemName)
    ensures multiset(items) == multiset(Group(c, rows))
  {
    Sorting.SortBy(Group(c, rows), ItemName)
  }

  lemma PermutationKeepsDistinct(a: seq<Item>, b: seq<Item>)
    requires DistinctKeys(a) && multiset(a) == multiset(b)
    ensures DistinctKeys(b)
    ensures ItemKeys(b) == ItemKeys(a)
    ensures forall i :: 0 <= i < |b| ==> b[i] in a
  {
    assert Sorting.DistinctBy(a, ItemKey);
    Sorting.PermutationKeepsDistinctBy(a, b, ItemKey);
  }

  /**
   The products of a cart: sorted by name, one line per (name, unit) among the
   surviving rows, each with the reference sum of its rows.
   */
  lemma ProductsCorrect(c: Cart, rows: seq<RecipeIngredient>)
    ensures var items := Products(c, rows);
      && Sorting.SortedBy(items, ItemName)
      && DistinctKeys(items)
      && ItemKeys(items) == Keys(c, rows)
      && |items| == |Keys(c, rows)|
      && forall i :: 0 <= i < |items| ==> items[i].total == Total(c, rows, ItemKey(items[i]))
  {
    var g := Group(c, rows);
    var items := Products(c, rows);
    GroupCorrect(c, rows);
    PermutationKeepsDistinct(g, items);
    DistinctKeysCount(items);
    forall i | 0 <= i < |items|
      ensures items[i].total == Total(c, rows, ItemKey(items[i]))
    {
      var j :| 0 <= j < |g| && g[j] == items[i];
      LookupFinds(g, j);
    }
  }

  lemma {:induction false} DistinctKeysCount(items: seq<Item>)
    requires DistinctKeys(items)
    ensures |ItemKeys(items)| == |items|
    decreases |items|
  {
    if |items| > 0 {
      DistinctTail(items);
      DistinctKeysCount(items[1..]);
      ItemKeysCons(items[0], items[1..]);
    }
  }

  /** With the cart's uniqueness constraint, each row in a cart recipe counts once: the plain sum of amounts. */
  function PlainTotal(c: Cart, rows: seq<RecipeIngredient>, key: Key): int
    decreases |rows|
  {
    if |rows| == 0 then 0
    else
      var last := rows[|rows| - 1];
      PlainTotal(c, rows[..|rows| - 1], key) + (if RowKey(c, last) == Some(key) then last.amount else 0)
  }

  lemma {:induction false} UniqueCartTotalIsPlainSum(c: Cart, rows: seq<RecipeIngredient>, key: Key)
    requires NoDuplicates(c.cart)
    ensures Total(c, rows, key) == PlainTotal(c, rows, key)
    decreases |rows|
  {
    if |rows| > 0 {
      var last := rows[|rows| - 1];
      UniqueCartTotalIsPlainSum(c, rows[..|rows| - 1], key);
      if RowKey(c, last) == Some(key) {
        UniqueJoinCountsOnce(c.cart, c.user, last.recipe);
      }
    }
  }

  /** `str(n)` */
  function IntToString(n: int): string
  {
    DecimalDigitsValid();
    if n < 0 then "-" + Numerals.Encode(-n, DecimalDigits) else Numerals.Encode(n, DecimalDigits)
  }

  const Header2: string := "Продукты:"

  function Header1(username: string): string
  {
    "Список покупок для " + username
  }

  /** `f"{idx}. {name.title()} ({unit}) — {total}"` */
  function FormatLine(idx: nat, item: Item, title: string -> string): string
  {
    IntToString(idx) + ". " + title(item.name) + " (" + item.unit + ") — " + IntToString(item.total)
  }

  /** `enumerate(items, start=1)`: `line` applied to each item with its number. */
  function Numbered(items: seq<Item>, line: (nat, Item) -> string): (lines: seq<string>)
    ensures |lines| == |items|
    ensures forall i :: 0 <= i < |items| ==> lines[i] == line(i + 1, items[i])
  {
    seq(|items|, i requires 0 <= i < |items| => line(i + 1, items[i]))
  }

  /** `report_lines`: the two headers, then the items numbered from 1. */
  function ReportLines(username: string, items: seq<Item>, title: string -> string): (lines: seq<string>)
    ensures |lines| == |items| + 2
    ensures lines[0] == Header1(username) && lines[1] == Header2
    ensures forall i :: 0 <= i < |items| ==> lines[i + 2] == FormatLine(i + 1, items[i], title)
  {
    var body := Numbered(items, (idx: nat, item: Item) => FormatLine(idx, item, title));
    var lines := [Header1(username), Header2] + body;
    assert forall i :: 0 <= i < |items| ==> lines[i + 2] == body[i];
    lines
  }

  /** The body of the attachment: the lines joined with newlines. */
  function DownloadShoppingCart(username: string, c: Cart, rows: seq<RecipeIngredient>, title: string -> string)
    : (text: string)
  {
    Strings.Join(ReportLines(username, Products(c, rows), title), "\n")
  }

  /** The report, line by line: headers first, then one numbered, name-ordered line per group with its sum. */
  lemma ReportCorrect(username: string, c: Cart, rows: seq<RecipeIngredient>, title: string -> string)
    ensures var items := Products(c, rows);
      var lines := ReportLines(username, items, title);
      && DownloadShoppingCart(username, c, rows, title) == Strings.Join(lines, "\n")
      && |lines| == 2 + |Keys(c, rows)|
      && lines[0] == Header1(username) && lines[1] == Header2
      && Sorting.SortedBy(items, ItemName)
      && ItemKeys(items) == Keys(c, rows)
      && forall i :: 0 <= i < |items| ==>
           lines[i + 2] == FormatLine(i + 1, items[i], title)
           && items[i].total == Total(c, rows, ItemKey(items[i]))
           && (NoDuplicates(c.cart) ==> items[i].total == PlainTotal(c, rows, ItemKey(items[i])))
  {
    var items := Products(c, rows);
    ProductsCorrect(c, rows);
    if NoDuplicates(c.cart) {
      forall i | 0 <= i < |items|
        ensures items[i].total == PlainTotal(c, rows, ItemKey(items[i]))
      {
        UniqueCartTotalIsPlainSum(c, rows, ItemKey(items[i]));
      }
    }
  }
}
