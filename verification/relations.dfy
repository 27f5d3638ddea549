/**
 The join-table transitions of the views: `_toggle_relation` for favorites and
 the shopping cart, and `subscribe` for follows. Each is a pure function from
 the table before the request to the table after it and the response. A
 duplicate add, a remove of a missing row and a self-follow answer 400 and
 leave the table as it was.
 */
module Relations {
  import opened Common
  import opened Http
  import opened Schema

  /** The `detail` messages of the 400 and 404 answers. */
  datatype Problem =
    | AlreadyFavorited | AlreadyInCart
    | NotFavorited | NotInCart
    | SelfFollow | AlreadyFollowing | NotFollowing
    | NotFound
    | MethodNotAllowed

  /** Which model `_toggle_relation` was called with; it only picks the messages. */
  datatype RelationKind = FavoriteTable | CartTable

  datatype Reply = Reply(status: int, problem: Option<Problem>)

  /** The methods an action declared with `methods=['post', 'delete']` hands to its view. */
  predicate Routed(m: Method)
  {
    m == POST || m == DELETE
  }

  /**
   The framework's answer to a method such an action does not route: OPTIONS
   gets the metadata answer, every other method 405; the view never runs.
   */
  function Unrouted(m: Method): (r: Reply)
    requires !Routed(m)
    ensures r.status == Ok200 <==> m == OPTIONS
    ensures r.status == MethodNotAllowed405 <==> m != OPTIONS
  {
    if m == OPTIONS then Reply(Ok200, None) else Reply(MethodNotAllowed405, Some(MethodNotAllowed))
  }

  /** The table after a request, and the answer to it. */
  datatype Step<T> = Step(table: seq<T>, reply: Reply)

  /** The rows of a table, forgetting order and repetition. */
  function Pairs<T>(table: seq<T>): set<T>
  {
    set x | x in table
  }

  /** `filter(...).delete()`: every row equal to `x` goes, the others stay in order. */
  function RemoveAll<T(==)>(table: seq<T>, x: T): (r: seq<T>)
    ensures Pairs(r) == Pairs(table) - {x}
    ensures |r| <= |table|
    ensures NoDuplicates(table) ==> NoDuplicates(r)
    ensures x !in table ==> r == table
  {
    if |table| == 0 then []
    else
      var rest := RemoveAll(table[1..], x);
      ConsNoDuplicates(table[0], table[1..]);
      assert table == [table[0]] + table[1..];
      if table[0] == x then rest
      else
        ConsNoDuplicates(table[0], rest);
        assert Pairs([table[0]] + rest) == {table[0]} + Pairs(rest);
        [table[0]] + rest
  }

  /** `filter(...).first().delete()`: only the first row equal to `x` goes. */
  function RemoveFirst<T(==)>(table: seq<T>, x: T): (r: seq<T>)
    requires x in table
    ensures |r| == |table| - 1
    ensures multiset(r) == multiset(table) - multiset{x}
  {
    assert table == [table[0]] + table[1..];
    if table[0] == x then table[1..]
    else [table[0]] + RemoveFirst(table[1..], x)
  }

  /** Under the uniqueness constraint, deleting the first match is deleting every match. */
  lemma {:induction false} RemoveFirstIsRemoveAll<T>(table: seq<T>, x: T)
    requires x in table && NoDuplicates(table)
    ensures RemoveFirst(table, x) == RemoveAll(table, x)
    decreases |table|
  {
    if table[0] == x {
      assert x !in table[1..] by {
        forall k | 0 <= k < |table[1..]|
          ensures table[1..][k] != x
        {
          assert table[0] != table[k + 1];
        }
      }
    } else {
      RemoveFirstIsRemoveAll(table[1..], x);
    }
  }

  function AlreadyPresent(kind: RelationKind): Problem
  {
    match kind
    case FavoriteTable => AlreadyFavorited
    case CartTable => AlreadyInCart
  }

  function NotPresent(kind: RelationKind): Problem
  {
    match kind
    case FavoriteTable => NotFavorited
    case CartTable => NotInCart
  }

  lemma AppendKeepsNoDuplicates<T>(table: seq<T>, x: T)
    requires NoDuplicates(table) && x !in table
    ensures NoDuplicates(table + [x])
  {
    var t := table + [x];
    forall i, j | 0 <= i < j < |t|
      ensures t[i] != t[j]
    {
      if j == |table| {
        assert t[i] == table[i];
      } else {
        assert t[i] == table[i] && t[j] == table[j];
      }
    }
  }

  /**
   `_toggle_relation(model, recipe)` for `user`: POST adds the row, any other
   method removes it; the action only routes POST and DELETE here.
   */
  function Toggle(kind: RelationKind, table: seq<UserRecipe>, user: UserId, recipe: RecipeId, m: Method)
    : (s: Step<UserRecipe>)
    ensures var row := UserRecipe(user, recipe);
      && (m == POST && row in table ==> s == Step(table, Reply(BadRequest400, Some(AlreadyPresent(kind)))))
      && (m == POST && row !in table ==>
            s.reply == Reply(Created201, None) && Pairs(s.table) == Pairs(table) + {row}
            && |s.table| == |table| + 1)
      && (m != POST && row !in table ==> s == Step(table, Reply(BadRequest400, Some(NotPresent(kind)))))
      && (m != POST && row in table ==>
            s.reply == Reply(NoContent204, None) && Pairs(s.table) == Pairs(table) - {row})
    ensures NoDuplicates(table) ==> NoDuplicates(s.table)
  {
    var row := UserRecipe(user, recipe);
    var present := row in table;
    if m == POST then
      if present then Step(table, Reply(BadRequest400, Some(AlreadyPresent(kind))))
      else
        assert Pairs(table + [row]) == Pairs(table) + {row};
        assert NoDuplicates(table) ==> NoDuplicates(table + [row]) by {
          if NoDuplicates(table) { AppendKeepsNoDuplicates(table, row); }
        }
        Step(table + [row], Reply(Created201, None))
    else
      if !present then Step(table, Reply(BadRequest400, Some(NotPresent(kind))))
      else Step(RemoveAll(table, row), Reply(NoContent204, None))
  }

  /**
   The `favorite` and `shopping_cart` actions (`methods=['post', 'delete']`): a
   method they do not route is answered by the framework; otherwise
   `get_object` answers 404 for an unknown recipe before the toggle runs.
   */
  function ToggleAction(kind: RelationKind, recipes: set<RecipeId>, table: seq<UserRecipe>,
                        user: UserId, pk: RecipeId, m: Method): (s: Step<UserRecipe>)
    ensures !Routed(m) ==> s.table == table && s.reply.status == (if m == OPTIONS then Ok200 else MethodNotAllowed405)
    ensures Routed(m) && pk !in recipes ==> s == Step(table, Reply(NotFound404, Some(NotFound)))
    ensures Routed(m) && pk in recipes ==> s == Toggle(kind, table, user, pk, m)
  {
    if !Routed(m) then Step(table, Unrouted(m))
    else if pk !in recipes then Step(table, Reply(NotFound404, Some(NotFound)))
    else Toggle(kind, table, user, pk, m)
  }

  /** Adding the same recipe twice: the second POST is refused and changes nothing. */
  lemma AddTwiceRefused(kind: RelationKind, table: seq<UserRecipe>, user: UserId, recipe: RecipeId)
    ensures var first := Toggle(kind, table, user, recipe, POST);
      Toggle(kind, first.table, user, recipe, POST)
        == Step(first.table, Reply(BadRequest400, Some(AlreadyPresent(kind))))
  {
  }

  /** Removing the same recipe twice: the second DELETE is refused and changes nothing. */
  lemma RemoveTwiceRefused(kind: RelationKind, table: seq<UserRecipe>, user: UserId, recipe: RecipeId)
    ensures var first := Toggle(kind, table, user, recipe, DELETE);
      Toggle(kind, first.table, user, recipe, DELETE)
        == Step(first.table, Reply(BadRequest400, Some(NotPresent(kind))))
  {
  }

  lemma {:induction false} RemoveAllAfterAppend<T>(table: seq<T>, x: T)
    requires x !in table
    ensures RemoveAll(table + [x], x) == table
    decreases |table|
  {
    if |table| == 0 {
      assert RemoveAll([x], x) == RemoveAll([x][1..], x);
    } else {
      assert (table + [x])[1..] == table[1..] + [x];
      RemoveAllAfterAppend(table[1..], x);
      assert table == [table[0]] + table[1..];
    }
  }

  /** Adding a recipe that was not there and removing it again restores the table exactly. */
  lemma AddThenRemoveRestores(kind: RelationKind, table: seq<UserRecipe>, user: UserId, recipe: RecipeId)
    requires UserRecipe(user, recipe) !in table
    ensures Toggle(kind, Toggle(kind, table, user, recipe, POST).table, user, recipe, DELETE).table == table
  {
    RemoveAllAfterAppend(table, UserRecipe(user, recipe));
  }

  /** No one follows themselves: the rule the request layer enforces. */
  predicate NoSelfFollow(follows: seq<Follow>)
  {
    forall i :: 0 <= i < |follows| ==> follows[i].user != follows[i].author
  }

  lemma RemoveAllKeepsNoSelfFollow(follows: seq<Follow>, x: Follow)
    requires NoSelfFollow(follows)
    ensures NoSelfFollow(RemoveAll(follows, x))
  {
    var r := RemoveAll(follows, x);
    forall i | 0 <= i < |r|
      ensures r[i].user != r[i].author
    {
      assert r[i] in Pairs(r);
      var k :| 0 <= k < |follows| && follows[k] == r[i];
    }
  }

  /**
   `subscribe` for `user` and the author with id `authorId`: a method other
   than POST and DELETE is answered by the framework; then 404 for an
   unknown author, then on POST a refusal of a self-follow or a duplicate,
   and on DELETE a refusal when there is no such follow; the DELETE removes
   the first matching row.
   */
  function Subscribe(users: set<UserId>, follows: seq<Follow>, user: UserId, authorId: UserId, m: Method)
    : (s: Step<Follow>)
    ensures var row := Follow(user, authorId);
      && (!Routed(m) ==>
            s.table == follows && s.reply.status == (if m == OPTIONS then Ok200 else MethodNotAllowed405))
      && (Routed(m) && authorId !in users ==> s == Step(follows, Reply(NotFound404, Some(NotFound))))
      && (authorId in users && m == POST && user == authorId ==>
            s == Step(follows, Reply(BadRequest400, Some(SelfFollow))))
      && (authorId in users && m == POST && user != authorId && row in follows ==>
            s == Step(follows, Reply(BadRequest400, Some(AlreadyFollowing))))
      && (authorId in users && m == POST && user != authorId && row !in follows ==>
            s.reply == Reply(Created201, None) && Pairs(s.table) == Pairs(follows) + {row})
      && (authorId in users && m == DELETE && row !in follows ==>
            s == Step(follows, Reply(BadRequest400, Some(NotFollowing))))
      && (authorId in users && m == DELETE && row in follows ==>
            && s.reply == Reply(NoContent204, None)
            && |s.table| == |follows| - 1
            && multiset(s.table) == multiset(follows) - multiset{row})
    ensures NoDuplicates(follows) ==> NoDuplicates(s.table)
    ensures authorId in users && NoDuplicates(follows) && m == DELETE ==> Pairs(s.table) == Pairs(follows) - {Follow(user, authorId)}
    ensures NoSelfFollow(follows) ==> NoSelfFollow(s.table)
  {
    var row := Follow(user, authorId);
    if !Routed(m) then Step(follows, Unrouted(m))
    else if authorId !in users then Step(follows, Reply(NotFound404, Some(NotFound)))
    else if m == POST then
      if user == authorId then Step(follows, Reply(BadRequest400, Some(SelfFollow)))
      else if row in follows then Step(follows, Reply(BadRequest400, Some(AlreadyFollowing)))
      else
        assert Pairs(follows + [row]) == Pairs(follows) + {row};
        assert NoDuplicates(follows) ==> NoDuplicates(follows + [row]) by {
          if NoDuplicates(follows) { AppendKeepsNoDuplicates(follows, row); }
        }
        Step(follows + [row], Reply(Created201, None))
    else if row !in follows then Step(follows, Reply(BadRequest400, Some(NotFollowing)))
    else
      assert NoDuplicates(follows) ==> RemoveFirst(follows, row) == RemoveAll(follows, row) by {
        if NoDuplicates(follows) { RemoveFirstIsRemoveAll(follows, row); }
      }
      assert NoSelfFollow(follows) ==> NoSelfFollow(RemoveFirst(follows, row)) by {
        if NoSelfFollow(follows) { RemoveFirstKeepsNoSelfFollow(follows, row); }
      }
      Step(RemoveFirst(follows, row), Reply(NoContent204, None))
  }

  lemma RemoveFirstKeepsNoSelfFollow(follows: seq<Follow>, x: Follow)
    requires x in follows && NoSelfFollow(follows)
    ensures NoSelfFollow(RemoveFirst(follows, x))
  {
    var r := RemoveFirst(follows, x);
    forall i | 0 <= i < |r|
      ensures r[i].user != r[i].author
    {
      assert r[i] in multiset(r);
      assert r[i] in multiset(follows);
      var k :| 0 <= k < |follows| && follows[k] == r[i];
    }
  }

  /** Following the same author twice: the second POST is refused and changes nothing. */
  lemma FollowTwiceRefused(users: set<UserId>, follows: seq<Follow>, user: UserId, authorId: UserId)
    requires authorId in users && user != authorId
    ensures var first := Subscribe(users, follows, user, authorId, POST);
      Subscribe(users, first.table, user, authorId, POST)
        == Step(first.table, Reply(BadRequest400, Some(AlreadyFollowing)))
  {
  }

  /** Under the uniqueness constraint, unsubscribing leaves no follow of that author behind. */
  lemma UnfollowRemovesPair(users: set<UserId>, follows: seq<Follow>, user: UserId, authorId: UserId)
    requires authorId in users && NoDuplicates(follows)
    ensures Follow(user, authorId) !in Subscribe(users, follows, user, authorId, DELETE).table
  {
    var after := Subscribe(users, follows, user, authorId, DELETE).table;
    assert Follow(user, authorId) !in Pairs(after);
  }

  /** Only POST and DELETE write: any other method leaves the favorites, the cart and the follows as they were. */
  lemma UnroutedMethodsChangeNothing(kind: RelationKind, recipes: set<RecipeId>, table: seq<UserRecipe>,
                                     users: set<UserId>, follows: seq<Follow>, user: UserId, id: nat, m: Method)
    requires m != POST && m != DELETE
    ensures ToggleAction(kind, recipes, table, user, id, m).table == table
    ensures Subscribe(users, follows, user, id, m).table == follows
    ensures m != OPTIONS ==> ToggleAction(kind, recipes, table, user, id, m).reply.status == MethodNotAllowed405
    ensures m != OPTIONS ==> Subscribe(users, follows, user, id, m).reply.status == MethodNotAllowed405
  {
  }
}
