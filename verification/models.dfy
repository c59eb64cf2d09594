/** The relational store behind the recipe API: users, reference data
    (ingredients and tags), recipes, and the association tables, with the
    uniqueness and minimum-value rules the schema declares on them. */
module Models {
  import opened Results

  type UserId = int
  type RecipeId = int
  type IngredientId = int
  type TagId = int

  datatype Ingredient = Ingredient(name: string, measurementUnit: string)

  datatype Tag = Tag(name: string, color: string, slug: string)

  datatype Recipe = Recipe(author: UserId, name: string, image: string, text: string, cookingTime: int)

  /** One row of the recipe-ingredient table: `amount` of `ingredient` in `recipe`. */
  datatype RecipeIngredient = RecipeIngredient(recipe: RecipeId, ingredient: IngredientId, amount: int)

  datatype RecipeTag = RecipeTag(recipe: RecipeId, tag: TagId)

  /** One row of a user-to-thing table: a follow (`target` is the followed
      author), a favorite or a shopping-list entry (`target` is the recipe). */
  datatype Link = Link(user: UserId, target: int)

  /** The whole database. Association tables are sequences of rows in the
      order they were inserted, that is, by increasing primary key. */
  datatype Store = Store(
    users: set<UserId>,
    ingredients: map<IngredientId, Ingredient>,
    tags: map<TagId, Tag>,
    recipes: map<RecipeId, Recipe>,
    amounts: seq<RecipeIngredient>,
    recipeTags: seq<RecipeTag>,
    follows: seq<Link>,
    favorites: seq<Link>,
    cart: seq<Link>)

  /** The user a request runs as: the anonymous user, or a stored user with
      the account flags the permission rules read. */
  datatype Requester = Anonymous | Member(id: UserId, isActive: bool, isStaff: bool, isSuperuser: bool)

  /** The outcome of an operation on the store: the reply and the store after it. */
  datatype Transition<E> = Transition(reply: Reply<E>, after: Store)

  /** No two ingredients share both name and measurement unit. */
  ghost predicate IngredientsUnique(ingredients: map<IngredientId, Ingredient>) {
    forall a, b :: a in ingredients && b in ingredients && a != b ==>
      ingredients[a].name != ingredients[b].name
      || ingredients[a].measurementUnit != ingredients[b].measurementUnit
  }

  /** Tag names, colours and slugs are each unique. */
  ghost predicate TagsUnique(tags: map<TagId, Tag>) {
    forall a, b :: a in tags && b in tags && a != b ==>
      tags[a].name != tags[b].name && tags[a].color != tags[b].color && tags[a].slug != tags[b].slug
  }

  /** An author has at most one recipe of a given name; every recipe takes
      at least one minute and belongs to a stored user. */
  ghost predicate RecipesValid(s: Store) {
    && (forall a, b :: a in s.recipes && b in s.recipes && a != b ==>
          s.recipes[a].author != s.recipes[b].author || s.recipes[a].name != s.recipes[b].name)
    && (forall r :: r in s.recipes ==> s.recipes[r].cookingTime >= 1 && s.recipes[r].author in s.users)
  }

  /** Every amount is at least one and refers to a stored recipe and ingredient. */
  ghost predicate AmountsValid(s: Store) {
    forall k :: 0 <= k < |s.amounts| ==>
      s.amounts[k].amount >= 1 && s.amounts[k].recipe in s.recipes && s.amounts[k].ingredient in s.ingredients
  }

  ghost predicate RecipeTagsValid(s: Store) {
    forall k :: 0 <= k < |s.recipeTags| ==> s.recipeTags[k].recipe in s.recipes && s.recipeTags[k].tag in s.tags
  }

  /** No pair occurs twice in a table. */
  predicate NoDup(links: seq<Link>) {
    forall i, j :: 0 <= i < j < |links| ==> links[i] != links[j]
  }

  /** A table of pairs without duplicates whose users exist and whose
      targets are in `targets`. */
  ghost predicate LinksValid(links: seq<Link>, users: set<UserId>, targets: set<int>) {
    NoDup(links) && forall k :: 0 <= k < |links| ==> links[k].user in users && links[k].target in targets
  }

  /** Every rule the schema declares, and every reference pointing at a stored row. */
  ghost predicate Valid(s: Store) {
    && IngredientsUnique(s.ingredients)
    && TagsUnique(s.tags)
    && RecipesValid(s)
    && AmountsValid(s)
    && RecipeTagsValid(s)
    && LinksValid(s.follows, s.users, s.users)
    && LinksValid(s.favorites, s.users, s.recipes.Keys)
    && LinksValid(s.cart, s.users, s.recipes.Keys)
  }

  /** The table without the pair `l`. Under `NoDup` this is deleting the one
      row that holds `l`. */
  function Without(links: seq<Link>, l: Link): (r: seq<Link>)
    ensures l !in r
    ensures forall x :: x != l ==> (x in r <==> x in links)
    ensures |r| <= |links|
    decreases |links|
  {
    if |links| == 0 then []
    else if links[0] == l then Without(links[1..], l)
    else [links[0]] + Without(links[1..], l)
  }

  /** The rows of a table that `keep` accepts, in table order: deleting
      every row matching a filter. */
  function Filter<T(==,!new)>(xs: seq<T>, keep: T -> bool): (r: seq<T>)
    ensures forall x :: x in r <==> x in xs && keep(x)
    ensures |r| <= |xs|
    decreases |xs|
  {
    if |xs| == 0 then []
    else if keep(xs[0]) then [xs[0]] + Filter(xs[1..], keep)
    else Filter(xs[1..], keep)
  }

  /** The key of a cascade delete on a user-to-thing table. */
  function OtherTarget(target: int): Link -> bool {
    (l: Link) => l.target != target
  }

  /** The rows of a table whose target is not `target` (a cascade delete). */
  function WithoutTarget(links: seq<Link>, target: int): seq<Link> {
    Filter(links, OtherTarget(target))
  }

  lemma {:induction false} WithoutAbsent(links: seq<Link>, l: Link)
    requires l !in links
    ensures Without(links, l) == links
    decreases |links|
  {
    if |links| > 0 {
      assert links == [links[0]] + links[1..];
      WithoutAbsent(links[1..], l);
    }
  }

  /** Deleting a row that is present removes exactly that one row. */
  lemma {:induction false} WithoutPresent(links: seq<Link>, l: Link)
    requires NoDup(links) && l in links
    ensures |Without(links, l)| == |links| - 1
    ensures multiset(Without(links, l)) + multiset{l} == multiset(links)
    decreases |links|
  {
    assert links == [links[0]] + links[1..];
    if links[0] == l {
      assert l !in links[1..] by {
        forall k | 0 <= k < |links[1..]|
          ensures links[1..][k] != l
        {
          assert links[1..][k] == links[k + 1];
        }
      }
      WithoutAbsent(links[1..], l);
    } else {
      WithoutPresent(links[1..], l);
    }
  }

  /** Deleting a row that was just appended gives back the table. */
  lemma {:induction false} WithoutAppended(links: seq<Link>, l: Link)
    requires l !in links
    ensures Without(links + [l], l) == links
    decreases |links|
  {
    if |links| == 0 {
      assert ([l])[1..] == [];
    } else {
      assert (links + [l])[1..] == links[1..] + [l];
      assert links == [links[0]] + links[1..];
      WithoutAppended(links[1..], l);
    }
  }

  /** Deleting rows keeps a table free of duplicates. */
  lemma {:induction false} WithoutKeepsNoDup(links: seq<Link>, l: Link)
    requires NoDup(links)
    ensures NoDup(Without(links, l))
    decreases |links|
  {
    if |links| > 0 {
      WithoutKeepsNoDup(links[1..], l);
      if links[0] != l {
        var rest := Without(links[1..], l);
        assert links[0] !in links[1..];
        assert links[0] !in rest;
      }
    }
  }

  /** Filtering a table twice with the same key is filtering it once. */
  lemma {:induction false} FilterTwice<T(!new)>(xs: seq<T>, keep: T -> bool)
    ensures Filter(Filter(xs, keep), keep) == Filter(xs, keep)
    decreases |xs|
  {
    if |xs| > 0 {
      FilterTwice(xs[1..], keep);
    }
  }

  /** Filtering distributes over concatenation. */
  lemma {:induction false} FilterAppend<T(!new)>(a: seq<T>, b: seq<T>, keep: T -> bool)
    ensures Filter(a + b, keep) == Filter(a, keep) + Filter(b, keep)
    decreases |a|
  {
    if |a| == 0 {
      assert a + b == b;
    } else {
      assert (a + b)[1..] == a[1..] + b;
      FilterAppend(a[1..], b, keep);
    }
  }

  /** A filter that rejects every row leaves nothing. */
  lemma {:induction false} FilterNone<T(!new)>(xs: seq<T>, keep: T -> bool)
    requires forall k :: 0 <= k < |xs| ==> !keep(xs[k])
    ensures Filter(xs, keep) == []
    decreases |xs|
  {
    if |xs| > 0 {
      assert forall k :: 0 <= k < |xs[1..]| ==> xs[1..][k] == xs[k + 1];
      FilterNone(xs[1..], keep);
    }
  }

  /** Deleting rows by a filter keeps a table free of duplicates. */
  lemma {:induction false} FilterKeepsNoDup(links: seq<Link>, keep: Link -> bool)
    requires NoDup(links)
    ensures NoDup(Filter(links, keep))
    decreases |links|
  {
    if |links| > 0 {
      FilterKeepsNoDup(links[1..], keep);
      if keep(links[0]) {
        assert links[0] !in links[1..];
      }
    }
  }

  /** Appending an absent pair keeps a table free of duplicates. */
  lemma AppendKeepsNoDup(links: seq<Link>, l: Link)
    requires NoDup(links) && l !in links
    ensures NoDup(links + [l])
  {
  }
}
