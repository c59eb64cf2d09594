/** The relationship toggles: following an author, and putting a recipe
    into one's favorites or shopping cart. Each has an add that refuses a
    pair already present (and, for follows, following oneself) and a delete
    that refuses a pair not present; a refused request changes nothing.
    The membership flags shown on users and recipes read the same tables. */
module Toggles {
  import opened Results
  import opened Models

  datatype FollowError = AuthorNotFound | SelfFollow | AlreadyFollowing | NotFollowing

  /** The two per-user recipe lists, which behave alike. */
  datatype RecipeList = Favorites | ShoppingCart

  datatype ListError = NotSignedIn | RecipeNotFound | AlreadyListed(list: RecipeList) | NotListed(list: RecipeList)

  function Links(s: Store, list: RecipeList): seq<Link> {
    match list
    case Favorites => s.favorites
    case ShoppingCart => s.cart
  }

  /** The store with the table of `list` replaced and every other table kept. */
  function WithLinks(s: Store, list: RecipeList, links: seq<Link>): (t: Store)
    ensures Links(t, list) == links
    ensures t.users == s.users && t.ingredients == s.ingredients && t.tags == s.tags && t.recipes == s.recipes
    ensures t.amounts == s.amounts && t.recipeTags == s.recipeTags && t.follows == s.follows
    ensures list == Favorites ==> t.cart == s.cart
    ensures list == ShoppingCart ==> t.favorites == s.favorites
  {
    match list
    case Favorites => s.(favorites := links)
    case ShoppingCart => s.(cart := links)
  }

  // ---------------------------------------------------------------- follows

  /** `user` subscribes to `author`. */
  function FollowAdd(s: Store, user: UserId, author: UserId): (t: Transition<FollowError>)
    ensures t.reply == Refused(AuthorNotFound) <==> author !in s.users
    ensures t.reply == Refused(SelfFollow) <==> author in s.users && author == user
    ensures t.reply == Refused(AlreadyFollowing) <==> author in s.users && author != user && Link(user, author) in s.follows
    ensures t.reply == Accepted <==> author in s.users && author != user && Link(user, author) !in s.follows
    ensures t.reply.Refused? ==> t.after == s
    ensures t.reply.Accepted? ==> t.after.follows == s.follows + [Link(user, author)]
                                  && t.after == s.(follows := t.after.follows)
  {
    if author !in s.users then Transition(Refused(AuthorNotFound), s)
    else if author == user then Transition(Refused(SelfFollow), s)
    else if Link(user, author) in s.follows then Transition(Refused(AlreadyFollowing), s)
    else Transition(Accepted, s.(follows := s.follows + [Link(user, author)]))
  }

  /** `user` unsubscribes from `author`. */
  function FollowDelete(s: Store, user: UserId, author: UserId): (t: Transition<FollowError>)
    ensures t.reply == Refused(AuthorNotFound) <==> author !in s.users
    ensures t.reply == Refused(NotFollowing) <==> author in s.users && Link(user, author) !in s.follows
    ensures t.reply == Accepted <==> author in s.users && Link(user, author) in s.follows
    ensures t.reply.Refused? ==> t.after == s
    ensures t.reply.Accepted? ==> Link(user, author) !in t.after.follows
                                  && (forall l :: l != Link(user, author) ==> (l in t.after.follows <==> l in s.follows))
                                  && t.after == s.(follows := t.after.follows)
  {
    if author !in s.users then Transition(Refused(AuthorNotFound), s)
    else if Link(user, author) !in s.follows then Transition(Refused(NotFollowing), s)
    else Transition(Accepted, s.(follows := Without(s.follows, Link(user, author))))
  }

  /** Whether the viewer follows `author` (the `is_subscribed` flag). */
  function IsSubscribed(s: Store, viewer: Requester, author: UserId): (b: bool)
    ensures viewer.Anonymous? ==> !b
    ensures viewer.Member? ==> (b <==> Link(viewer.id, author) in s.follows)
  {
    if viewer.Anonymous? then false else Link(viewer.id, author) in s.follows
  }

  // ----------------------------------------------------------- recipe lists

  /** `user` puts `recipe` on `list`. */
  function ListAdd(s: Store, list: RecipeList, user: UserId, recipe: RecipeId): (t: Transition<ListError>)
    ensures t.reply == Refused(RecipeNotFound) <==> recipe !in s.recipes
    ensures t.reply == Refused(AlreadyListed(list)) <==> recipe in s.recipes && Link(user, recipe) in Links(s, list)
    ensures t.reply == Accepted <==> recipe in s.recipes && Link(user, recipe) !in Links(s, list)
    ensures t.reply.Refused? ==> t.after == s
    ensures t.reply.Accepted? ==> t.after == WithLinks(s, list, Links(s, list) + [Link(user, recipe)])
  {
    if recipe !in s.recipes then Transition(Refused(RecipeNotFound), s)
    else if Link(user, recipe) in Links(s, list) then Transition(Refused(AlreadyListed(list)), s)
    else Transition(Accepted, WithLinks(s, list, Links(s, list) + [Link(user, recipe)]))
  }

  /** `user` takes `recipe` off `list`. */
  function ListDelete(s: Store, list: RecipeList, user: UserId, recipe: RecipeId): (t: Transition<ListError>)
    ensures t.reply == Refused(RecipeNotFound) <==> recipe !in s.recipes
    ensures t.reply == Refused(NotListed(list)) <==> recipe in s.recipes && Link(user, recipe) !in Links(s, list)
    ensures t.reply == Accepted <==> recipe in s.recipes && Link(user, recipe) in Links(s, list)
    ensures t.reply.Refused? ==> t.after == s
    ensures t.reply.Accepted? ==> t.after == WithLinks(s, list, Without(Links(s, list), Link(user, recipe)))
  {
    if recipe !in s.recipes then Transition(Refused(RecipeNotFound), s)
    else if Link(user, recipe) !in Links(s, list) then Transition(Refused(NotListed(list)), s)
    else Transition(Accepted, WithLinks(s, list, Without(Links(s, list), Link(user, recipe))))
  }

  /** The add endpoint of a list, open to signed-in users only: an anonymous
      request is refused before the view runs. */
  function ListAddRequest(s: Store, list: RecipeList, requester: Requester, recipe: RecipeId): (t: Transition<ListError>)
    ensures t.reply == Refused(NotSignedIn) <==> requester.Anonymous?
    ensures requester.Anonymous? ==> t.after == s
    ensures requester.Member? ==> t == ListAdd(s, list, requester.id, recipe)
  {
    if requester.Anonymous? then Transition(Refused(NotSignedIn), s) else ListAdd(s, list, requester.id, recipe)
  }

  /** The delete endpoint of a list, open to signed-in users only. */
  function ListDeleteRequest(s: Store, list: RecipeList, requester: Requester, recipe: RecipeId): (t: Transition<ListError>)
    ensures t.reply == Refused(NotSignedIn) <==> requester.Anonymous?
    ensures requester.Anonymous? ==> t.after == s
    ensures requester.Member? ==> t == ListDelete(s, list, requester.id, recipe)
  {
    if requester.Anonymous? then Transition(Refused(NotSignedIn), s) else ListDelete(s, list, requester.id, recipe)
  }

  /** Whether the viewer has `recipe` on `list` (the `is_favorited` and
      `is_in_shopping_cart` flags). */
  function IsListed(s: Store, list: RecipeList, viewer: Requester, recipe: RecipeId): (b: bool)
    ensures viewer.Anonymous? ==> !b
    ensures viewer.Member? ==> (b <==> Link(viewer.id, recipe) in Links(s, list))
  {
    if viewer.Anonymous? then false else Link(viewer.id, recipe) in Links(s, list)
  }

  // ------------------------------------------------------------ properties

  /** Adding a follow and then deleting it restores the store exactly. */
  lemma FollowAddThenDelete(s: Store, user: UserId, author: UserId)
    requires FollowAdd(s, user, author).reply == Accepted
    ensures FollowDelete(FollowAdd(s, user, author).after, user, author).reply == Accepted
    ensures FollowDelete(FollowAdd(s, user, author).after, user, author).after == s
  {
    WithoutAppended(s.follows, Link(user, author));
  }

  /** A successful unfollow removes exactly one row when the table has no duplicates. */
  lemma FollowDeleteRemovesOne(s: Store, user: UserId, author: UserId)
    requires NoDup(s.follows)
    requires FollowDelete(s, user, author).reply == Accepted
    ensures multiset(FollowDelete(s, user, author).after.follows) + multiset{Link(user, author)} == multiset(s.follows)
  {
    WithoutPresent(s.follows, Link(user, author));
  }

  /** Follows keep the store valid, for a requesting user who exists. */
  lemma FollowKeepsValid(s: Store, user: UserId, author: UserId)
    requires Valid(s) && user in s.users
    ensures Valid(FollowAdd(s, user, author).after)
    ensures Valid(FollowDelete(s, user, author).after)
  {
    var l := Link(user, author);
    if FollowAdd(s, user, author).reply == Accepted {
      AppendKeepsNoDup(s.follows, l);
    }
    WithoutKeepsNoDup(s.follows, l);
    var rest := Without(s.follows, l);
    forall k | 0 <= k < |rest|
      ensures rest[k].user in s.users && rest[k].target in s.users
    {
      assert rest[k] in s.follows;
    }
  }

  /** After a follow the flag is set for that pair and no other flag changes;
      after an unfollow it is cleared for that pair and no other flag changes. */
  lemma FollowFlags(s: Store, user: UserId, author: UserId, viewer: Requester, other: UserId)
    ensures (FollowAdd(s, user, author).reply == Accepted && viewer.Member? && viewer.id == user) ==>
              IsSubscribed(FollowAdd(s, user, author).after, viewer, author)
    ensures (FollowDelete(s, user, author).reply == Accepted && viewer.Member? && viewer.id == user) ==>
              !IsSubscribed(FollowDelete(s, user, author).after, viewer, author)
    ensures !(viewer.Member? && viewer.id == user && other == author) ==>
              IsSubscribed(FollowAdd(s, user, author).after, viewer, other) == IsSubscribed(s, viewer, other)
              && IsSubscribed(FollowDelete(s, user, author).after, viewer, other) == IsSubscribed(s, viewer, other)
  {
  }

  /** Adding a recipe to a list and then deleting it restores the store exactly. */
  lemma ListAddThenDelete(s: Store, list: RecipeList, user: UserId, recipe: RecipeId)
    requires ListAdd(s, list, user, recipe).reply == Accepted
    ensures ListDelete(ListAdd(s, list, user, recipe).after, list, user, recipe).reply == Accepted
    ensures ListDelete(ListAdd(s, list, user, recipe).after, list, user, recipe).after == s
  {
    WithoutAppended(Links(s, list), Link(user, recipe));
  }

  /** Through the endpoints: an accepted add is by a signed-in user, the same
      user's delete is then accepted and restores the store, and the flag that
      user sees is set in between. */
  lemma ListRequestRoundTrip(s: Store, list: RecipeList, requester: Requester, recipe: RecipeId)
    requires ListAddRequest(s, list, requester, recipe).reply == Accepted
    ensures requester.Member?
    ensures IsListed(ListAddRequest(s, list, requester, recipe).after, list, requester, recipe)
    ensures ListDeleteRequest(ListAddRequest(s, list, requester, recipe).after, list, requester, recipe).reply == Accepted
    ensures ListDeleteRequest(ListAddRequest(s, list, requester, recipe).after, list, requester, recipe).after == s
  {
    ListAddThenDelete(s, list, requester.id, recipe);
  }

  /** A successful delete from a list removes exactly one row when the table has no duplicates. */
  lemma ListDeleteRemovesOne(s: Store, list: RecipeList, user: UserId, recipe: RecipeId)
    requires NoDup(Links(s, list))
    requires ListDelete(s, list, user, recipe).reply == Accepted
    ensures multiset(Links(ListDelete(s, list, user, recipe).after, list)) + multiset{Link(user, recipe)}
            == multiset(Links(s, list))
  {
    WithoutPresent(Links(s, list), Link(user, recipe));
  }

  /** The list toggles keep the store valid, for a requesting user who exists. */
  lemma ListKeepsValid(s: Store, list: RecipeList, user: UserId, recipe: RecipeId)
    requires Valid(s) && user in s.users
    ensures Valid(ListAdd(s, list, user, recipe).after)
    ensures Valid(ListDelete(s, list, user, recipe).after)
  {
    var l := Link(user, recipe);
    var links := Links(s, list);
    if ListAdd(s, list, user, recipe).reply == Accepted {
      AppendKeepsNoDup(links, l);
    }
    WithoutKeepsNoDup(links, l);
    var rest := Without(links, l);
    forall k | 0 <= k < |rest|
      ensures rest[k].user in s.users && rest[k].target in s.recipes
    {
      assert rest[k] in links;
    }
  }

  /** After an add the flag is set for that pair and no other flag changes,
      on either list; after a delete it is cleared for that pair alone. */
  lemma ListFlags(s: Store, list: RecipeList, user: UserId, recipe: RecipeId,
                  viewer: Requester, which: RecipeList, other: RecipeId)
    ensures (ListAdd(s, list, user, recipe).reply == Accepted && viewer.Member? && viewer.id == user) ==>
              IsListed(ListAdd(s, list, user, recipe).after, list, viewer, recipe)
    ensures (ListDelete(s, list, user, recipe).reply == Accepted && viewer.Member? && viewer.id == user) ==>
              !IsListed(ListDelete(s, list, user, recipe).after, list, viewer, recipe)
    ensures !(viewer.Member? && viewer.id == user && which == list && other == recipe) ==>
              IsListed(ListAdd(s, list, user, recipe).after, which, viewer, other) == IsListed(s, which, viewer, other)
              && IsListed(ListDelete(s, list, user, recipe).after, which, viewer, other) == IsListed(s, which, viewer, other)
  {
  }
}
