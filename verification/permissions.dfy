/** The recipe endpoints' permission class: anyone may read, except that
    the favorites and shopping-cart filters need a signed-in user; only the
    author, staff or a superuser, on an active account, may change a recipe.
    Which methods are "safe" (read-only) is the framework's definition and
    is taken here as the parameter `safe`. */
module Permissions {
  import opened Models

  /** The query parameters that filter by the requester's own lists. */
  const FavoritedParam: string := "is_favorited"
  const CartParam: string := "is_in_shopping_cart"

  /** An HTTP request as the permission rules see it: its method (`verb`), the
      keys of its query parameters, and who sends it. */
  datatype Request = Request(verb: string, queryKeys: set<string>, requester: Requester)

  predicate IsAuthenticated(r: Requester) {
    r.Member?
  }

  /** The request-level check, made before the view runs. */
  function HasPermission(safe: set<string>, req: Request): (allowed: bool)
    ensures req.verb in safe && FavoritedParam !in req.queryKeys && CartParam !in req.queryKeys ==> allowed
    ensures IsAuthenticated(req.requester) ==> allowed
    ensures (!IsAuthenticated(req.requester)
             && (req.verb !in safe || FavoritedParam in req.queryKeys || CartParam in req.queryKeys)) ==> !allowed
  {
    (req.verb in safe && FavoritedParam !in req.queryKeys && CartParam !in req.queryKeys)
    || IsAuthenticated(req.requester)
  }

  /** The object-level check on a recipe written by `author`, made once the recipe is found. */
  function HasObjectPermission(safe: set<string>, req: Request, author: UserId): (allowed: bool)
    ensures req.verb in safe ==> allowed
    ensures req.verb !in safe ==>
              (allowed <==> req.requester.Member? && req.requester.isActive
                            && (req.requester.id == author || req.requester.isStaff || req.requester.isSuperuser))
    ensures req.requester.Member? && !req.requester.isActive && req.verb !in safe ==> !allowed
  {
    req.verb in safe
    || (IsAuthenticated(req.requester) && req.requester.isActive
        && (author == req.requester.id || req.requester.isStaff || req.requester.isSuperuser))
  }
}
