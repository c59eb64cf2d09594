# foodgram backend: a Dafny model of its recipe rules

foodgram is a recipe-sharing service. Its Django backend stores users, ingredients, tags and recipes. It also keeps three user-to-thing tables: follows (user to author), favorites and the shopping cart (user to recipe). This project models the rules that sit between the database and the HTTP layer. Each is a pure function over an immutable store:

- the relational store and the uniqueness and minimum-value rules its schema declares (`Models`);
- the recipe endpoint's permission class (`Permissions`);
- the guarded add and delete of follows, favorites and cart entries, and the membership flags the serializers show (`Toggles`);
- recipe submission checks, creation, replace-on-update of a recipe's ingredient and tag rows, and deletion with its cascade (`RecipeWrite`);
- the base64 data-URI image field (`ImageField`, on top of Python-style `split` in `Text`);
- the whitespace trimming and blank check the generated serializer fields apply to a recipe's name and text (`strip` in `Text`);
- the shopping-list download, which folds the cart's ingredient rows into a table keyed by ingredient name and writes one text line per name (`ShoppingList`).

An operation on the store returns a `Transition`: the reply (`Accepted` or `Refused(error)`) and the store afterwards. Association tables are sequences of rows in insertion order. This keeps "no duplicate pair" a real invariant (`NoDup`) instead of something a set would give for free. Deleting a pair filters it out; under `NoDup` that removes exactly one row.

The shopping list is keyed by ingredient **name alone** (backend/api/views.py:69). Two ingredients with the same name and different units fold into one line. That line carries the unit of the first row read and the sum of all amounts. Rows are read newest first, since the ingredient-row table is ordered by descending id. The fold is `ShoppingList.Aggregate`, built one item at a time by `ShoppingList.Insert`; `ShoppingList.Render` writes the lines and `ShoppingList.DownloadShoppingCart` composes query, fold and text. What these four compute is stated by the lemmas `InsertStep`, `AggregateFolds`, `RenderLines` and `DownloadMeaning` in the table below.

Parameters replace what the model cannot see:
- the framework's set of safe HTTP methods is the parameter `safe`;
- the primary key the database hands a new recipe is the parameter `newId`;
- the requesting user is a `Requester` record.

## Model

| member | source | states |
|---|---|---|
| Models.Without | backend/api/views.py:145 | deleting a pair leaves every other pair's membership unchanged and the pair absent |
| Models.WithoutPresent | backend/recipes/models.py:142-143 | in a table without duplicates, deleting a present pair removes exactly one row: the length drops by one and the multiset loses exactly that pair |
| Models.WithoutAppended | backend/api/views.py:130 | deleting a pair that was just appended gives back the original table |
| Models.WithoutKeepsNoDup | backend/recipes/models.py:184-185 | deleting rows keeps a table free of duplicate pairs |
| Models.Filter | backend/api/serializers.py:171-172 | deleting by a filter keeps exactly the rows the key accepts, and never lengthens the table |
| Models.FilterAppend | backend/api/serializers.py:171-181 | the filter distributes over concatenation, so deleting a recipe's old rows and appending new ones act on separate parts of the table |
| Models.FilterTwice | backend/api/serializers.py:171 | filtering twice with one key is filtering once |
| Models.FilterNone | backend/api/serializers.py:171 | a filter that rejects every row leaves nothing |
| Models.FilterKeepsNoDup | backend/recipes/models.py:163-164 | the cascade filter keeps a table free of duplicate pairs |
| Permissions.HasPermission | backend/api/permissions.py:6-10 | a safe method without `is_favorited` or `is_in_shopping_cart` is allowed for anyone; any authenticated user is allowed; an anonymous request with an unsafe method or either parameter is denied |
| Permissions.HasObjectPermission | backend/api/permissions.py:12-19 | safe methods are always allowed; otherwise allowed exactly when the user is authenticated, active, and the author, staff or a superuser; an inactive user is denied |
| Toggles.WithLinks | backend/api/views.py:160 | replacing one list's table leaves every other table of the store as it was |
| Toggles.FollowAdd | backend/api/views.py:117-135 | a missing author, following oneself and an existing follow are each refused exactly when they apply, in that order, and leave the store unchanged; otherwise exactly that pair is appended and nothing else changes |
| Toggles.FollowDelete | backend/api/views.py:137-146 | a missing author or an absent pair is refused and changes nothing; otherwise the pair is gone, every other pair keeps its membership, and nothing else changes |
| Toggles.IsSubscribed | backend/api/serializers.py:29-33 | false for an anonymous viewer; otherwise true exactly when the viewer follows the author |
| Toggles.ListAdd | backend/api/views.py:152-165 | a missing recipe or a pair already on the list is refused and changes nothing; otherwise the pair is appended to that list and every other table is kept |
| Toggles.ListDelete | backend/api/views.py:197-206 | a missing recipe or a pair not on the list is refused and changes nothing; otherwise the pair is removed from that list alone |
| Toggles.ListAddRequest | backend/api/views.py:149-165 | an anonymous request is refused before the view runs and changes nothing; a signed-in user's request is the add for that user |
| Toggles.ListDeleteRequest | backend/api/views.py:179-206 | an anonymous request is refused before the view runs and changes nothing; a signed-in user's request is the delete for that user |
| Toggles.ListRequestRoundTrip | backend/api/views.py:149-205 | an add accepted by the endpoint came from a signed-in user, who then sees the flag set, and whose delete is accepted and restores the store |
| Toggles.IsListed | backend/api/serializers.py:84-94 | false for an anonymous viewer; otherwise true exactly when the pair is on that list |
| Toggles.FollowAddThenDelete | backend/api/views.py:130-145 | a follow that was accepted can be deleted, and deleting it restores the store exactly |
| Toggles.FollowDeleteRemovesOne | backend/api/views.py:145 | an accepted unfollow on a duplicate-free table removes exactly one row, the one for that pair |
| Toggles.FollowKeepsValid | backend/recipes/models.py:142-143 | follow and unfollow by a stored user keep every schema invariant, in particular no duplicate follow |
| Toggles.FollowFlags | backend/api/serializers.py:218-222 | after an accepted follow the follower sees `is_subscribed` set for that author; after an accepted unfollow it is cleared; every other viewer/author flag is unchanged |
| Toggles.ListAddThenDelete | backend/api/views.py:182-205 | adding a recipe to a list and then deleting it is accepted and restores the store exactly |
| Toggles.ListDeleteRemovesOne | backend/api/views.py:175 | an accepted delete from a duplicate-free list removes exactly one row, the one for that pair |
| Toggles.ListKeepsValid | backend/recipes/models.py:163-164 | favorite and cart add/delete by a stored user keep every schema invariant, in particular no duplicate pair |
| Toggles.ListFlags | backend/api/serializers.py:84-94 | after an accepted add the flag is set for that viewer and recipe; after an accepted delete it is cleared; every other flag, on either list, is unchanged |
| RecipeWrite.CheckIngredients | backend/api/serializers.py:123-132 | from a position on, an error is reported exactly when some ingredient is faulty; the first faulty one decides, and it is a duplicate id before a low amount |
| RecipeWrite.HasRepeatedTag | backend/api/serializers.py:138-143 | true exactly when some tag from the position on repeats an earlier tag |
| RecipeWrite.NoFaultIffDistinct | backend/api/serializers.py:123-132 | no ingredient is faulty exactly when the ids are pairwise distinct and every amount is at least one |
| RecipeWrite.NoRepeatIffDistinct | backend/api/serializers.py:138-143 | no tag repeats an earlier one exactly when the tags are pairwise distinct |
| RecipeWrite.Validate | backend/api/serializers.py:118-144 | each of the five errors is reported exactly when its rule is the first one broken, in the code's order (empty ingredients, then the first faulty ingredient, then empty tags, then a repeated tag); an accepted submission comes back unchanged |
| RecipeWrite.AmountsOfOwnRows | backend/api/serializers.py:153-158 | the rows written for a submission read back as exactly its `(ingredient, amount)` list, in order, hold nothing for any other recipe, and are all removed by deleting that recipe's rows |
| RecipeWrite.AmountsDropped | backend/api/serializers.py:171 | after deleting a recipe's ingredient rows none of its rows is left, and deleting again changes nothing |
| RecipeWrite.TagsDropped | backend/api/serializers.py:172 | after deleting a recipe's tag rows none of its rows is left, and deleting again changes nothing |
| RecipeWrite.TagByName | backend/api/serializers.py:161 | a tag is found exactly when one and only one stored tag has that name, and it is that tag |
| RecipeWrite.TagRows | backend/api/serializers.py:160-162 | the tag rows are produced exactly when every tag's name finds exactly one tag; then there is one row per submitted tag, in order |
| RecipeWrite.TagByNameFindsTag | backend/recipes/models.py:25 | with unique tag names, looking a stored tag up by its own name finds that tag |
| RecipeWrite.TagRowsExact | backend/api/serializers.py:183-185 | with unique tag names and stored tags, the rows are produced and hold exactly the submitted tags, in order |
| RecipeWrite.CreateRecipe | backend/api/serializers.py:107-163 | a field-level failure (blank name or text, an image the image field refuses, an unknown ingredient or tag, a cooking time below one), a failed `validate`, a name the author already uses once trimmed, and a failed tag lookup are refused and change nothing; an accepted create stores the recipe with its name and text trimmed and appends rows, leaving existing rows and every other table as they were |
| RecipeWrite.UpdateRecipe | backend/api/serializers.py:170-187 | a missing recipe, a field-level failure (as for a create) and a failed `validate` are refused and change nothing; an accepted update rewrites only that recipe's fields, with name and text trimmed, keeps the author, and touches no other recipe or table |
| RecipeWrite.ImageAcceptedIff | backend/api/serializers.py:12-18 | the field-level image check holds exactly when `to_internal_value` turns the string into a file, which is exactly when it starts with `data:image` and holds `;base64,` once |
| RecipeWrite.BlankRefused | backend/recipes/models.py:47-49 | a name or text that is empty or only whitespace fails the field-level checks |
| RecipeWrite.ValidateIgnoresText | backend/api/serializers.py:118-144 | `validate` decides the trimmed submission as it decides the one sent, with the same error, and hands the trimmed one on |
| RecipeWrite.CreateIgnoresPadding | backend/recipes/models.py:47 | a name sent with whitespace around it gives exactly the create of the bare name, so it clashes with a recipe of that name |
| RecipeWrite.PutRecipeKeepsValid | backend/recipes/models.py:57-70 | storing a recipe whose author has no other recipe of its name, that takes at least a minute and has a stored author keeps the recipe table valid |
| RecipeWrite.RewriteKeepsValid | backend/recipes/models.py:76-115 | a store that differs from a valid one only in its recipe and row tables, keeps every recipe id and has those tables valid is valid |
| RecipeWrite.DeleteRecipe | backend/recipes/models.py:77-80 | the recipe is gone, and with it every ingredient row, tag row, favorite and cart entry that refers to it; the rows of every other recipe are the same rows in the same count and order, and the other tables are kept |
| RecipeWrite.PatchRecipe | backend/api/permissions.py:6-19 | for an unsafe method: failing the request-level check is refused as unauthenticated, then a missing recipe as not found, then failing the object-level check as forbidden; passing all three is exactly the update; a refused request changes nothing |
| RecipeWrite.DestroyRecipe | backend/api/permissions.py:6-19 | for an unsafe method: refused as unauthenticated, not found or forbidden, in that order; accepted exactly when both permission checks pass and the recipe exists, and then it is the cascading delete |
| RecipeWrite.CreateWritesRows | backend/api/serializers.py:151-162 | after a create, the new recipe's rows are exactly the submitted ingredient list and tag list, and every other recipe's rows are as before |
| RecipeWrite.UpdateReplacesRows | backend/api/serializers.py:171-185 | after an update, the recipe's ingredient rows are exactly the submitted list and its tag rows exactly the submitted tags, with no old row left; every other recipe's rows are untouched |
| RecipeWrite.UpdateKeepsIngredientsDistinct | backend/api/serializers.py:123-132 | after an update the recipe lists no ingredient twice and every amount is at least one |
| RecipeWrite.CreateKeepsValid | backend/recipes/models.py:57-93 | a create by a stored user keeps every schema invariant: unique (author, name), cooking time and amounts at least one, every reference resolving |
| RecipeWrite.UpdateKeepsValid | backend/recipes/models.py:57-93 | an update keeps every schema invariant |
| RecipeWrite.CreateKeepsRecipesValid | backend/recipes/models.py:57-70 | after an accepted create no author has two recipes of one name and every recipe takes at least a minute and has a stored author; only the recipe and row tables changed |
| RecipeWrite.CreateKeepsAmountsValid | backend/recipes/models.py:76-93 | after an accepted create every ingredient row has an amount of at least one and points at a stored recipe and ingredient |
| RecipeWrite.CreateKeepsRecipeTagsValid | backend/recipes/models.py:104-115 | after an accepted create every tag row points at a stored recipe and tag |
| RecipeWrite.UpdateKeepsRecipesValid | backend/recipes/models.py:57-70 | after an accepted update no author has two recipes of one name and every recipe keeps its minimum time and stored author; only the recipe and row tables changed |
| RecipeWrite.UpdateKeepsAmountsValid | backend/recipes/models.py:76-93 | after an accepted update every ingredient row has an amount of at least one and points at a stored recipe and ingredient |
| RecipeWrite.UpdateKeepsRecipeTagsValid | backend/recipes/models.py:104-115 | after an accepted update every tag row points at a stored recipe and tag |
| RecipeWrite.DeleteKeepsValid | backend/recipes/models.py:174-185 | deleting a recipe keeps every schema invariant, including no dangling favorite or cart entry |
| RecipeWrite.DeleteKeepsAmountsValid | backend/recipes/models.py:76-93 | after the cascade every ingredient row still has an amount of at least one and points at a stored recipe and ingredient |
| RecipeWrite.DeleteKeepsRecipeTagsValid | backend/recipes/models.py:104-115 | after the cascade every tag row points at a stored recipe and tag |
| RecipeWrite.FilterKeepsLinksValid | backend/recipes/models.py:174-185 | dropping the entries for a deleted recipe keeps a user-to-recipe table free of duplicates and pointing only at the remaining recipes |
| RecipeWrite.ChangeNeedsOwnerOrAdmin | backend/api/permissions.py:15-18 | an accepted unsafe update or delete comes from an active user who is the author, staff or a superuser |
| Text.IndexOf | backend/api/serializers.py:15 | the result is the first position at or after the start where the separator occurs, and none means it does not occur there |
| Text.Split | backend/api/serializers.py:15-16 | the pieces joined back with the separator give the string, there is at least one piece, and no piece contains the separator |
| Text.JoinLast | backend/api/serializers.py:16 | a single piece joins to itself; more pieces join to the join of all but the last, the separator, then the last piece (`[-1]`) |
| Text.SplitSingle | backend/api/serializers.py:15 | the split has one piece exactly when the separator does not occur |
| Text.SplitAfterHead | backend/api/serializers.py:15 | a piece free of the separator, the separator, and a rest split into that piece followed by the rest's pieces |
| Text.NatToStringDigits | backend/api/views.py:79 | `str` of a non-negative number is decimal digits without a leading zero that read back as the number |
| Text.IntToStringRoundTrip | backend/api/views.py:79 | reading back `str(n)` gives `n` for every integer, and `str(n)` consists of a sign and digits only |
| Text.NegativeRoundTrip | backend/api/views.py:79 | for a negative number, `str` is a minus sign and the digits of its magnitude, and reads back as the number |
| Text.StripLeft | backend/recipes/models.py:47 | the result is a suffix of the input, everything dropped is whitespace, and it does not start with whitespace |
| Text.StripRight | backend/recipes/models.py:47 | the result is a prefix of the input, everything dropped is whitespace, and it does not end with whitespace |
| Text.Strip | backend/recipes/models.py:47-49 | the result neither starts nor ends with whitespace, and it is empty exactly when the input is blank (all whitespace) |
| Text.StripSplit | backend/recipes/models.py:47-49 | every string is whitespace, its stripped form, then whitespace |
| Text.StripPadded | backend/recipes/models.py:47-49 | whitespace around a string that neither starts nor ends with whitespace is stripped off exactly |
| Text.StripTwice | backend/recipes/models.py:47-49 | stripping twice is stripping once |
| Text.StripIgnoresPadding | backend/recipes/models.py:47-49 | extra whitespace on either side does not change the stripped form |
| ImageField.Extension | backend/api/serializers.py:16 | the extension is the suffix of the header after its last "/", or the whole header when it has none, and contains no "/" |
| ImageField.ToInternalValue | backend/api/serializers.py:13-18 | anything but a string starting with `data:image` is passed on unchanged; such a string succeeds exactly when `;base64,` occurs once, becoming a file named `temp.` plus the header's extension that holds the text after the marker; otherwise unpacking fails |
| ImageField.MarkerCount | backend/api/serializers.py:15 | unpacking into two pieces succeeds exactly when the marker occurs once, and the pieces are then the header and the payload |
| ImageField.SplitOfDataUri | backend/api/serializers.py:15 | a header and payload free of the marker, joined by it, split back into exactly those two |
| ImageField.HeaderKeepsPrefix | backend/api/serializers.py:14-15 | the header of a string starting with `data:image` also starts with it |
| ImageField.InlineFileRoundTrip | backend/api/serializers.py:14-17 | building `header;base64,payload` and reading it back gives the payload and the name `temp.<ext>` of that header |
| ShoppingList.Joined | backend/api/views.py:65-67 | every ingredient row of a recipe in the user's cart gives an item, and every item comes from such a row |
| ShoppingList.JoinedAppend | backend/api/views.py:65-67 | the query distributes over the table: the rows of `a + b` give the items of `a` followed by those of `b`, so each matching row counts once, in table order |
| ShoppingList.JoinedOne | backend/api/views.py:65-67 | one row gives its item exactly once when its recipe is in the user's cart, and nothing otherwise |
| ShoppingList.CartItems | backend/api/views.py:65-67 | what the query yields contains every joined row of the user's cart and nothing else |
| ShoppingList.CartItemsNewestFirst | backend/recipes/models.py:98 | a row added last to the table comes first in the query, followed by the older rows in their previous order (ordering by descending id) |
| ShoppingList.JoinedWithoutRecipe | backend/recipes/models.py:77-80 | for a user without recipe `id` in the cart, dropping that recipe's rows and cart entries leaves the query's items, their count and their order unchanged |
| ShoppingList.DeleteKeepsDownload | backend/api/views.py:64-79 | deleting a recipe that is not in a user's cart leaves that user's query and downloaded text unchanged |
| ShoppingList.FirstIndex | backend/api/views.py:69 | the position of the first item with that name |
| ShoppingList.Find | backend/api/views.py:69 | finds the entry keyed by the name, or reports that there is none |
| ShoppingList.AggregateFolds | backend/api/views.py:64-75 | the folded table has one entry per distinct name and an entry for every name in the input; each entry has the unit of that name's first item and the sum of that name's amounts; entries are in order of the names' first occurrence |
| ShoppingList.InsertStep | backend/api/views.py:68-75 | inserting the next item into the table of a prefix gives the table of the longer prefix |
| ShoppingList.InsertExisting | backend/api/views.py:74-75 | an item whose name has an entry adds its amount there, ignoring its unit |
| ShoppingList.InsertNew | backend/api/views.py:69-73 | an item with a new name opens an entry at the end with its own unit and amount |
| ShoppingList.RenderLines | backend/api/views.py:76-79 | with names and units free of newlines, the text splits at newlines into exactly one `name (unit) - amount` line per entry, in order, and nothing after the last newline |
| ShoppingList.Download | backend/api/views.py:61-63 | an anonymous request is refused; a signed-in user gets the text of their own cart |
| ShoppingList.DownloadMeaning | backend/api/views.py:64-79 | on a valid store, the download renders the folded table of the user's cart rows, every total is at least one, and the names listed are exactly the cart's names |
| ShoppingList.SumForPositive | backend/recipes/models.py:89-93 | a name that occurs among rows whose amounts are all at least one totals at least one |
| ShoppingList.FoldTwoOfOneName | backend/api/views.py:69-75 | two rows of one name fold into a single entry with the first row's unit and the sum of both amounts |
| ShoppingList.SameUnitExample | backend/api/views.py:68-79 | two rows of flour in grams, 100 and 50, give the single line `Flour (g) - 150` |
| ShoppingList.MixedUnitExample | backend/api/views.py:69-75 | salt in grams (5) then in kilograms (1) gives `Salt (g) - 6`: the later unit is ignored and its amount still added |
| ShoppingList.TwoRecipesSameItemExample | backend/api/views.py:65-79 | two recipes in the cart that each need 5 g of salt give that item twice, and the download reads `Salt (g) - 10` |
| ShoppingList.EmptyCartEmptyText | backend/api/views.py:76 | a user with nothing in the cart downloads an empty text |

## Left out

- Recipe list filtering in `RecipeViewSet.get_queryset` (backend/api/views.py:24-54) is not modelled. Its meaning rests on the ORM: slicing before filtering, `tags__in` without `distinct`, and `name__in` compared against model objects.
- Writing and re-reading `shopping_list.txt` and building the `HttpResponse` are file I/O and are left out. Only the text value is modelled.
- `base64.b64decode`, `ContentFile` and the framework's own image validation (`super().to_internal_value`) are library calls. The payload is kept as base64 text, and a bad payload's decoding error is not modelled.
- HTTP status codes, `Response` bodies, `get_object_or_404` and the djoser serializers are framework plumbing. Each refusal is a `Refused(error)` reply instead.
- The framework's `SAFE_METHODS` set is the parameter `safe`.
- The upper bound of 32000 on amounts and cooking time appears only in a migration, not in the models or serializers. It is not part of the invariant.
- `CharField` maximum lengths, `pub_date` and the recipe ordering by it are left out. They are not read by any modelled rule.
- RecipeWrite.FieldsValid: of the checks the generated name and text fields run, only trimming and the blank check are modelled. The maximum length of the name and the refusal of null characters are not. Whitespace is the set of characters Python's `str.isspace` accepts.
- RecipeWrite.ImageAccepted: a string is accepted when the data-URI split succeeds. Whether the payload is valid base64 and a readable image is decided by library code and is not modelled, as the image line above says. An upload that is not a string is outside the model: `image` is always a string.
- The check-then-act race between an existence check and `create` is left out, because it is about concurrency. Each operation is one atomic step.
- Partial `PATCH` bodies that omit fields are not modelled. The code's `len(None)` on missing ingredients or tags is one such case. A submission always carries every field.
- RecipeWrite.UpdateRecipe: a name clash with another recipe of the same author, or a failed tag lookup, is refused with the store unchanged. The code has already deleted the old rows at that point. Whether those deletions survive depends on the database's transaction settings, which are not part of this model. The model also checks the name before it looks tags up, while the code looks tags up (backend/api/serializers.py:184) before saving (:187); the two orders give different refusals only when a tag lookup fails.
- RecipeWrite.CreateRecipe: the new recipe's key is the parameter `newId`, required to be unused, because the database chooses it.
- RecipeWrite.CreateRecipe: a failed lookup of a tag by name is refused with the store unchanged. The code has by then created the recipe and its ingredient rows (backend/api/serializers.py:151-158) before it looks tags up (:161), so it would leave a partial write. On a valid store the lookup cannot fail, since tag names are unique (`TagRowsExact`).
- RecipeWrite.PatchRecipe: the same failed tag lookup on update is refused without change, and cannot happen on a valid store either.
- The SQL join would list a recipe's rows twice if the cart held the same pair twice. The unique constraint on the cart rules that out, so the model reads cart membership.
- Deleting users, ingredients and tags, and their cascades, is not modelled. No modelled endpoint deletes them.
- `FollowViewSet`, the `recipes_limit` and `limit` slicing, the admin classes, URL routing, migrations and the CSV import command are declarative or plumbing.
- The follow endpoints declare no permission class of their own, so the project default applies; the requesting user is taken as a stored user.
- RecipeWrite.PatchRecipe: `RecipeNotFound` models looking the recipe up by id alone. The framework looks it up through `get_queryset` (backend/api/views.py:24-54), so the query parameters `limit`, `author`, `tags`, `is_favorited` and `is_in_shopping_cart` also filter this lookup. With one of the filters, a stored recipe can be answered with 404. With `limit`, the lookup runs on a sliced queryset and fails with a server error. Neither case is modelled.
- RecipeWrite.DestroyRecipe: the same holds for the delete. `RecipeNotFound` models the lookup without those query parameters.
- Toggles.FollowAdd and Toggles.FollowDelete model the view methods as written (backend/api/views.py:117-146), which take the keyword argument `user_id`. The route at backend/api/urls.py:18 passes `id`, so as routed in this revision a follow request fails in dispatch before the view body runs. The model describes the body the route would reach once its keyword matches.
- Creating a recipe through `POST` is not composed with the permission class. Its request-level check is `HasPermission`, and the object-level check does not run on create.
