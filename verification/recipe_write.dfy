/** Writing recipes: the submission checks, creating a recipe with its
    ingredient and tag rows, updating one by deleting all of its rows and
    recreating them from the submission, and deleting one together with
    every row that refers to it. */
module RecipeWrite {
  import opened Results
  import opened Models
  import opened Permissions
  import opened Text
  import ImageField

  /** One submitted ingredient: which one, and how much. */
  datatype IngredientAmount = IngredientAmount(ingredient: IngredientId, amount: int)

  /** The body of a create or update request. */
  datatype Submission = Submission(
    name: string,
    image: string,
    text: string,
    cookingTime: int,
    ingredients: seq<IngredientAmount>,
    tags: seq<TagId>)

  /** The errors of the object-level check, one per rule. */
  datatype ValidationError = NoIngredients | DuplicateIngredient | AmountBelowOne | NoTags | DuplicateTag

  datatype WriteError =
    | InvalidField            // a field-level check failed: blank name or text, an image the image field
                              // refuses, an unknown ingredient or tag, or a cooking time below 1
    | Invalid(reason: ValidationError)
    | RecipeNotFound
    | DuplicateRecipe         // the author already has another recipe of that name
    | TagLookupFailed         // looking a tag up by its name did not find exactly one tag
    | NotAuthenticated
    | Forbidden

  // ------------------------------------------------------------ validation

  function IdsOf(ings: seq<IngredientAmount>): seq<IngredientId> {
    seq(|ings|, k requires 0 <= k < |ings| => ings[k].ingredient)
  }

  /** Ingredient `i` fails its check: its id was already seen, or its amount is below one. */
  predicate IngredientFault(ings: seq<IngredientAmount>, i: int)
    requires 0 <= i < |ings|
  {
    ings[i].ingredient in IdsOf(ings[..i]) || ings[i].amount < 1
  }

  /** `j` is the first ingredient at or after `from` that fails its check. */
  predicate FirstFault(ings: seq<IngredientAmount>, from: int, j: int) {
    && 0 <= from <= j < |ings|
    && IngredientFault(ings, j)
    && forall k :: from <= k < j ==> !IngredientFault(ings, k)
  }

  /** Ingredient `j` repeats an earlier id. */
  predicate Repeats(ings: seq<IngredientAmount>, j: int)
    requires 0 <= j < |ings|
  {
    ings[j].ingredient in IdsOf(ings[..j])
  }

  /** The ingredient loop from position `from` on: the first ingredient that
      fails decides the error, the repeated-id test coming before the amount test. */
  function CheckIngredients(ings: seq<IngredientAmount>, from: nat): (r: Option<ValidationError>)
    requires from <= |ings|
    decreases |ings| - from
    ensures r.None? <==> forall j :: from <= j < |ings| ==> !IngredientFault(ings, j)
    ensures r == Some(DuplicateIngredient) <==> exists j :: FirstFault(ings, from, j) && Repeats(ings, j)
    ensures r == Some(AmountBelowOne) <==> exists j :: FirstFault(ings, from, j) && !Repeats(ings, j)
    ensures r.Some? ==> r.value == DuplicateIngredient || r.value == AmountBelowOne
  {
    if from == |ings| then None
    else if ings[from].ingredient in IdsOf(ings[..from]) then
      assert FirstFault(ings, from, from);
      FirstFaultUniqueFrom(ings, from);
      Some(DuplicateIngredient)
    else if ings[from].amount < 1 then
      assert FirstFault(ings, from, from);
      FirstFaultUniqueFrom(ings, from);
      Some(AmountBelowOne)
    else
      var r := CheckIngredients(ings, from + 1);
      FirstFaultShift(ings, from);
      r
  }

  lemma FirstFaultUniqueFrom(ings: seq<IngredientAmount>, from: int)
    requires FirstFault(ings, from, from)
    ensures forall j :: FirstFault(ings, from, j) ==> j == from
  {
  }

  /** When ingredient `from` passes, the first failure from `from` is the first from `from + 1`. */
  lemma FirstFaultShift(ings: seq<IngredientAmount>, from: int)
    requires 0 <= from < |ings| && !IngredientFault(ings, from)
    ensures forall j :: FirstFault(ings, from, j) <==> FirstFault(ings, from + 1, j)
  {
  }

  /** The tag loop from position `from` on: some tag repeats an earlier one. */
  function HasRepeatedTag(tags: seq<TagId>, from: nat): (r: bool)
    requires from <= |tags|
    decreases |tags| - from
    ensures r <==> exists j :: from <= j < |tags| && tags[j] in tags[..j]
  {
    if from == |tags| then false
    else if tags[from] in tags[..from] then true
    else HasRepeatedTag(tags, from + 1)
  }

  predicate Distinct<T(==)>(xs: seq<T>) {
    forall a, b :: 0 <= a < b < |xs| ==> xs[a] != xs[b]
  }

  /** What an accepted ingredient list is: not empty, no id twice, every amount at least one. */
  predicate IngredientsAccepted(ings: seq<IngredientAmount>) {
    |ings| > 0 && Distinct(IdsOf(ings)) && forall k :: 0 <= k < |ings| ==> ings[k].amount >= 1
  }

  /** No ingredient fails its check exactly when the ids are distinct and the amounts positive. */
  lemma NoFaultIffDistinct(ings: seq<IngredientAmount>)
    ensures (forall j :: 0 <= j < |ings| ==> !IngredientFault(ings, j))
            <==> Distinct(IdsOf(ings)) && forall k :: 0 <= k < |ings| ==> ings[k].amount >= 1
  {
    var ids := IdsOf(ings);
    if forall j :: 0 <= j < |ings| ==> !IngredientFault(ings, j) {
      forall a, b | 0 <= a < b < |ings|
        ensures ids[a] != ids[b]
      {
        assert !IngredientFault(ings, b);
        assert IdsOf(ings[..b])[a] == ids[a];
      }
      forall k | 0 <= k < |ings|
        ensures ings[k].amount >= 1
      {
        assert !IngredientFault(ings, k);
      }
    }
    if Distinct(ids) && forall k :: 0 <= k < |ings| ==> ings[k].amount >= 1 {
      forall j | 0 <= j < |ings|
        ensures !IngredientFault(ings, j)
      {
        var prefix := IdsOf(ings[..j]);
        forall a | 0 <= a < |prefix|
          ensures prefix[a] != ings[j].ingredient
        {
          assert prefix[a] == ids[a];
          assert ids[j] == ings[j].ingredient;
        }
        assert ings[j].ingredient !in prefix;
      }
    }
  }

  /** No tag repeats an earlier one exactly when the tags are distinct. */
  lemma NoRepeatIffDistinct(tags: seq<TagId>)
    ensures (exists j :: 0 <= j < |tags| && tags[j] in tags[..j]) <==> !Distinct(tags)
  {
    if !Distinct(tags) {
      var a, b :| 0 <= a < b < |tags| && tags[a] == tags[b];
      assert tags[..b][a] == tags[b];
    }
    if exists j :: 0 <= j < |tags| && tags[j] in tags[..j] {
      var j :| 0 <= j < |tags| && tags[j] in tags[..j];
      var a :| 0 <= a < j && tags[..j][a] == tags[j];
      assert tags[a] == tags[j];
    }
  }

  /** The serializer's object-level check: a non-empty ingredient list in
      which the first failing ingredient decides the error, then a non-empty
      tag list without repeats. An accepted submission comes back unchanged. */
  function Validate(sub: Submission): (r: Result<Submission, ValidationError>)
    ensures r.Success? ==> r.value == sub
    ensures r == Failure(NoIngredients) <==> |sub.ingredients| == 0
    ensures r == Failure(DuplicateIngredient) <==>
              exists j :: FirstFault(sub.ingredients, 0, j) && Repeats(sub.ingredients, j)
    ensures r == Failure(AmountBelowOne) <==>
              exists j :: FirstFault(sub.ingredients, 0, j) && !Repeats(sub.ingredients, j)
    ensures r == Failure(NoTags) <==> IngredientsAccepted(sub.ingredients) && |sub.tags| == 0
    ensures r == Failure(DuplicateTag) <==>
              IngredientsAccepted(sub.ingredients) && |sub.tags| > 0 && !Distinct(sub.tags)
    ensures r.Success? <==> IngredientsAccepted(sub.ingredients) && |sub.tags| > 0 && Distinct(sub.tags)
  {
    NoFaultIffDistinct(sub.ingredients);
    NoRepeatIffDistinct(sub.tags);
    if |sub.ingredients| < 1 then Failure(NoIngredients)
    else
      match CheckIngredients(sub.ingredients, 0)
      case Some(e) => Failure(e)
      case None =>
        if |sub.tags| < 1 then Failure(NoTags)
        else if HasRepeatedTag(sub.tags, 0) then Failure(DuplicateTag)
        else Success(sub)
  }

  /** The image field accepts the string: it is a data URI whose split at
      the marker unpacks into a header and a payload. Any other string is not
      a file, and the framework's image field refuses it. */
  predicate ImageAccepted(image: string) {
    StartsWith(image, ImageField.DataPrefix) && |Split(image, ImageField.Marker)| == 2
  }

  /** The field-level checks, made before `Validate`: the name and the text
      are not blank once surrounding whitespace is stripped, the image field
      accepts the image, every ingredient and tag id names a stored row, and
      the cooking time meets the model's minimum of one. */
  predicate FieldsValid(s: Store, sub: Submission) {
    && !Blank(sub.name) && !Blank(sub.text)
    && ImageAccepted(sub.image)
    && (forall k :: 0 <= k < |sub.ingredients| ==> sub.ingredients[k].ingredient in s.ingredients)
    && (forall k :: 0 <= k < |sub.tags| ==> sub.tags[k] in s.tags)
    && sub.cookingTime >= 1
  }

  /** The submission as the fields hand it on: name and text stripped of
      surrounding whitespace, everything else as sent. */
  function Cleaned(sub: Submission): Submission {
    sub.(name := Strip(sub.name), text := Strip(sub.text))
  }

  /** The image is accepted exactly when the image field turns it into a
      file, that is, when it starts with `data:image` and the `;base64,`
      marker occurs in it once. */
  lemma ImageAcceptedIff(image: string)
    ensures ImageAccepted(image) <==> StartsWith(image, ImageField.DataPrefix) && ImageField.OneMarker(image)
    ensures ImageAccepted(image) <==>
              var r := ImageField.ToInternalValue(ImageField.InlineText(image));
              r.Success? && r.value.InlineFile?
  {
    ImageField.MarkerCount(image);
  }

  /** A blank name or text is refused by the field checks. */
  lemma BlankRefused(s: Store, sub: Submission)
    requires Blank(sub.name) || Blank(sub.text)
    ensures !FieldsValid(s, sub)
  {
  }

  // ----------------------------------------------------------- table rows

  /** The new ingredient rows of `recipe`, one per submitted ingredient, in order. */
  function IngredientRows(recipe: RecipeId, ings: seq<IngredientAmount>): seq<RecipeIngredient> {
    seq(|ings|, k requires 0 <= k < |ings| => RecipeIngredient(recipe, ings[k].ingredient, ings[k].amount))
  }

  /** The `(ingredient, amount)` list the table holds for `recipe`, in row order. */
  function AmountsOf(rows: seq<RecipeIngredient>, recipe: RecipeId): seq<IngredientAmount>
    decreases |rows|
  {
    if |rows| == 0 then []
    else if rows[0].recipe == recipe then
      [IngredientAmount(rows[0].ingredient, rows[0].amount)] + AmountsOf(rows[1..], recipe)
    else AmountsOf(rows[1..], recipe)
  }

  /** The key of deleting a recipe's ingredient rows. */
  function OtherRecipe(recipe: RecipeId): RecipeIngredient -> bool {
    (x: RecipeIngredient) => x.recipe != recipe
  }

  /** The ingredient rows of every recipe but `recipe`. */
  function AmountsWithout(rows: seq<RecipeIngredient>, recipe: RecipeId): seq<RecipeIngredient> {
    Filter(rows, OtherRecipe(recipe))
  }

  /** The tags the table holds for `recipe`, in row order. */
  function TagsOf(rows: seq<RecipeTag>, recipe: RecipeId): seq<TagId>
    decreases |rows|
  {
    if |rows| == 0 then []
    else if rows[0].recipe == recipe then [rows[0].tag] + TagsOf(rows[1..], recipe)
    else TagsOf(rows[1..], recipe)
  }

  /** The key of deleting a recipe's tag rows. */
  function OtherRecipeTag(recipe: RecipeId): RecipeTag -> bool {
    (x: RecipeTag) => x.recipe != recipe
  }

  /** The tag rows of every recipe but `recipe`. */
  function TagsWithout(rows: seq<RecipeTag>, recipe: RecipeId): seq<RecipeTag> {
    Filter(rows, OtherRecipeTag(recipe))
  }

  function NamedTags(tags: map<TagId, Tag>, name: string): set<TagId> {
    set t | t in tags.Keys && tags[t].name == name
  }

  /** `t` is the one tag in `named`. */
  predicate OnlyTag(named: set<TagId>, t: TagId) {
    t in named && forall u :: u in named ==> u == t
  }

  /** Fetching a tag by its name: found only when exactly one tag has that
      name (none is "does not exist", several is "more than one returned"). */
  function TagByName(tags: map<TagId, Tag>, name: string): (r: Option<TagId>)
    ensures r.Some? <==> exists t :: OnlyTag(NamedTags(tags, name), t)
    ensures r.Some? ==> OnlyTag(NamedTags(tags, name), r.value)
  {
    var named := NamedTags(tags, name);
    if exists t :: t in named && OnlyTag(named, t) then
      var t :| t in named && OnlyTag(named, t);
      Some(t)
    else None
  }

  /** The new tag rows of `recipe`: each submitted tag is fetched again by
      its name. `None` when some fetch fails. */
  function TagRows(tags: map<TagId, Tag>, recipe: RecipeId, ts: seq<TagId>): (r: Option<seq<RecipeTag>>)
    requires forall k :: 0 <= k < |ts| ==> ts[k] in tags
    ensures r.Some? <==> forall k :: 0 <= k < |ts| ==> TagByName(tags, tags[ts[k]].name).Some?
    ensures r.Some? ==> |r.value| == |ts|
    ensures r.Some? ==> forall k :: 0 <= k < |ts| ==>
              r.value[k] == RecipeTag(recipe, TagByName(tags, tags[ts[k]].name).value)
    decreases |ts|
  {
    if |ts| == 0 then Some([])
    else
      match TagByName(tags, tags[ts[0]].name)
      case None => None
      case Some(t) =>
        match TagRows(tags, recipe, ts[1..])
        case None => None
        case Some(rest) => Some([RecipeTag(recipe, t)] + rest)
  }

  /** With unique tag names, fetching a tag by its name gives the tag back. */
  lemma TagByNameFindsTag(tags: map<TagId, Tag>, t: TagId)
    requires TagsUnique(tags) && t in tags
    ensures TagByName(tags, tags[t].name) == Some(t)
  {
    assert OnlyTag(NamedTags(tags, tags[t].name), t);
  }

  /** With unique tag names, the new tag rows hold exactly the submitted tags. */
  lemma TagRowsExact(tags: map<TagId, Tag>, recipe: RecipeId, ts: seq<TagId>)
    requires TagsUnique(tags)
    requires forall k :: 0 <= k < |ts| ==> ts[k] in tags
    ensures TagRows(tags, recipe, ts).Some?
    ensures TagsOf(TagRows(tags, recipe, ts).value, recipe) == ts
    ensures forall r :: r != recipe ==> TagsOf(TagRows(tags, recipe, ts).value, r) == []
    ensures TagsWithout(TagRows(tags, recipe, ts).value, recipe) == []
  {
    forall k | 0 <= k < |ts|
      ensures TagByName(tags, tags[ts[k]].name) == Some(ts[k])
    {
      TagByNameFindsTag(tags, ts[k]);
    }
    var rows := TagRows(tags, recipe, ts).value;
    assert forall k :: 0 <= k < |ts| ==> rows[k] == RecipeTag(recipe, ts[k]);
    TagsOfOwnRows(rows, recipe, ts);
  }

  lemma {:induction false} TagsOfOwnRows(rows: seq<RecipeTag>, recipe: RecipeId, ts: seq<TagId>)
    requires |rows| == |ts| && forall k :: 0 <= k < |ts| ==> rows[k] == RecipeTag(recipe, ts[k])
    ensures TagsOf(rows, recipe) == ts
    ensures forall r :: r != recipe ==> TagsOf(rows, r) == []
    ensures TagsWithout(rows, recipe) == []
    decreases |rows|
  {
    if |rows| > 0 {
      TagsOfOwnRows(rows[1..], recipe, ts[1..]);
    }
    FilterNone(rows, OtherRecipeTag(recipe));
  }

  lemma {:induction false} AmountsOfOwnRows(recipe: RecipeId, ings: seq<IngredientAmount>)
    ensures AmountsOf(IngredientRows(recipe, ings), recipe) == ings
    ensures forall r :: r != recipe ==> AmountsOf(IngredientRows(recipe, ings), r) == []
    ensures AmountsWithout(IngredientRows(recipe, ings), recipe) == []
    decreases |ings|
  {
    if |ings| > 0 {
      AmountsOfOwnRows(recipe, ings[1..]);
      assert IngredientRows(recipe, ings)[1..] == IngredientRows(recipe, ings[1..]);
    }
    FilterNone(IngredientRows(recipe, ings), OtherRecipe(recipe));
  }

  lemma {:induction false} AmountsAppend(a: seq<RecipeIngredient>, b: seq<RecipeIngredient>, recipe: RecipeId)
    ensures AmountsOf(a + b, recipe) == AmountsOf(a, recipe) + AmountsOf(b, recipe)
    decreases |a|
  {
    if |a| == 0 {
      assert a + b == b;
    } else {
      assert (a + b)[1..] == a[1..] + b;
      AmountsAppend(a[1..], b, recipe);
    }
  }

  lemma {:induction false} TagsAppend(a: seq<RecipeTag>, b: seq<RecipeTag>, recipe: RecipeId)
    ensures TagsOf(a + b, recipe) == TagsOf(a, recipe) + TagsOf(b, recipe)
    decreases |a|
  {
    if |a| == 0 {
      assert a + b == b;
    } else {
      assert (a + b)[1..] == a[1..] + b;
      TagsAppend(a[1..], b, recipe);
    }
  }

  /** Removing a recipe's rows leaves none of them, and removing them again changes nothing. */
  lemma AmountsDropped(rows: seq<RecipeIngredient>, recipe: RecipeId)
    ensures forall k :: 0 <= k < |AmountsWithout(rows, recipe)| ==> AmountsWithout(rows, recipe)[k].recipe != recipe
    ensures AmountsOf(AmountsWithout(rows, recipe), recipe) == []
    ensures AmountsWithout(AmountsWithout(rows, recipe), recipe) == AmountsWithout(rows, recipe)
  {
    var kept := AmountsWithout(rows, recipe);
    assert forall k :: 0 <= k < |kept| ==> kept[k] in kept;
    AmountsOfAbsent(kept, recipe);
    FilterTwice(rows, OtherRecipe(recipe));
  }

  lemma TagsDropped(rows: seq<RecipeTag>, recipe: RecipeId)
    ensures forall k :: 0 <= k < |TagsWithout(rows, recipe)| ==> TagsWithout(rows, recipe)[k].recipe != recipe
    ensures TagsOf(TagsWithout(rows, recipe), recipe) == []
    ensures TagsWithout(TagsWithout(rows, recipe), recipe) == TagsWithout(rows, recipe)
  {
    var kept := TagsWithout(rows, recipe);
    assert forall k :: 0 <= k < |kept| ==> kept[k] in kept;
    TagsOfAbsent(kept, recipe);
    FilterTwice(rows, OtherRecipeTag(recipe));
  }

  /** A table in which no row belongs to `recipe` holds nothing for it. */
  lemma {:induction false} AmountsOfAbsent(rows: seq<RecipeIngredient>, recipe: RecipeId)
    requires forall k :: 0 <= k < |rows| ==> rows[k].recipe != recipe
    ensures AmountsOf(rows, recipe) == []
    decreases |rows|
  {
    if |rows| > 0 {
      AmountsOfAbsent(rows[1..], recipe);
    }
  }

  lemma {:induction false} TagsOfAbsent(rows: seq<RecipeTag>, recipe: RecipeId)
    requires forall k :: 0 <= k < |rows| ==> rows[k].recipe != recipe
    ensures TagsOf(rows, recipe) == []
    decreases |rows|
  {
    if |rows| > 0 {
      TagsOfAbsent(rows[1..], recipe);
    }
  }

  // ------------------------------------------------------------ operations

  /** Another recipe than `except` by `author` already has `name`. */
  predicate NameTaken(s: Store, author: UserId, name: string, except: RecipeId) {
    exists r :: r in s.recipes && r != except && s.recipes[r].author == author && s.recipes[r].name == name
  }

  /** `Validate` reads only the ingredients and tags: it decides the cleaned
      submission as it decides the submission sent, and hands the cleaned one on. */
  lemma ValidateIgnoresText(sub: Submission)
    ensures Validate(Cleaned(sub)).Success? <==> Validate(sub).Success?
    ensures Validate(sub).Failure? ==> Validate(Cleaned(sub)).error == Validate(sub).error
    ensures Validate(Cleaned(sub)).Success? ==> Validate(Cleaned(sub)).value == Cleaned(sub)
  {
  }

  /** `author` creates a recipe; the database hands out the fresh key `newId`.
      A refused request leaves the store as it was. */
  function CreateRecipe(s: Store, author: UserId, sub: Submission, newId: RecipeId): (t: Transition<WriteError>)
    requires newId !in s.recipes
    ensures !FieldsValid(s, sub) ==> t.reply == Refused(InvalidField)
    ensures FieldsValid(s, sub) && Validate(sub).Failure? ==> t.reply == Refused(Invalid(Validate(sub).error))
    ensures t.reply.Refused? ==> t.after == s
    ensures t.reply == Accepted <==>
              FieldsValid(s, sub) && Validate(sub).Success? && !NameTaken(s, author, Strip(sub.name), newId)
              && TagRows(s.tags, newId, sub.tags).Some?
    ensures t.reply == Accepted ==>
              && t.after.recipes == s.recipes[newId := Recipe(author, Strip(sub.name), sub.image, Strip(sub.text), sub.cookingTime)]
              && |t.after.amounts| >= |s.amounts| && t.after.amounts[..|s.amounts|] == s.amounts
              && |t.after.recipeTags| >= |s.recipeTags| && t.after.recipeTags[..|s.recipeTags|] == s.recipeTags
              && t.after == s.(recipes := t.after.recipes, amounts := t.after.amounts, recipeTags := t.after.recipeTags)
  {
    if !FieldsValid(s, sub) then Transition(Refused(InvalidField), s)
    else
      ValidateIgnoresText(sub);
      assert forall rows: seq<RecipeIngredient> :: (s.amounts + rows)[..|s.amounts|] == s.amounts;
      assert forall rows: seq<RecipeTag> :: (s.recipeTags + rows)[..|s.recipeTags|] == s.recipeTags;
      CreateChecked(s, author, Cleaned(sub), newId)
  }

  /** The create once the fields have passed: `validate`, the name clash,
      the tag lookups, then the new recipe and its rows. */
  function CreateChecked(s: Store, author: UserId, data: Submission, newId: RecipeId): Transition<WriteError>
    requires forall k :: 0 <= k < |data.tags| ==> data.tags[k] in s.tags
  {
    match Validate(data)
    case Failure(e) => Transition(Refused(Invalid(e)), s)
    case Success(_) =>
      if NameTaken(s, author, data.name, newId) then Transition(Refused(DuplicateRecipe), s)
      else match TagRows(s.tags, newId, data.tags)
        case None => Transition(Refused(TagLookupFailed), s)
        case Some(tagRows) =>
          Transition(Accepted, s.(
            recipes := s.recipes[newId := Recipe(author, data.name, data.image, data.text, data.cookingTime)],
            amounts := s.amounts + IngredientRows(newId, data.ingredients),
            recipeTags := s.recipeTags + tagRows))
  }

  /** A name sent with whitespace around it is created as the bare name:
      the request is the same as the one without the padding, so it clashes
      with an existing recipe of that bare name. */
  lemma CreateIgnoresPadding(s: Store, author: UserId, sub: Submission, newId: RecipeId, before: string, after: string)
    requires newId !in s.recipes
    requires forall k :: 0 <= k < |before| ==> IsSpace(before[k])
    requires forall k :: 0 <= k < |after| ==> IsSpace(after[k])
    ensures CreateRecipe(s, author, sub.(name := before + sub.name + after), newId) == CreateRecipe(s, author, sub, newId)
  {
    var padded := sub.(name := before + sub.name + after);
    StripIgnoresPadding(before, sub.name, after);
    assert Cleaned(padded) == Cleaned(sub);
    assert FieldsValid(s, padded) == FieldsValid(s, sub);
  }

  /** Recipe `id` is rewritten from the submission: all of its ingredient
      and tag rows are deleted and recreated, then its own fields are set. */
  function UpdateRecipe(s: Store, id: RecipeId, sub: Submission): (t: Transition<WriteError>)
    ensures id !in s.recipes ==> t.reply == Refused(RecipeNotFound)
    ensures id in s.recipes && !FieldsValid(s, sub) ==> t.reply == Refused(InvalidField)
    ensures id in s.recipes && FieldsValid(s, sub) && Validate(sub).Failure? ==>
              t.reply == Refused(Invalid(Validate(sub).error))
    ensures t.reply.Refused? ==> t.after == s
    ensures t.reply == Accepted <==>
              id in s.recipes && FieldsValid(s, sub) && Validate(sub).Success?
              && !NameTaken(s, s.recipes[id].author, Strip(sub.name), id) && TagRows(s.tags, id, sub.tags).Some?
    ensures t.reply == Accepted ==>
              && t.after.recipes.Keys == s.recipes.Keys
              && t.after.recipes[id] == s.recipes[id].(name := Strip(sub.name), image := sub.image,
                                                        text := Strip(sub.text), cookingTime := sub.cookingTime)
              && (forall r :: r in s.recipes && r != id ==> t.after.recipes[r] == s.recipes[r])
              && t.after == s.(recipes := t.after.recipes, amounts := t.after.amounts, recipeTags := t.after.recipeTags)
  {
    if id !in s.recipes then Transition(Refused(RecipeNotFound), s)
    else if !FieldsValid(s, sub) then Transition(Refused(InvalidField), s)
    else
      ValidateIgnoresText(sub);
      UpdateChecked(s, id, Cleaned(sub))
  }

  /** The update once the recipe is found and the fields have passed:
      `validate`, the name clash, the tag lookups, then the new fields and
      the recipe's rows replaced. */
  function UpdateChecked(s: Store, id: RecipeId, data: Submission): Transition<WriteError>
    requires id in s.recipes
    requires forall k :: 0 <= k < |data.tags| ==> data.tags[k] in s.tags
  {
    match Validate(data)
    case Failure(e) => Transition(Refused(Invalid(e)), s)
    case Success(_) =>
      var current := s.recipes[id];
      if NameTaken(s, current.author, data.name, id) then Transition(Refused(DuplicateRecipe), s)
      else match TagRows(s.tags, id, data.tags)
        case None => Transition(Refused(TagLookupFailed), s)
        case Some(tagRows) =>
          Transition(Accepted, s.(
            recipes := s.recipes[id := current.(name := data.name, image := data.image,
                                              text := data.text, cookingTime := data.cookingTime)],
            amounts := AmountsWithout(s.amounts, id) + IngredientRows(id, data.ingredients),
            recipeTags := TagsWithout(s.recipeTags, id) + tagRows))
  }

  /** Recipe `id` is deleted, and with it every ingredient row, tag row,
      favorite and shopping-list entry that refers to it. */
  function DeleteRecipe(s: Store, id: RecipeId): (t: Store)
    ensures t.recipes == s.recipes - {id}
    ensures forall k :: 0 <= k < |t.amounts| ==> t.amounts[k].recipe != id
    ensures forall k :: 0 <= k < |t.recipeTags| ==> t.recipeTags[k].recipe != id
    ensures forall l :: l in t.favorites ==> l.target != id
    ensures forall l :: l in t.cart ==> l.target != id
    ensures forall x: RecipeIngredient :: x.recipe != id ==> (x in t.amounts <==> x in s.amounts)
    ensures forall x: RecipeTag :: x.recipe != id ==> (x in t.recipeTags <==> x in s.recipeTags)
    ensures forall l: Link :: l.target != id ==> (l in t.favorites <==> l in s.favorites) && (l in t.cart <==> l in s.cart)
    ensures t.users == s.users && t.ingredients == s.ingredients && t.tags == s.tags && t.follows == s.follows
    ensures AmountsWithout(t.amounts, id) == AmountsWithout(s.amounts, id)
    ensures TagsWithout(t.recipeTags, id) == TagsWithout(s.recipeTags, id)
    ensures WithoutTarget(t.favorites, id) == WithoutTarget(s.favorites, id)
    ensures WithoutTarget(t.cart, id) == WithoutTarget(s.cart, id)
  {
    var amounts := AmountsWithout(s.amounts, id);
    var recipeTags := TagsWithout(s.recipeTags, id);
    AmountsDropped(s.amounts, id);
    TagsDropped(s.recipeTags, id);
    FilterTwice(s.favorites, OtherTarget(id));
    FilterTwice(s.cart, OtherTarget(id));
    s.(recipes := s.recipes - {id},
       amounts := amounts,
       recipeTags := recipeTags,
       favorites := WithoutTarget(s.favorites, id),
       cart := WithoutTarget(s.cart, id))
  }

  /** `PATCH /recipes/{id}/`: the request-level permission, then the recipe
      lookup, then the object-level permission, then the update. PATCH is
      not a read-only method. */
  function PatchRecipe(safe: set<string>, s: Store, req: Request, id: RecipeId, sub: Submission): (t: Transition<WriteError>)
    requires req.verb !in safe
    ensures t.reply.Refused? ==> t.after == s
    ensures !HasPermission(safe, req) ==> t.reply == Refused(NotAuthenticated)
    ensures HasPermission(safe, req) && id !in s.recipes ==> t.reply == Refused(RecipeNotFound)
    ensures HasPermission(safe, req) && id in s.recipes && !HasObjectPermission(safe, req, s.recipes[id].author) ==>
              t.reply == Refused(Forbidden)
    ensures HasPermission(safe, req) && id in s.recipes && HasObjectPermission(safe, req, s.recipes[id].author) ==>
              t == UpdateRecipe(s, id, sub)
    ensures t.reply == Accepted ==>
              id in s.recipes && HasObjectPermission(safe, req, s.recipes[id].author)
              && t == UpdateRecipe(s, id, sub)
  {
    if !HasPermission(safe, req) then Transition(Refused(NotAuthenticated), s)
    else if id !in s.recipes then Transition(Refused(RecipeNotFound), s)
    else if !HasObjectPermission(safe, req, s.recipes[id].author) then Transition(Refused(Forbidden), s)
    else UpdateRecipe(s, id, sub)
  }

  /** `DELETE /recipes/{id}/`, with the same permission order as an update.
      DELETE is not a read-only method. */
  function DestroyRecipe(safe: set<string>, s: Store, req: Request, id: RecipeId): (t: Transition<WriteError>)
    requires req.verb !in safe
    ensures !HasPermission(safe, req) ==> t.reply == Refused(NotAuthenticated)
    ensures HasPermission(safe, req) && id !in s.recipes ==> t.reply == Refused(RecipeNotFound)
    ensures HasPermission(safe, req) && id in s.recipes && !HasObjectPermission(safe, req, s.recipes[id].author) ==>
              t.reply == Refused(Forbidden)
    ensures t.reply.Refused? ==> t.after == s
    ensures t.reply == Accepted <==>
              HasPermission(safe, req) && id in s.recipes && HasObjectPermission(safe, req, s.recipes[id].author)
    ensures t.reply == Accepted ==> t.after == DeleteRecipe(s, id)
  {
    if !HasPermission(safe, req) then Transition(Refused(NotAuthenticated), s)
    else if id !in s.recipes then Transition(Refused(RecipeNotFound), s)
    else if !HasObjectPermission(safe, req, s.recipes[id].author) then Transition(Refused(Forbidden), s)
    else Transition(Accepted, DeleteRecipe(s, id))
  }

  // ------------------------------------------------------------ properties

  /** After a create, the new recipe's rows are exactly the submitted
      ingredients and tags, and every other recipe's rows are as before. */
  lemma CreateWritesRows(s: Store, author: UserId, sub: Submission, newId: RecipeId)
    requires Valid(s) && newId !in s.recipes
    requires CreateRecipe(s, author, sub, newId).reply == Accepted
    ensures AmountsOf(CreateRecipe(s, author, sub, newId).after.amounts, newId) == sub.ingredients
    ensures TagsOf(CreateRecipe(s, author, sub, newId).after.recipeTags, newId) == sub.tags
    ensures forall r :: r != newId ==>
              AmountsOf(CreateRecipe(s, author, sub, newId).after.amounts, r) == AmountsOf(s.amounts, r)
              && TagsOf(CreateRecipe(s, author, sub, newId).after.recipeTags, r) == TagsOf(s.recipeTags, r)
  {
    var t := CreateRecipe(s, author, sub, newId).after;
    var newRows := IngredientRows(newId, sub.ingredients);
    var tagRows := TagRows(s.tags, newId, sub.tags).value;
    assert t.amounts == s.amounts + newRows;
    assert t.recipeTags == s.recipeTags + tagRows;
    AmountsAppend(s.amounts, newRows, newId);
    TagsAppend(s.recipeTags, tagRows, newId);
    AmountsOfAbsent(s.amounts, newId);
    TagsOfAbsent(s.recipeTags, newId);
    AmountsOfOwnRows(newId, sub.ingredients);
    TagRowsExact(s.tags, newId, sub.tags);
    forall r | r != newId
      ensures AmountsOf(t.amounts, r) == AmountsOf(s.amounts, r) && TagsOf(t.recipeTags, r) == TagsOf(s.recipeTags, r)
    {
      AmountsAppend(s.amounts, newRows, r);
      TagsAppend(s.recipeTags, tagRows, r);
    }
  }

  /** After an update, the recipe's ingredient rows are exactly the submitted
      `(ingredient, amount)` list and its tag rows exactly the submitted tags,
      with no old row left; the rows of every other recipe are untouched. */
  lemma UpdateReplacesRows(s: Store, id: RecipeId, sub: Submission)
    requires TagsUnique(s.tags)
    requires UpdateRecipe(s, id, sub).reply == Accepted
    ensures AmountsOf(UpdateRecipe(s, id, sub).after.amounts, id) == sub.ingredients
    ensures TagsOf(UpdateRecipe(s, id, sub).after.recipeTags, id) == sub.tags
    ensures AmountsWithout(UpdateRecipe(s, id, sub).after.amounts, id) == AmountsWithout(s.amounts, id)
    ensures TagsWithout(UpdateRecipe(s, id, sub).after.recipeTags, id) == TagsWithout(s.recipeTags, id)
  {
    var t := UpdateRecipe(s, id, sub).after;
    var kept := AmountsWithout(s.amounts, id);
    var keptTags := TagsWithout(s.recipeTags, id);
    var newRows := IngredientRows(id, sub.ingredients);
    var tagRows := TagRows(s.tags, id, sub.tags).value;
    assert t.amounts == kept + newRows;
    assert t.recipeTags == keptTags + tagRows;
    AmountsAppend(kept, newRows, id);
    FilterAppend(kept, newRows, OtherRecipe(id));
    TagsAppend(keptTags, tagRows, id);
    FilterAppend(keptTags, tagRows, OtherRecipeTag(id));
    AmountsDropped(s.amounts, id);
    TagsDropped(s.recipeTags, id);
    AmountsOfOwnRows(id, sub.ingredients);
    TagRowsExact(s.tags, id, sub.tags);
  }

  /** An updated recipe never lists an ingredient twice. */
  lemma UpdateKeepsIngredientsDistinct(s: Store, id: RecipeId, sub: Submission)
    requires TagsUnique(s.tags)
    requires UpdateRecipe(s, id, sub).reply == Accepted
    ensures Distinct(IdsOf(AmountsOf(UpdateRecipe(s, id, sub).after.amounts, id)))
    ensures forall k :: 0 <= k < |AmountsOf(UpdateRecipe(s, id, sub).after.amounts, id)| ==>
              AmountsOf(UpdateRecipe(s, id, sub).after.amounts, id)[k].amount >= 1
  {
    UpdateReplacesRows(s, id, sub);
  }

  lemma LinksValidWiden(links: seq<Link>, users: set<UserId>, targets: set<int>, wider: set<int>)
    requires LinksValid(links, users, targets) && targets <= wider
    ensures LinksValid(links, users, wider)
  {
  }

  /** A create by a stored user keeps the store valid. */
  lemma CreateKeepsValid(s: Store, author: UserId, sub: Submission, newId: RecipeId)
    requires Valid(s) && author in s.users && newId !in s.recipes
    ensures Valid(CreateRecipe(s, author, sub, newId).after)
  {
    var t := CreateRecipe(s, author, sub, newId);
    if t.reply == Accepted {
      CreateKeepsRecipesValid(s, author, sub, newId);
      CreateKeepsAmountsValid(s, author, sub, newId);
      CreateKeepsRecipeTagsValid(s, author, sub, newId);
      RewriteKeepsValid(s, t.after);
    }
  }

  /** After an accepted create no author has two recipes of one name, and
      every recipe takes at least a minute and has a stored author. */
  lemma CreateKeepsRecipesValid(s: Store, author: UserId, sub: Submission, newId: RecipeId)
    requires RecipesValid(s) && author in s.users && newId !in s.recipes
    requires CreateRecipe(s, author, sub, newId).reply == Accepted
    ensures RecipesValid(CreateRecipe(s, author, sub, newId).after)
    ensures s.recipes.Keys <= CreateRecipe(s, author, sub, newId).after.recipes.Keys
    ensures CreateRecipe(s, author, sub, newId).after == s.(recipes := CreateRecipe(s, author, sub, newId).after.recipes,
                                                          amounts := CreateRecipe(s, author, sub, newId).after.amounts,
                                                          recipeTags := CreateRecipe(s, author, sub, newId).after.recipeTags)
  {
    var a := CreateRecipe(s, author, sub, newId).after;
    assert FieldsValid(s, sub);
    var rec := Recipe(author, Strip(sub.name), sub.image, Strip(sub.text), sub.cookingTime);
    assert a.recipes == s.recipes[newId := rec];
    PutRecipeKeepsValid(s, newId, rec);
  }

  /** Storing `rec` under `id` keeps the recipe table valid when no other
      recipe of its author has its name, it takes at least a minute and its
      author is stored. */
  lemma PutRecipeKeepsValid(s: Store, id: RecipeId, rec: Recipe)
    requires RecipesValid(s)
    requires !NameTaken(s, rec.author, rec.name, id)
    requires rec.cookingTime >= 1 && rec.author in s.users
    ensures RecipesValid(s.(recipes := s.recipes[id := rec]))
  {
  }

  /** A store that differs from a valid one only in its recipe, ingredient-row
      and tag-row tables, keeps every recipe id and has those three tables
      valid, is valid. */
  lemma RewriteKeepsValid(s: Store, a: Store)
    requires Valid(s)
    requires a == s.(recipes := a.recipes, amounts := a.amounts, recipeTags := a.recipeTags)
    requires s.recipes.Keys <= a.recipes.Keys
    requires RecipesValid(a) && AmountsValid(a) && RecipeTagsValid(a)
    ensures Valid(a)
  {
    LinksValidWiden(s.favorites, s.users, s.recipes.Keys, a.recipes.Keys);
    LinksValidWiden(s.cart, s.users, s.recipes.Keys, a.recipes.Keys);
  }

  /** After an accepted create every ingredient row has an amount of at least
      one and points at a stored recipe and ingredient. */
  lemma CreateKeepsAmountsValid(s: Store, author: UserId, sub: Submission, newId: RecipeId)
    requires AmountsValid(s) && newId !in s.recipes
    requires CreateRecipe(s, author, sub, newId).reply == Accepted
    ensures AmountsValid(CreateRecipe(s, author, sub, newId).after)
  {
    var a := CreateRecipe(s, author, sub, newId).after;
    assert IngredientsAccepted(sub.ingredients) && FieldsValid(s, sub);
    var newRows := IngredientRows(newId, sub.ingredients);
    assert a.amounts == s.amounts + newRows;
    NewRowsResolve(newId, sub.ingredients, a.recipes.Keys, a.ingredients.Keys);
    RowsAppendResolve(s.amounts, newRows, a.recipes.Keys, a.ingredients.Keys);
  }

  /** Every ingredient row has an amount of at least one and resolves. */
  ghost predicate RowsResolve(rows: seq<RecipeIngredient>, recipes: set<RecipeId>, ingredients: set<IngredientId>) {
    forall k :: 0 <= k < |rows| ==>
      rows[k].amount >= 1 && rows[k].recipe in recipes && rows[k].ingredient in ingredients
  }

  lemma NewRowsResolve(recipe: RecipeId, ings: seq<IngredientAmount>, recipes: set<RecipeId>, ingredients: set<IngredientId>)
    requires recipe in recipes
    requires forall k :: 0 <= k < |ings| ==> ings[k].amount >= 1 && ings[k].ingredient in ingredients
    ensures RowsResolve(IngredientRows(recipe, ings), recipes, ingredients)
  {
  }

  lemma RowsAppendResolve(a: seq<RecipeIngredient>, b: seq<RecipeIngredient>, recipes: set<RecipeId>, ingredients: set<IngredientId>)
    requires RowsResolve(a, recipes, ingredients) && RowsResolve(b, recipes, ingredients)
    ensures RowsResolve(a + b, recipes, ingredients)
  {
    forall k | 0 <= k < |a + b|
      ensures (a + b)[k].amount >= 1 && (a + b)[k].recipe in recipes && (a + b)[k].ingredient in ingredients
    {
      if k >= |a| {
        assert (a + b)[k] == b[k - |a|];
      }
    }
  }

  /** After an accepted create every tag row points at a stored recipe and tag. */
  lemma CreateKeepsRecipeTagsValid(s: Store, author: UserId, sub: Submission, newId: RecipeId)
    requires RecipeTagsValid(s) && newId !in s.recipes
    requires CreateRecipe(s, author, sub, newId).reply == Accepted
    ensures RecipeTagsValid(CreateRecipe(s, author, sub, newId).after)
  {
    var a := CreateRecipe(s, author, sub, newId).after;
    assert FieldsValid(s, sub);
    var tagRows := TagRows(s.tags, newId, sub.tags).value;
    assert a.recipeTags == s.recipeTags + tagRows;
    assert s.recipes.Keys <= a.recipes.Keys && newId in a.recipes && a.tags == s.tags;
    assert TagRowsResolve(s.recipeTags, a.recipes.Keys, a.tags.Keys);
    NewTagRowsResolve(s.tags, newId, sub.tags, a.recipes.Keys);
    TagRowsAppendResolve(s.recipeTags, tagRows, a.recipes.Keys, a.tags.Keys);
  }

  /** An update keeps the store valid. */
  lemma UpdateKeepsValid(s: Store, id: RecipeId, sub: Submission)
    requires Valid(s)
    ensures Valid(UpdateRecipe(s, id, sub).after)
  {
    var t := UpdateRecipe(s, id, sub);
    if t.reply == Accepted {
      UpdateKeepsRecipesValid(s, id, sub);
      UpdateKeepsAmountsValid(s, id, sub);
      UpdateKeepsRecipeTagsValid(s, id, sub);
      RewriteKeepsValid(s, t.after);
    }
  }

  /** After an accepted update no author has two recipes of one name, and
      every recipe still takes at least a minute and has a stored author. */
  lemma UpdateKeepsRecipesValid(s: Store, id: RecipeId, sub: Submission)
    requires RecipesValid(s)
    requires UpdateRecipe(s, id, sub).reply == Accepted
    ensures RecipesValid(UpdateRecipe(s, id, sub).after)
    ensures s.recipes.Keys <= UpdateRecipe(s, id, sub).after.recipes.Keys
    ensures UpdateRecipe(s, id, sub).after == s.(recipes := UpdateRecipe(s, id, sub).after.recipes,
                                                 amounts := UpdateRecipe(s, id, sub).after.amounts,
                                                 recipeTags := UpdateRecipe(s, id, sub).after.recipeTags)
  {
    var a := UpdateRecipe(s, id, sub).after;
    assert FieldsValid(s, sub) && id in s.recipes;
    var current := s.recipes[id];
    var rec := current.(name := Strip(sub.name), image := sub.image, text := Strip(sub.text), cookingTime := sub.cookingTime);
    assert a.recipes == s.recipes[id := rec];
    PutRecipeKeepsValid(s, id, rec);
  }

  /** After an accepted update every ingredient row has an amount of at least
      one and points at a stored recipe and ingredient. */
  lemma UpdateKeepsAmountsValid(s: Store, id: RecipeId, sub: Submission)
    requires AmountsValid(s)
    requires UpdateRecipe(s, id, sub).reply == Accepted
    ensures AmountsValid(UpdateRecipe(s, id, sub).after)
  {
    var a := UpdateRecipe(s, id, sub).after;
    assert IngredientsAccepted(sub.ingredients) && FieldsValid(s, sub) && id in s.recipes;
    var kept := AmountsWithout(s.amounts, id);
    var newRows := IngredientRows(id, sub.ingredients);
    assert a.amounts == kept + newRows;
    assert a.recipes.Keys == s.recipes.Keys && a.ingredients == s.ingredients;
    assert RowsResolve(s.amounts, a.recipes.Keys, a.ingredients.Keys);
    KeptRowsResolve(s.amounts, kept, a.recipes.Keys, a.ingredients.Keys);
    NewRowsResolve(id, sub.ingredients, a.recipes.Keys, a.ingredients.Keys);
    RowsAppendResolve(kept, newRows, a.recipes.Keys, a.ingredients.Keys);
  }

  lemma KeptRowsResolve(rows: seq<RecipeIngredient>, kept: seq<RecipeIngredient>, recipes: set<RecipeId>, ingredients: set<IngredientId>)
    requires RowsResolve(rows, recipes, ingredients)
    requires forall x :: x in kept ==> x in rows
    ensures RowsResolve(kept, recipes, ingredients)
  {
    forall k | 0 <= k < |kept|
      ensures kept[k].amount >= 1 && kept[k].recipe in recipes && kept[k].ingredient in ingredients
    {
      assert kept[k] in kept;
      var j :| 0 <= j < |rows| && rows[j] == kept[k];
    }
  }

  /** After an accepted update every tag row points at a stored recipe and tag. */
  lemma UpdateKeepsRecipeTagsValid(s: Store, id: RecipeId, sub: Submission)
    requires RecipeTagsValid(s)
    requires UpdateRecipe(s, id, sub).reply == Accepted
    ensures RecipeTagsValid(UpdateRecipe(s, id, sub).after)
  {
    var a := UpdateRecipe(s, id, sub).after;
    assert FieldsValid(s, sub) && id in s.recipes;
    var keptTags := TagsWithout(s.recipeTags, id);
    var tagRows := TagRows(s.tags, id, sub.tags).value;
    assert a.recipeTags == keptTags + tagRows;
    assert a.recipes.Keys == s.recipes.Keys && a.tags == s.tags;
    assert TagRowsResolve(s.recipeTags, a.recipes.Keys, a.tags.Keys);
    KeptTagRowsResolve(s.recipeTags, keptTags, a.recipes.Keys, a.tags.Keys);
    NewTagRowsResolve(s.tags, id, sub.tags, a.recipes.Keys);
    TagRowsAppendResolve(keptTags, tagRows, a.recipes.Keys, a.tags.Keys);
  }

  /** Every tag row points at a recipe in `recipes` and a tag in `tags`. */
  ghost predicate TagRowsResolve(rows: seq<RecipeTag>, recipes: set<RecipeId>, tags: set<TagId>) {
    forall k :: 0 <= k < |rows| ==> rows[k].recipe in recipes && rows[k].tag in tags
  }

  lemma NewTagRowsResolve(tags: map<TagId, Tag>, recipe: RecipeId, ts: seq<TagId>, recipes: set<RecipeId>)
    requires recipe in recipes
    requires forall k :: 0 <= k < |ts| ==> ts[k] in tags
    requires TagRows(tags, recipe, ts).Some?
    ensures TagRowsResolve(TagRows(tags, recipe, ts).value, recipes, tags.Keys)
  {
    var rows := TagRows(tags, recipe, ts).value;
    forall j | 0 <= j < |rows|
      ensures rows[j].recipe in recipes && rows[j].tag in tags
    {
      assert OnlyTag(NamedTags(tags, tags[ts[j]].name), rows[j].tag);
    }
  }

  lemma KeptTagRowsResolve(rows: seq<RecipeTag>, kept: seq<RecipeTag>, recipes: set<RecipeId>, tags: set<TagId>)
    requires TagRowsResolve(rows, recipes, tags)
    requires forall x :: x in kept ==> x in rows
    ensures TagRowsResolve(kept, recipes, tags)
  {
    forall k | 0 <= k < |kept|
      ensures kept[k].recipe in recipes && kept[k].tag in tags
    {
      assert kept[k] in kept;
      var j :| 0 <= j < |rows| && rows[j] == kept[k];
    }
  }

  lemma TagRowsAppendResolve(a: seq<RecipeTag>, b: seq<RecipeTag>, recipes: set<RecipeId>, tags: set<TagId>)
    requires TagRowsResolve(a, recipes, tags) && TagRowsResolve(b, recipes, tags)
    ensures TagRowsResolve(a + b, recipes, tags)
  {
    forall k | 0 <= k < |a + b|
      ensures (a + b)[k].recipe in recipes && (a + b)[k].tag in tags
    {
      if k >= |a| {
        assert (a + b)[k] == b[k - |a|];
      }
    }
  }

  /** Deleting a recipe keeps the store valid. */
  lemma DeleteKeepsValid(s: Store, id: RecipeId)
    requires Valid(s)
    ensures Valid(DeleteRecipe(s, id))
  {
    var a := DeleteRecipe(s, id);
    DeleteKeepsAmountsValid(s, id);
    DeleteKeepsRecipeTagsValid(s, id);
    assert a.recipes.Keys == s.recipes.Keys - {id};
    FilterKeepsLinksValid(s.favorites, s.users, s.recipes.Keys, id);
    FilterKeepsLinksValid(s.cart, s.users, s.recipes.Keys, id);
  }

  lemma DeleteKeepsAmountsValid(s: Store, id: RecipeId)
    requires AmountsValid(s)
    ensures AmountsValid(DeleteRecipe(s, id))
  {
    var a := DeleteRecipe(s, id);
    forall k | 0 <= k < |a.amounts|
      ensures a.amounts[k].amount >= 1 && a.amounts[k].recipe in a.recipes && a.amounts[k].ingredient in a.ingredients
    {
      assert a.amounts[k] in a.amounts;
      var j :| 0 <= j < |s.amounts| && s.amounts[j] == a.amounts[k];
    }
  }

  lemma DeleteKeepsRecipeTagsValid(s: Store, id: RecipeId)
    requires RecipeTagsValid(s)
    ensures RecipeTagsValid(DeleteRecipe(s, id))
  {
    var a := DeleteRecipe(s, id);
    forall k | 0 <= k < |a.recipeTags|
      ensures a.recipeTags[k].recipe in a.recipes && a.recipeTags[k].tag in a.tags
    {
      assert a.recipeTags[k] in a.recipeTags;
      var j :| 0 <= j < |s.recipeTags| && s.recipeTags[j] == a.recipeTags[k];
    }
  }

  /** Dropping the rows that point at `id` keeps a user-to-recipe table valid
      for the recipes left. */
  lemma FilterKeepsLinksValid(links: seq<Link>, users: set<UserId>, targets: set<int>, id: RecipeId)
    requires LinksValid(links, users, targets)
    ensures LinksValid(WithoutTarget(links, id), users, targets - {id})
  {
    var kept := WithoutTarget(links, id);
    FilterKeepsNoDup(links, OtherTarget(id));
    forall k | 0 <= k < |kept|
      ensures kept[k].user in users && kept[k].target in targets - {id}
    {
      assert kept[k] in kept;
      var j :| 0 <= j < |links| && links[j] == kept[k];
    }
  }

  /** A non-read-only request that changes a recipe comes from an active user
      who is its author, staff, or a superuser; an anonymous one never does. */
  lemma ChangeNeedsOwnerOrAdmin(safe: set<string>, s: Store, req: Request, id: RecipeId, sub: Submission)
    requires req.verb !in safe
    ensures PatchRecipe(safe, s, req, id, sub).reply == Accepted ==>
              req.requester.Member? && req.requester.isActive
              && (req.requester.id == s.recipes[id].author || req.requester.isStaff || req.requester.isSuperuser)
    ensures DestroyRecipe(safe, s, req, id).reply == Accepted ==>
              req.requester.Member? && req.requester.isActive
              && (req.requester.id == s.recipes[id].author || req.requester.isStaff || req.requester.isSuperuser)
  {
  }
}
