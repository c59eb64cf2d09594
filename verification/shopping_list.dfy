/** The shopping-list download: every ingredient row of the recipes in the
    user's cart, folded into an insertion-ordered table keyed by ingredient
    NAME alone (the first row's unit is kept, later units are ignored, every
    amount is added), then written out one line per name as
    `name (unit) - amount` followed by a newline. */
module ShoppingList {
  import opened Results
  import opened Models
  import opened Text
  import opened Permissions
  import RecipeWrite

  datatype DownloadError = NotAuthenticated

  /** One row of the query: ingredient name, measurement unit, amount. An
      entry of the folded table has the same shape: the key, the unit kept
      for it and the running total. */
  datatype Item = Item(name: string, unit: string, amount: int)

  // ----------------------------------------------------------------- query

  /** The row belongs to a recipe in `user`'s cart and its ingredient exists. */
  predicate InCart(row: RecipeIngredient, ingredients: map<IngredientId, Ingredient>, cart: seq<Link>, user: UserId) {
    Link(user, row.recipe) in cart && row.ingredient in ingredients
  }

  function ItemOf(row: RecipeIngredient, ingredients: map<IngredientId, Ingredient>): Item
    requires row.ingredient in ingredients
  {
    Item(ingredients[row.ingredient].name, ingredients[row.ingredient].measurementUnit, row.amount)
  }

  /** The joined rows in table order. */
  function Joined(rows: seq<RecipeIngredient>, ingredients: map<IngredientId, Ingredient>, cart: seq<Link>, user: UserId)
    : (r: seq<Item>)
    ensures forall j :: 0 <= j < |rows| && InCart(rows[j], ingredients, cart, user) ==> ItemOf(rows[j], ingredients) in r
    ensures forall it :: it in r ==>
              exists j :: 0 <= j < |rows| && InCart(rows[j], ingredients, cart, user) && ItemOf(rows[j], ingredients) == it
    decreases |rows|
  {
    if |rows| == 0 then []
    else
      var rest := Joined(rows[1..], ingredients, cart, user);
      assert forall j :: 1 <= j < |rows| ==> rows[j] == rows[1..][j - 1];
      if InCart(rows[0], ingredients, cart, user) then [ItemOf(rows[0], ingredients)] + rest else rest
  }

  function Reverse<T>(xs: seq<T>): seq<T> {
    seq(|xs|, k requires 0 <= k < |xs| => xs[|xs| - 1 - k])
  }

  /** What the query yields for `user`: the rows of the recipes in the cart,
      newest row first, since the ingredient-row table is ordered by
      descending primary key. */
  function CartItems(s: Store, user: UserId): (r: seq<Item>)
    ensures forall j :: 0 <= j < |s.amounts| && InCart(s.amounts[j], s.ingredients, s.cart, user) ==>
              ItemOf(s.amounts[j], s.ingredients) in r
    ensures forall it :: it in r ==>
              exists j :: 0 <= j < |s.amounts| && InCart(s.amounts[j], s.ingredients, s.cart, user)
                          && ItemOf(s.amounts[j], s.ingredients) == it
  {
    var joined := Joined(s.amounts, s.ingredients, s.cart, user);
    var r := Reverse(joined);
    assert forall it :: it in r <==> it in joined by {
      forall it | it in joined
        ensures it in r
      {
        var k :| 0 <= k < |joined| && joined[k] == it;
        assert r[|joined| - 1 - k] == it;
      }
    }
    r
  }

  /** The query distributes over the table: the rows of `a + b` give the
      items of `a`, then those of `b`. With `JoinedOne` this fixes how many
      times each item appears, and where. */
  lemma {:induction false} JoinedAppend(a: seq<RecipeIngredient>, b: seq<RecipeIngredient>,
                                       ingredients: map<IngredientId, Ingredient>, cart: seq<Link>, user: UserId)
    ensures Joined(a + b, ingredients, cart, user) == Joined(a, ingredients, cart, user) + Joined(b, ingredients, cart, user)
    decreases |a|
  {
    if |a| == 0 {
      assert a + b == b;
    } else {
      assert (a + b)[0] == a[0];
      assert (a + b)[1..] == a[1..] + b;
      JoinedAppend(a[1..], b, ingredients, cart, user);
    }
  }

  /** One row gives its item exactly once when its recipe is in the cart, and nothing otherwise. */
  lemma JoinedOne(row: RecipeIngredient, ingredients: map<IngredientId, Ingredient>, cart: seq<Link>, user: UserId)
    ensures InCart(row, ingredients, cart, user) ==> Joined([row], ingredients, cart, user) == [ItemOf(row, ingredients)]
    ensures !InCart(row, ingredients, cart, user) ==> Joined([row], ingredients, cart, user) == []
  {
    assert [row][1..] == [];
  }

  lemma ReverseAppend<T>(a: seq<T>, b: seq<T>)
    ensures Reverse(a + b) == Reverse(b) + Reverse(a)
  {
  }

  /** A row added to the table (the newest, with the highest key) comes
      first in the query, ahead of every older row, which keep their order. */
  lemma CartItemsNewestFirst(s: Store, user: UserId, row: RecipeIngredient)
    ensures CartItems(s.(amounts := s.amounts + [row]), user)
            == Joined([row], s.ingredients, s.cart, user) + CartItems(s, user)
  {
    JoinedAppend(s.amounts, [row], s.ingredients, s.cart, user);
    JoinedOne(row, s.ingredients, s.cart, user);
    ReverseAppend(Joined(s.amounts, s.ingredients, s.cart, user), Joined([row], s.ingredients, s.cart, user));
  }

  /** Dropping recipe `id`'s rows and cart entries leaves the query as it was
      for a user who does not have `id` in the cart. */
  lemma {:induction false} JoinedWithoutRecipe(rows: seq<RecipeIngredient>, ingredients: map<IngredientId, Ingredient>,
                                              cart: seq<Link>, cart': seq<Link>, user: UserId, id: RecipeId)
    requires Link(user, id) !in cart
    requires forall r :: r != id ==> (Link(user, r) in cart' <==> Link(user, r) in cart)
    ensures Joined(RecipeWrite.AmountsWithout(rows, id), ingredients, cart', user) == Joined(rows, ingredients, cart, user)
    decreases |rows|
  {
    if |rows| > 0 {
      var keep := RecipeWrite.OtherRecipe(id);
      var rest := Filter(rows[1..], keep);
      JoinedWithoutRecipe(rows[1..], ingredients, cart, cart', user, id);
      if rows[0].recipe != id {
        assert Filter(rows, keep) == [rows[0]] + rest;
        assert ([rows[0]] + rest)[1..] == rest;
        assert InCart(rows[0], ingredients, cart', user) == InCart(rows[0], ingredients, cart, user);
      } else {
        assert Filter(rows, keep) == rest;
        assert !InCart(rows[0], ingredients, cart, user);
      }
    }
  }

  /** Deleting a recipe that is not in `user`'s cart changes neither the
      query nor the text `user` downloads: the other rows keep their count
      and order, so every total and every kept unit stays the same. */
  lemma DeleteKeepsDownload(s: Store, id: RecipeId, user: UserId)
    requires Link(user, id) !in s.cart
    ensures CartItems(RecipeWrite.DeleteRecipe(s, id), user) == CartItems(s, user)
    ensures DownloadShoppingCart(RecipeWrite.DeleteRecipe(s, id), user) == DownloadShoppingCart(s, user)
  {
    var t := RecipeWrite.DeleteRecipe(s, id);
    JoinedWithoutRecipe(s.amounts, s.ingredients, s.cart, t.cart, user, id);
  }

  // ------------------------------------------------------------ folding

  function Names(items: seq<Item>): seq<string> {
    seq(|items|, k requires 0 <= k < |items| => items[k].name)
  }

  /** Where `name` first occurs among the items. */
  function FirstIndex(items: seq<Item>, name: string): (i: nat)
    requires name in Names(items)
    ensures i < |items| && items[i].name == name
    ensures forall j :: 0 <= j < i ==> items[j].name != name
    decreases |items|
  {
    if items[0].name == name then 0
    else
      assert Names(items[1..]) == Names(items)[1..];
      FirstIndex(items[1..], name) + 1
  }

  /** The total of the amounts of the items named `name`. */
  function SumFor(items: seq<Item>, name: string): int
    decreases |items|
  {
    if |items| == 0 then 0
    else SumFor(items[..|items| - 1], name) + (if items[|items| - 1].name == name then items[|items| - 1].amount else 0)
  }

  /** The position of the entry keyed `name`, if there is one. */
  function Find(es: seq<Item>, name: string): (r: Option<nat>)
    ensures r.Some? ==> r.value < |es| && es[r.value].name == name
    ensures r.None? ==> forall k :: 0 <= k < |es| ==> es[k].name != name
    decreases |es|
  {
    if |es| == 0 then None
    else if es[0].name == name then Some(0)
    else match Find(es[1..], name)
      case None => None
      case Some(k) => Some(k + 1)
  }

  /** One step of the loop: add to the entry of that name, or open a new
      entry at the end with this item's unit and amount. */
  function Insert(es: seq<Item>, it: Item): seq<Item> {
    match Find(es, it.name)
    case Some(k) => es[k := es[k].(amount := es[k].amount + it.amount)]
    case None => es + [Item(it.name, it.unit, it.amount)]
  }

  /** `es` is the table the loop builds from `items`: one entry per distinct
      name, every name of the items present, each entry holding the unit of
      the first item of its name and the total of that name's amounts, and
      the entries in order of the names' first occurrence. */
  ghost predicate Folds(items: seq<Item>, es: seq<Item>) {
    && (forall a, b :: 0 <= a < b < |es| ==> es[a].name != es[b].name)
    && (forall n :: n in Names(es) <==> n in Names(items))
    && (forall k :: 0 <= k < |es| ==>
          && es[k].name in Names(items)
          && es[k].unit == items[FirstIndex(items, es[k].name)].unit
          && es[k].amount == SumFor(items, es[k].name))
    && (forall a, b :: 0 <= a < b < |es| ==>
          es[a].name in Names(items) && es[b].name in Names(items)
          && FirstIndex(items, es[a].name) < FirstIndex(items, es[b].name))
  }

  /** The table the loop builds: the items inserted one after another. */
  function Aggregate(items: seq<Item>): seq<Item>
    decreases |items|
  {
    if |items| == 0 then [] else Insert(Aggregate(items[..|items| - 1]), items[|items| - 1])
  }

  /** The loop's table is the fold of its input. */
  lemma {:induction false} AggregateFolds(items: seq<Item>)
    ensures Folds(items, Aggregate(items))
    decreases |items|
  {
    if |items| > 0 {
      var xs := items[..|items| - 1];
      var it := items[|items| - 1];
      assert items == xs + [it];
      AggregateFolds(xs);
      InsertStep(xs, it, Aggregate(xs));
    }
  }

  lemma NamesSnoc(xs: seq<Item>, it: Item)
    ensures Names(xs + [it]) == Names(xs) + [it.name]
  {
  }

  /** Appending an item leaves the first occurrence of every earlier name where it was. */
  lemma FirstIndexSnoc(xs: seq<Item>, it: Item, name: string)
    requires name in Names(xs)
    ensures name in Names(xs + [it])
    ensures FirstIndex(xs + [it], name) == FirstIndex(xs, name)
  {
    NamesSnoc(xs, it);
    var i := FirstIndex(xs, name);
    var j := FirstIndex(xs + [it], name);
    assert (xs + [it])[i] == xs[i];
    if j < |xs| {
      assert (xs + [it])[j] == xs[j];
    }
  }

  /** A new name first occurs at the appended item. */
  lemma FirstIndexNew(xs: seq<Item>, it: Item)
    requires it.name !in Names(xs)
    ensures it.name in Names(xs + [it])
    ensures FirstIndex(xs + [it], it.name) == |xs|
  {
    NamesSnoc(xs, it);
    forall j | 0 <= j < |xs|
      ensures (xs + [it])[j].name != it.name
    {
      assert (xs + [it])[j] == xs[j];
      assert Names(xs)[j] == xs[j].name;
    }
  }

  lemma {:induction false} SumForAbsent(xs: seq<Item>, name: string)
    requires name !in Names(xs)
    ensures SumFor(xs, name) == 0
    decreases |xs|
  {
    if |xs| > 0 {
      var p := xs[..|xs| - 1];
      assert Names(p) == Names(xs)[..|xs| - 1];
      assert Names(xs)[|xs| - 1] == xs[|xs| - 1].name;
      SumForAbsent(p, name);
    }
  }

  lemma SumForSnoc(xs: seq<Item>, it: Item, name: string)
    ensures SumFor(xs + [it], name) == SumFor(xs, name) + (if it.name == name then it.amount else 0)
  {
    assert (xs + [it])[..|xs|] == xs;
  }

  /** Inserting the next item keeps the table a fold of the longer input. */
  lemma InsertStep(xs: seq<Item>, it: Item, prev: seq<Item>)
    requires Folds(xs, prev)
    ensures Folds(xs + [it], Insert(prev, it))
  {
    var found := Find(prev, it.name);
    if found.Some? {
      var k := found.value;
      InsertExisting(xs, it, prev, k);
      assert Insert(prev, it) == prev[k := prev[k].(amount := prev[k].amount + it.amount)];
    } else {
      InsertNew(xs, it, prev);
      assert Insert(prev, it) == prev + [Item(it.name, it.unit, it.amount)];
    }
  }

  lemma InsertExisting(xs: seq<Item>, it: Item, prev: seq<Item>, k: nat)
    requires Folds(xs, prev)
    requires k < |prev| && prev[k].name == it.name
    ensures Folds(xs + [it], prev[k := prev[k].(amount := prev[k].amount + it.amount)])
  {
    var items := xs + [it];
    var es := prev[k := prev[k].(amount := prev[k].amount + it.amount)];
    NamesSnoc(xs, it);
    assert Names(prev)[k] == it.name;
    assert Names(es) == Names(prev);
    forall j | 0 <= j < |es|
      ensures es[j].name in Names(items)
      ensures es[j].unit == items[FirstIndex(items, es[j].name)].unit
      ensures es[j].amount == SumFor(items, es[j].name)
    {
      FirstIndexSnoc(xs, it, prev[j].name);
      SumForSnoc(xs, it, prev[j].name);
      assert items[FirstIndex(xs, prev[j].name)] == xs[FirstIndex(xs, prev[j].name)];
    }
    forall a, b | 0 <= a < b < |es|
      ensures es[a].name in Names(items) && es[b].name in Names(items)
      ensures FirstIndex(items, es[a].name) < FirstIndex(items, es[b].name)
    {
      FirstIndexSnoc(xs, it, prev[a].name);
      FirstIndexSnoc(xs, it, prev[b].name);
    }
  }

  lemma InsertNew(xs: seq<Item>, it: Item, prev: seq<Item>)
    requires Folds(xs, prev)
    requires forall k :: 0 <= k < |prev| ==> prev[k].name != it.name
    ensures Folds(xs + [it], prev + [Item(it.name, it.unit, it.amount)])
  {
    var items := xs + [it];
    var e := Item(it.name, it.unit, it.amount);
    var es := prev + [e];
    NamesSnoc(xs, it);
    assert it.name !in Names(prev);
    assert Names(es) == Names(prev) + [it.name];
    FirstIndexNew(xs, it);
    SumForSnoc(xs, it, it.name);
    SumForAbsent(xs, it.name);
    forall j | 0 <= j < |prev|
      ensures es[j].name in Names(items)
      ensures es[j].unit == items[FirstIndex(items, es[j].name)].unit
      ensures es[j].amount == SumFor(items, es[j].name)
      ensures FirstIndex(items, es[j].name) < |xs|
    {
      assert es[j] == prev[j];
      FirstIndexSnoc(xs, it, prev[j].name);
      SumForSnoc(xs, it, prev[j].name);
      assert items[FirstIndex(xs, prev[j].name)] == xs[FirstIndex(xs, prev[j].name)];
    }
    assert es[|prev|] == e;
    forall a, b | 0 <= a < b < |es|
      ensures es[a].name in Names(items) && es[b].name in Names(items)
      ensures FirstIndex(items, es[a].name) < FirstIndex(items, es[b].name)
    {
      if b < |prev| {
        FirstIndexSnoc(xs, it, prev[a].name);
        FirstIndexSnoc(xs, it, prev[b].name);
      }
    }
  }

  // ------------------------------------------------------------ rendering

  function LineBody(e: Item): string {
    e.name + " (" + e.unit + ") - " + IntToString(e.amount)
  }

  /** One line of the file: `name (unit) - amount` and a newline. */
  function Line(e: Item): string {
    LineBody(e) + "\n"
  }

  /** The file text: the lines one after another, in table order. */
  function Render(es: seq<Item>): string
    decreases |es|
  {
    if |es| == 0 then "" else Line(es[0]) + Render(es[1..])
  }

  function ShoppingListText(items: seq<Item>): string {
    Render(Aggregate(items))
  }

  /** The text of the download for `user`. */
  function DownloadShoppingCart(s: Store, user: UserId): string {
    ShoppingListText(CartItems(s, user))
  }

  /** The download endpoint, open to signed-in users only. */
  function Download(s: Store, requester: Requester): (r: Result<string, DownloadError>)
    ensures r.Failure? <==> !IsAuthenticated(requester)
    ensures r.Success? ==> r.value == DownloadShoppingCart(s, requester.id)
  {
    if IsAuthenticated(requester) then Success(DownloadShoppingCart(s, requester.id)) else Failure(NotAuthenticated)
  }

  function LineBodies(es: seq<Item>): seq<string> {
    if |es| == 0 then [] else [LineBody(es[0])] + LineBodies(es[1..])
  }

  /** Newline-free names and units make a text whose newline-separated lines
      are exactly one line per entry, in order, and nothing after the last newline. */
  lemma {:induction false} RenderLines(es: seq<Item>)
    requires forall k :: 0 <= k < |es| ==> '\n' !in es[k].name && '\n' !in es[k].unit
    ensures Split(Render(es), "\n") == LineBodies(es) + [""]
    decreases |es|
  {
    if |es| == 0 {
      assert IndexOf("", "\n", 0).None?;
    } else {
      var body := LineBody(es[0]);
      IntToStringRoundTrip(es[0].amount);
      assert '\n' !in IntToString(es[0].amount);
      assert '\n' !in body;
      ContainsChar(body, '\n');
      assert Render(es) == body + "\n" + Render(es[1..]);
      SplitAfterHead(body, "\n", Render(es[1..]));
      RenderLines(es[1..]);
      assert LineBodies(es) == [body] + LineBodies(es[1..]);
    }
  }

  /** The download lists each distinct ingredient name of the cart once, in
      order of first occurrence, with its first unit and its total amount,
      and every total is at least one. */
  lemma DownloadMeaning(s: Store, user: UserId)
    requires Valid(s)
    ensures var items := CartItems(s, user); var es := Aggregate(items);
            && DownloadShoppingCart(s, user) == Render(es)
            && (forall k :: 0 <= k < |es| ==> es[k].amount >= 1)
            && (forall n :: n in Names(es) <==> n in Names(items))
  {
    var items := CartItems(s, user);
    var es := Aggregate(items);
    AggregateFolds(items);
    forall k | 0 <= k < |items|
      ensures items[k].amount >= 1
    {
      assert items[k] in items;
    }
    forall k | 0 <= k < |es|
      ensures es[k].amount >= 1
    {
      SumForPositive(items, es[k].name);
    }
  }

  /** A name that occurs, in items whose amounts are all at least one, totals at least one. */
  lemma {:induction false} SumForPositive(items: seq<Item>, name: string)
    requires forall k :: 0 <= k < |items| ==> items[k].amount >= 1
    requires name in Names(items)
    ensures SumFor(items, name) >= 1
    decreases |items|
  {
    var p := items[..|items| - 1];
    var last := items[|items| - 1];
    assert Names(p) == Names(items)[..|items| - 1];
    if name in Names(p) {
      SumForPositive(p, name);
      SumForNonNegative(p, name);
    } else {
      assert Names(items)[|items| - 1] == name;
      SumForAbsent(p, name);
    }
  }

  lemma {:induction false} SumForNonNegative(items: seq<Item>, name: string)
    requires forall k :: 0 <= k < |items| ==> items[k].amount >= 1
    ensures SumFor(items, name) >= 0
    decreases |items|
  {
    if |items| > 0 {
      SumForNonNegative(items[..|items| - 1], name);
    }
  }

  lemma AggregateSnoc(xs: seq<Item>, it: Item)
    ensures Aggregate(xs + [it]) == Insert(Aggregate(xs), it)
  {
    assert (xs + [it])[..|xs|] == xs;
  }

  /** Two rows of one name fold into one entry with the first row's unit
      and the sum of both amounts. */
  lemma FoldTwoOfOneName(first: Item, second: Item)
    requires first.name == second.name
    ensures Aggregate([first, second]) == [Item(first.name, first.unit, first.amount + second.amount)]
  {
    AggregateSnoc([], first);
    assert Aggregate([first]) == [first];
    AggregateSnoc([first], second);
    assert [first] + [second] == [first, second];
  }

  /** Two rows of flour in grams give one line with the sum. */
  lemma SameUnitExample()
    ensures ShoppingListText([Item("Flour", "g", 100), Item("Flour", "g", 50)]) == "Flour (g) - 150\n"
  {
    FoldTwoOfOneName(Item("Flour", "g", 100), Item("Flour", "g", 50));
    var e := Item("Flour", "g", 150);
    assert NatToString(150) == "150" by {
      assert NatToString(1) == "1";
      assert NatToString(15) == "15";
    }
    assert Render([e]) == Line(e);
  }

  /** Rows of one name in different units are added under the first unit. */
  lemma MixedUnitExample()
    ensures ShoppingListText([Item("Salt", "g", 5), Item("Salt", "kg", 1)]) == "Salt (g) - 6\n"
  {
    FoldTwoOfOneName(Item("Salt", "g", 5), Item("Salt", "kg", 1));
    var e := Item("Salt", "g", 6);
    assert Render([e]) == Line(e);
  }

  lemma {:induction false} JoinedNone(rows: seq<RecipeIngredient>, ingredients: map<IngredientId, Ingredient>,
                                     cart: seq<Link>, user: UserId)
    requires forall j :: 0 <= j < |rows| ==> !InCart(rows[j], ingredients, cart, user)
    ensures Joined(rows, ingredients, cart, user) == []
    decreases |rows|
  {
    if |rows| > 0 {
      assert !InCart(rows[0], ingredients, cart, user);
      assert forall j :: 0 <= j < |rows[1..]| ==> rows[1..][j] == rows[j + 1];
      JoinedNone(rows[1..], ingredients, cart, user);
    }
  }

  /** User 1 has recipes 1 and 2 in the cart, and each needs 5 g of salt. */
  function TwoSaltStore(): Store {
    Store({1}, map[7 := Ingredient("Salt", "g")], map[], map[1 := Recipe(1, "A", "", "", 1), 2 := Recipe(1, "B", "", "", 1)],
          [RecipeIngredient(1, 7, 5), RecipeIngredient(2, 7, 5)], [], [], [], [Link(1, 1), Link(1, 2)])
  }

  /** The example store satisfies every schema rule. */
  lemma TwoSaltStoreValid()
    ensures Valid(TwoSaltStore())
  {
    var s := TwoSaltStore();
    assert NoDup(s.cart) by {
      assert s.cart[0] != s.cart[1];
    }
  }

  lemma TwoSaltQuery()
    ensures CartItems(TwoSaltStore(), 1) == [Item("Salt", "g", 5), Item("Salt", "g", 5)]
  {
    var s := TwoSaltStore();
    var first, second := RecipeIngredient(1, 7, 5), RecipeIngredient(2, 7, 5);
    assert [first] + [second] == s.amounts;
    JoinedAppend([first], [second], s.ingredients, s.cart, 1);
    JoinedOne(first, s.ingredients, s.cart, 1);
    JoinedOne(second, s.ingredients, s.cart, 1);
  }

  lemma TwoSaltText()
    ensures ShoppingListText([Item("Salt", "g", 5), Item("Salt", "g", 5)]) == "Salt (g) - 10\n"
  {
    FoldTwoOfOneName(Item("Salt", "g", 5), Item("Salt", "g", 5));
    var e := Item("Salt", "g", 10);
    assert NatToString(10) == "10" by {
      assert NatToString(1) == "1";
    }
    assert Render([e]) == Line(e);
  }

  /** Two recipes in the cart that each need 5 g of salt give the salt row
      twice, and the line totals 10. */
  lemma TwoRecipesSameItemExample()
    ensures CartItems(TwoSaltStore(), 1) == [Item("Salt", "g", 5), Item("Salt", "g", 5)]
    ensures DownloadShoppingCart(TwoSaltStore(), 1) == "Salt (g) - 10\n"
  {
    TwoSaltQuery();
    TwoSaltText();
  }

  /** An empty cart downloads an empty text. */
  lemma EmptyCartEmptyText(s: Store, user: UserId)
    requires forall j :: 0 <= j < |s.amounts| ==> !InCart(s.amounts[j], s.ingredients, s.cart, user)
    ensures DownloadShoppingCart(s, user) == ""
  {
    JoinedNone(s.amounts, s.ingredients, s.cart, user);
  }
}
