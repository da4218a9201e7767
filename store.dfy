/** The store as the views change it: the cart, favorite and subscription
    toggles of `RecipeViewSet` and `CustomUserViewSet`
    (backend/api/views.py), recipe creation, update and deletion through
    `RecipeWriteSerializer.create`/`update` (backend/api/serializers.py),
    and the shopping-list download. The tables are fields of one object;
    each operation answers with a reply and changes the tables in place. */
module Store {
  import opened Prelude
  import opened Text
  import opened Models
  import opened DataUrl
  import opened RecipeWrite
  import opened ShoppingList
  import opened Access
  import opened Queries

  /** Why a toggle was refused (HTTP 400). */
  datatype Why = AlreadyPresent | NotPresent | SelfSubscription

  /** The answer of an operation. */
  datatype Reply =
    | Done
    | Created(id: Id)
    | Attachment(body: string)
    | NotFound
    | Denied(decision: Decision)
    | Conflict(why: Why)
    | BadRequest(errors: seq<(Field, Problem)>)
    | Failure

  // ---------------------------------------------------------------------
  // The specification of the writes

  /** The recipe `create` saves from validated data. */
  function NewRecipe(id: Id, author: Id, d: Validated, createdAt: nat): Recipe
    requires d.name.Some? && d.text.Some? && d.cookingTime.Some?
  {
    Recipe(id, author, d.name.value, d.image, d.text.value, d.tags, d.cookingTime.value, createdAt)
  }

  /** The recipe `update` saves: a field absent from the validated data
      keeps its value, and so does the image; the tags are replaced. */
  function UpdatedRecipe(o: Recipe, d: Validated): Recipe {
    o.(name := if d.name.Some? then d.name.value else o.name,
       text := if d.text.Some? then d.text.value else o.text,
       cookingTime := if d.cookingTime.Some? then d.cookingTime.value else o.cookingTime,
       image := if d.image.Some? then d.image else o.image,
       tags := d.tags)
  }

  /** The join rows after `update`: the recipe's rows are cleared, then one
      row per submitted entry is added. */
  function ReplaceRows(rows: seq<JoinRow>, id: Id, entries: seq<Entry>): seq<JoinRow>
    requires Complete(entries)
  {
    Filter((x: JoinRow) => x.recipe != id, rows) + JoinRowsFor(id, entries)
  }

  /** Adding a pair that was absent and removing it again restores the
      relation exactly. */
  lemma AddThenRemove(s: seq<Pair>, p: Pair)
    requires p !in s
    ensures Filter(Other(p), s + [p]) == s
  {
    FilterAppend(Other(p), s, [p]);
    FilterKeepsAll(Other(p), s);
    assert Filter(Other(p), [p]) == [] by {
      FilterKeepsNone(Other(p), [p]);
    }
  }

  /** Removing a pair from a relation without repeats removes it and
      keeps every other pair. */
  lemma RemoveExactly(s: seq<Pair>, p: Pair)
    requires Unique(s)
    ensures p !in Filter(Other(p), s) && Unique(Filter(Other(p), s))
    ensures forall q :: q != p ==> (q in Filter(Other(p), s) <==> q in s)
    ensures p in s ==> |Filter(Other(p), s)| == |s| - 1
  {
    FilterKeepsUnique(Other(p), s);
    if p in s {
      ElementsCount(s);
      ElementsCount(Filter(Other(p), s));
      assert Elements(Filter(Other(p), s)) == Elements(s) - {p};
    }
  }

  /** After `update` the recipe has exactly the rows built from the
      submitted entries, with no row left over from before, and every
      other recipe keeps its rows. */
  lemma ReplaceRowsExactly(rows: seq<JoinRow>, id: Id, entries: seq<Entry>)
    requires Complete(entries)
    ensures RowsOf(ReplaceRows(rows, id, entries), id) == JoinRowsFor(id, entries)
    ensures forall other: Id :: other != id ==> RowsOf(ReplaceRows(rows, id, entries), other) == RowsOf(rows, other)
  {
    var kept := Filter((x: JoinRow) => x.recipe != id, rows);
    var added := JoinRowsFor(id, entries);
    var mine := (x: JoinRow) => x.recipe == id;
    FilterAppend(mine, kept, added);
    FilterKeepsNone(mine, kept);
    FilterKeepsAll(mine, added);
    forall other: Id | other != id
      ensures RowsOf(ReplaceRows(rows, id, entries), other) == RowsOf(rows, other)
    {
      var theirs := (x: JoinRow) => x.recipe == other;
      FilterAppend(theirs, kept, added);
      FilterKeepsNone(theirs, added);
      FilterNarrower(theirs, (x: JoinRow) => x.recipe != id, rows);
    }
  }

  /** Read after update: the recipe then shows exactly the submitted ids
      and amounts, in the submitted order when the join rows are read in
      table order, and nothing from before. */
  lemma UpdateShowsSubmitted(st: Store, id: Id, entries: seq<Entry>, rules: Rules)
    requires WellFormedIngredients(entries, IngredientIds(st.ingredients), rules)
    ensures Complete(entries)
    ensures var shown := RecipeIngredients(st.(rows := ReplaceRows(st.rows, id, entries)), id);
      && |shown| == |entries|
      && forall k :: 0 <= k < |entries| ==>
           shown[k].id == entries[k].id.value && shown[k].amount == entries[k].amount.value
  {
    JoinRowsMatchEntries(id, entries, IngredientIds(st.ingredients), rules);
    ReplaceRowsExactly(st.rows, id, entries);
    ShapeFollowsRows(JoinRowsFor(id, entries), st.ingredients);
  }

  /** What `update` keeps and replaces, stated against the request: a name,
      text or cooking time that was not sent keeps its value, a sent one is
      taken (the text fields stripped); an image that was not sent keeps
      the old one; the tags become exactly the sent ones. */
  lemma UpdateKeepsAbsentFields(o: Recipe, p: Payload, partial: bool, ingredients: seq<Ingredient>, tags: seq<Tag>,
                                b64decode: string -> Option<seq<bv8>>, isImage: ImageFile -> bool)
    requires IsValid(p, partial, ingredients, tags, b64decode, isImage, Corrected).Valid?
    ensures var u := UpdatedRecipe(o, IsValid(p, partial, ingredients, tags, b64decode, isImage, Corrected).data);
      && u.id == o.id && u.author == o.author && u.createdAt == o.createdAt
      && (p.name.None? ==> u.name == o.name)
      && (p.name.Some? ==> u.name == Strip(p.name.value))
      && (p.text.None? ==> u.text == o.text)
      && (p.text.Some? ==> u.text == Strip(p.text.value))
      && (p.cookingTime.None? ==> u.cookingTime == o.cookingTime)
      && (p.cookingTime.Some? ==> u.cookingTime == p.cookingTime.value)
      && (p.image.None? ==> u.image == o.image)
      && (p.image.Some? ==> u.image.Some?)
      && p.tags.Some? && u.tags == Elements(p.tags.value)
  {
    ValidIff(p, partial, ingredients, tags, b64decode, isImage, Corrected);
    ValidCarriesPayload(p, partial, ingredients, tags, b64decode, isImage, Corrected);
  }

  /** Validated data the store can take: an accepted ingredient list,
      existing tags (at least one), and a bounded cooking time. */
  ghost predicate Acceptable(d: Validated, ingredients: seq<Ingredient>, tags: seq<Tag>) {
    && WellFormedIngredients(d.ingredients, IngredientIds(ingredients), Corrected)
    && d.tags != {} && d.tags <= TagIds(tags)
    && (d.cookingTime.Some? ==> InBounds(d.cookingTime.value))
  }

  /** Whatever the corrected validation accepts, the store can take; on a
      full update or a create every field is there. */
  lemma ValidatedIsAcceptable(p: Payload, partial: bool, ingredients: seq<Ingredient>, tags: seq<Tag>,
                              b64decode: string -> Option<seq<bv8>>, isImage: ImageFile -> bool)
    requires IsValid(p, partial, ingredients, tags, b64decode, isImage, Corrected).Valid?
    ensures Acceptable(IsValid(p, partial, ingredients, tags, b64decode, isImage, Corrected).data, ingredients, tags)
    ensures !partial ==>
      var d := IsValid(p, partial, ingredients, tags, b64decode, isImage, Corrected).data;
      d.name.Some? && d.text.Some? && d.cookingTime.Some?
  {
    ValidIff(p, partial, ingredients, tags, b64decode, isImage, Corrected);
    ValidCarriesPayload(p, partial, ingredients, tags, b64decode, isImage, Corrected);
    CorrectedKeepsBounds(p, partial, ingredients, tags, b64decode, isImage);
    assert p.tags.value[0] in p.tags.value;
  }

  // ---------------------------------------------------------------------
  // The declarations of the store kept by each write

  /** Inserting a recipe with a fresh key, created after every other one,
      by a user, with bounded cooking time and existing tags. */
  lemma PrependKeepsConsistent(st: Store, r: Recipe)
    requires Consistent(st)
    requires r.id !in RecipeIds(st.recipes)
    requires forall x :: x in st.recipes ==> x.createdAt < r.createdAt
    requires r.author in st.users && InBounds(r.cookingTime) && r.tags != {} && r.tags <= TagIds(st.tags)
    ensures Consistent(st.(recipes := [r] + st.recipes))
    ensures RecipeIds([r] + st.recipes) == RecipeIds(st.recipes) + {r.id}
  {
    var s := [r] + st.recipes;
    forall i, j | 0 <= i < j < |s| ensures s[i].id != s[j].id && s[i].createdAt > s[j].createdAt {
      assert s[j] == st.recipes[j - 1];
      if i > 0 {
        assert s[i] == st.recipes[i - 1];
      } else {
        assert s[j] in st.recipes;
      }
    }
    assert RecipeIds(s) == RecipeIds(st.recipes) + {r.id};
  }

  /** Replacing a recipe by one with the same key, author and creation
      time, bounded cooking time and existing tags. */
  lemma ReplaceKeepsConsistent(st: Store, k: nat, u: Recipe)
    requires Consistent(st) && k < |st.recipes|
    requires u.id == st.recipes[k].id && u.author == st.recipes[k].author && u.createdAt == st.recipes[k].createdAt
    requires InBounds(u.cookingTime) && u.tags != {} && u.tags <= TagIds(st.tags)
    ensures Consistent(st.(recipes := st.recipes[k := u]))
    ensures RecipeIds(st.recipes[k := u]) == RecipeIds(st.recipes)
  {
    var s := st.recipes[k := u];
    forall i | 0 <= i < |s| ensures s[i].id == st.recipes[i].id && s[i].createdAt == st.recipes[i].createdAt {}
    assert RecipeIds(s) == RecipeIds(st.recipes) by {
      forall id | id in RecipeIds(st.recipes) ensures id in RecipeIds(s) {
        var x :| x in st.recipes && x.id == id;
        var i :| 0 <= i < |st.recipes| && st.recipes[i] == x;
        assert s[i].id == id;
      }
      forall id | id in RecipeIds(s) ensures id in RecipeIds(st.recipes) {
        var x :| x in s && x.id == id;
        var i :| 0 <= i < |s| && s[i] == x;
        assert st.recipes[i].id == id;
      }
    }
    forall x | x in s ensures x.author in st.users && InBounds(x.cookingTime) && x.tags != {} && x.tags <= TagIds(st.tags) {
      var i :| 0 <= i < |s| && s[i] == x;
      if i != k {
        assert st.recipes[i] in st.recipes;
      }
    }
  }

  /** Every recipe was created before `clock` and has a key below
      `nextId`. */
  ghost predicate Stamped(recipes: seq<Recipe>, clock: nat, nextId: Id) {
    forall r :: r in recipes ==> r.createdAt < clock && r.id < nextId
  }

  /** Deleting a recipe with everything that refers to it keeps every
      declaration and every stamp. */
  lemma DeleteKeepsValid(st: Store, id: Id, clock: nat, nextId: Id)
    requires Consistent(st) && Stamped(st.recipes, clock, nextId)
    ensures Consistent(DeleteRecipe(st, id)) && Stamped(DeleteRecipe(st, id).recipes, clock, nextId)
  {
    CascadeKeepsConsistent(st, id);
  }

  /** Dropping join rows keeps every declaration. */
  lemma DropRowsKeepsConsistent(st: Store, p: JoinRow -> bool)
    requires Consistent(st)
    ensures Consistent(st.(rows := Filter(p, st.rows)))
  {
    FilterKeepsJoinRowsUnique(p, st.rows);
  }

  /** Adding the rows of a recipe that has none, each naming an existing
      ingredient once with a bounded amount. */
  lemma AddRowsKeepsConsistent(st: Store, id: Id, added: seq<JoinRow>)
    requires Consistent(st) && id in RecipeIds(st.recipes)
    requires forall row :: row in st.rows ==> row.recipe != id
    requires forall row :: row in added ==>
      row.recipe == id && row.ingredient in IngredientIds(st.ingredients) && InBounds(row.amount)
    requires JoinRowsUnique(added)
    ensures Consistent(st.(rows := st.rows + added))
  {
    var s := st.rows + added;
    forall i, j | 0 <= i < j < |s| ensures s[i].ingredient != s[j].ingredient || s[i].recipe != s[j].recipe {
      if j < |st.rows| {
        assert s[i] == st.rows[i] && s[j] == st.rows[j];
      } else if i < |st.rows| {
        assert s[i] in st.rows && s[j] in added;
      } else {
        assert s[i] == added[i - |st.rows|] && s[j] == added[j - |st.rows|];
      }
    }
  }

  // ---------------------------------------------------------------------
  // The tables

  class Database {
    var users: set<Id>
    var ingredients: seq<Ingredient>
    var tags: seq<Tag>
    var recipes: seq<Recipe>
    var rows: seq<JoinRow>
    var cart: seq<Pair>
    var favorites: seq<Pair>
    var subscriptions: seq<Pair>
    /** The value the creation clock gives the next recipe. */
    var clock: nat
    /** The next recipe key the database hands out. */
    var nextId: Id

    function Snapshot(): Store
      reads this
    {
      Store(users, ingredients, tags, recipes, rows, cart, favorites, subscriptions)
    }

    /** The declarations hold, and every stored recipe was created before
        the clock's value and has a key below the next one. */
    ghost predicate Valid()
      reads this
    {
      && Consistent(Snapshot())
      && Stamped(recipes, clock, nextId)
    }

    /** A store with the given users, ingredients and tags and nothing
        else. */
    constructor(users: set<Id>, ingredients: seq<Ingredient>, tags: seq<Tag>)
      requires IngredientKeys(ingredients) && IngredientsByName(ingredients)
      requires TagKeys(tags) && TagsByName(tags)
      ensures Valid()
      ensures Snapshot() == Store(users, ingredients, tags, [], [], [], [], [])
    {
      this.users := users;
      this.ingredients := ingredients;
      this.tags := tags;
      recipes := [];
      rows := [];
      cart := [];
      favorites := [];
      subscriptions := [];
      clock := 0;
      nextId := 0;
    }

    // -------------------------------------------------------------------
    // Cart and favorites

    /** `add_to_shopping_cart`: the user must be logged in and the recipe
        must exist; a recipe already in the cart is refused; otherwise
        exactly the pair (user, recipe) is added. */
    method AddToCart(viewer: Option<Id>, recipe: Id) returns (r: Reply)
      requires Valid() && (viewer.Some? ==> viewer.value in users)
      modifies this
      ensures Valid() && clock == old(clock) && nextId == old(nextId)
      ensures viewer.None? ==> r == Denied(NotAuthenticated) && Snapshot() == old(Snapshot())
      ensures viewer.Some? && recipe !in RecipeIds(old(recipes)) ==> r == NotFound && Snapshot() == old(Snapshot())
      ensures viewer.Some? && recipe in RecipeIds(old(recipes)) && Pair(viewer.value, recipe) in old(cart) ==>
        r == Conflict(AlreadyPresent) && Snapshot() == old(Snapshot())
      ensures viewer.Some? && recipe in RecipeIds(old(recipes)) && Pair(viewer.value, recipe) !in old(cart) ==>
        r == Done && Snapshot() == old(Snapshot()).(cart := old(cart) + [Pair(viewer.value, recipe)])
    {
      var d := RecipeRequest(RecipeAction.AddToCart, viewer, Corrected);
      if !d.Allowed? {
        return Denied(d);
      }
      if recipe !in RecipeIds(recipes) {
        return NotFound;
      }
      var p := Pair(viewer.value, recipe);
      if p in cart {
        return Conflict(AlreadyPresent);
      }
      UniqueSnoc(cart, p);
      cart := cart + [p];
      return Done;
    }

    /** `remove_from_shopping_cart`: a recipe not in the cart is refused;
        otherwise exactly the pair (user, recipe) is removed. */
    method RemoveFromCart(viewer: Option<Id>, recipe: Id) returns (r: Reply)
      requires Valid()
      modifies this
      ensures Valid() && clock == old(clock) && nextId == old(nextId)
      ensures viewer.None? ==> r == Denied(NotAuthenticated) && Snapshot() == old(Snapshot())
      ensures viewer.Some? && recipe !in RecipeIds(old(recipes)) ==> r == NotFound && Snapshot() == old(Snapshot())
      ensures viewer.Some? && recipe in RecipeIds(old(recipes)) && Pair(viewer.value, recipe) !in old(cart) ==>
        r == Conflict(NotPresent) && Snapshot() == old(Snapshot())
      ensures viewer.Some? && recipe in RecipeIds(old(recipes)) && Pair(viewer.value, recipe) in old(cart) ==>
        r == Done && Snapshot() == old(Snapshot()).(cart := Filter(Other(Pair(viewer.value, recipe)), old(cart)))
    {
      var d := RecipeRequest(RecipeAction.RemoveFromCart, viewer, Corrected);
      if !d.Allowed? {
        return Denied(d);
      }
      if recipe !in RecipeIds(recipes) {
        return NotFound;
      }
      var p := Pair(viewer.value, recipe);
      if p !in cart {
        return Conflict(NotPresent);
      }
      FilterKeepsUnique(Other(p), cart);
      cart := Filter(Other(p), cart);
      return Done;
    }

    /** `add_to_favorite`: the same rules as the cart. */
    method AddFavorite(viewer: Option<Id>, recipe: Id) returns (r: Reply)
      requires Valid() && (viewer.Some? ==> viewer.value in users)
      modifies this
      ensures Valid() && clock == old(clock) && nextId == old(nextId)
      ensures viewer.None? ==> r == Denied(NotAuthenticated) && Snapshot() == old(Snapshot())
      ensures viewer.Some? && recipe !in RecipeIds(old(recipes)) ==> r == NotFound && Snapshot() == old(Snapshot())
      ensures viewer.Some? && recipe in RecipeIds(old(recipes)) && Pair(viewer.value, recipe) in old(favorites) ==>
        r == Conflict(AlreadyPresent) && Snapshot() == old(Snapshot())
      ensures viewer.Some? && recipe in RecipeIds(old(recipes)) && Pair(viewer.value, recipe) !in old(favorites) ==>
        r == Done && Snapshot() == old(Snapshot()).(favorites := old(favorites) + [Pair(viewer.value, recipe)])
    {
      var d := RecipeRequest(RecipeAction.AddFavorite, viewer, Corrected);
      if !d.Allowed? {
        return Denied(d);
      }
      if recipe !in RecipeIds(recipes) {
        return NotFound;
      }
      var p := Pair(viewer.value, recipe);
      if p in favorites {
        return Conflict(AlreadyPresent);
      }
      UniqueSnoc(favorites, p);
      favorites := favorites + [p];
      return Done;
    }

    /** `remove_from_favorite`. */
    method RemoveFavorite(viewer: Option<Id>, recipe: Id) returns (r: Reply)
      requires Valid()
      modifies this
      ensures Valid() && clock == old(clock) && nextId == old(nextId)
      ensures viewer.None? ==> r == Denied(NotAuthenticated) && Snapshot() == old(Snapshot())
      ensures viewer.Some? && recipe !in RecipeIds(old(recipes)) ==> r == NotFound && Snapshot() == old(Snapshot())
      ensures viewer.Some? && recipe in RecipeIds(old(recipes)) && Pair(viewer.value, recipe) !in old(favorites) ==>
        r == Conflict(NotPresent) && Snapshot() == old(Snapshot())
      ensures viewer.Some? && recipe in RecipeIds(old(recipes)) && Pair(viewer.value, recipe) in old(favorites) ==>
        r == Done && Snapshot() == old(Snapshot()).(favorites := Filter(Other(Pair(viewer.value, recipe)), old(favorites)))
    {
      var d := RecipeRequest(RecipeAction.RemoveFavorite, viewer, Corrected);
      if !d.Allowed? {
        return Denied(d);
      }
      if recipe !in RecipeIds(recipes) {
        return NotFound;
      }
      var p := Pair(viewer.value, recipe);
      if p !in favorites {
        return Conflict(NotPresent);
      }
      FilterKeepsUnique(Other(p), favorites);
      favorites := Filter(Other(p), favorites);
      return Done;
    }

    // -------------------------------------------------------------------
    // Subscriptions

    /** `subscribe`: the author must exist; subscribing to oneself is
        refused before the duplicate check; a repeated subscription is
        refused; otherwise exactly the pair (user, author) is added. */
    method Subscribe(viewer: Option<Id>, author: Id) returns (r: Reply)
      requires Valid() && (viewer.Some? ==> viewer.value in users)
      modifies this
      ensures Valid() && clock == old(clock) && nextId == old(nextId)
      ensures viewer.None? ==> r == Denied(NotAuthenticated) && Snapshot() == old(Snapshot())
      ensures viewer.Some? && author !in old(users) ==> r == NotFound && Snapshot() == old(Snapshot())
      ensures viewer.Some? && author in old(users) && author == viewer.value ==>
        r == Conflict(SelfSubscription) && Snapshot() == old(Snapshot())
      ensures viewer.Some? && author in old(users) && author != viewer.value && Pair(viewer.value, author) in old(subscriptions) ==>
        r == Conflict(AlreadyPresent) && Snapshot() == old(Snapshot())
      ensures viewer.Some? && author in old(users) && author != viewer.value && Pair(viewer.value, author) !in old(subscriptions) ==>
        r == Done && Snapshot() == old(Snapshot()).(subscriptions := old(subscriptions) + [Pair(viewer.value, author)])
    {
      var d := CheckUserAction(UserAction.Subscribe, viewer);
      if !d.Allowed? {
        return Denied(d);
      }
      if author !in users {
        return NotFound;
      }
      var user := viewer.value;
      if user == author {
        return Conflict(SelfSubscription);
      }
      var p := Pair(user, author);
      if p in subscriptions {
        return Conflict(AlreadyPresent);
      }
      UniqueSnoc(subscriptions, p);
      subscriptions := subscriptions + [p];
      return Done;
    }

    /** `unsubscribe`: the author must exist; a missing subscription is
        refused; otherwise exactly that pair is removed. */
    method Unsubscribe(viewer: Option<Id>, author: Id) returns (r: Reply)
      requires Valid()
      modifies this
      ensures Valid() && clock == old(clock) && nextId == old(nextId)
      ensures viewer.None? ==> r == Denied(NotAuthenticated) && Snapshot() == old(Snapshot())
      ensures viewer.Some? && author !in old(users) ==> r == NotFound && Snapshot() == old(Snapshot())
      ensures viewer.Some? && author in old(users) && Pair(viewer.value, author) !in old(subscriptions) ==>
        r == Conflict(NotPresent) && Snapshot() == old(Snapshot())
      ensures viewer.Some? && author in old(users) && Pair(viewer.value, author) in old(subscriptions) ==>
        r == Done && Snapshot() == old(Snapshot()).(subscriptions := Filter(Other(Pair(viewer.value, author)), old(subscriptions)))
    {
      var d := CheckUserAction(UserAction.Unsubscribe, viewer);
      if !d.Allowed? {
        return Denied(d);
      }
      if author !in users {
        return NotFound;
      }
      var p := Pair(viewer.value, author);
      if p !in subscriptions {
        return Conflict(NotPresent);
      }
      FilterKeepsUnique(Other(p), subscriptions);
      subscriptions := Filter(Other(p), subscriptions);
      return Done;
    }

    // -------------------------------------------------------------------
    // Recipes

    /** `create_ingredients`: one row per entry, collected in a list and
        inserted at once. Every id names an ingredient (validation checked
        it), so the lookup of each ingredient cannot fail. */
    method CreateIngredients(recipe: Id, entries: seq<Entry>)
      requires Valid() && recipe in RecipeIds(recipes)
      requires WellFormedIngredients(entries, IngredientIds(ingredients), Corrected)
      requires forall row :: row in rows ==> row.recipe != recipe
      modifies this
      ensures Complete(entries)
      ensures Valid() && clock == old(clock) && nextId == old(nextId)
      ensures Snapshot() == old(Snapshot()).(rows := old(rows) + JoinRowsFor(recipe, entries))
    {
      JoinRowsMatchEntries(recipe, entries, IngredientIds(ingredients), Corrected);
      var list: seq<JoinRow> := [];
      for i := 0 to |entries|
        invariant |list| == i
        invariant forall k :: 0 <= k < i ==> list[k] == JoinRow(entries[k].id.value as nat, recipe, entries[k].amount.value)
      {
        assert entries[i] in entries;
        list := list + [JoinRow(entries[i].id.value as nat, recipe, entries[i].amount.value)];
      }
      assert list == JoinRowsFor(recipe, entries);
      AddRowsKeepsConsistent(Snapshot(), recipe, list);
      rows := rows + list;
    }

    /** The save of `create`: the recipe becomes the newest one, with the
        next key, and its join rows are added. */
    method InsertRecipe(author: Id, data: Validated) returns (id: Id)
      requires Valid() && author in users
      requires Acceptable(data, ingredients, tags)
      requires data.name.Some? && data.text.Some? && data.cookingTime.Some?
      modifies this
      ensures Valid() && id == old(nextId) && Complete(data.ingredients)
      ensures Snapshot() == old(Snapshot()).(
        recipes := [NewRecipe(id, author, data, old(clock))] + old(recipes),
        rows := old(rows) + JoinRowsFor(id, data.ingredients))
      ensures clock == old(clock) + 1 && nextId == old(nextId) + 1
    {
      id := nextId;
      var recipe := NewRecipe(id, author, data, clock);
      assert id !in RecipeIds(recipes);
      PrependKeepsConsistent(Snapshot(), recipe);
      recipes := [recipe] + recipes;
      clock := clock + 1;
      nextId := nextId + 1;
      CreateIngredients(id, data.ingredients);
    }

    /** The save of `update`: the recipe at position `k` keeps what was
        not sent and takes the tags, and its join rows are replaced. */
    method ReplaceRecipe(k: nat, data: Validated)
      requires Valid() && k < |recipes|
      requires Acceptable(data, ingredients, tags)
      modifies this
      ensures Valid() && clock == old(clock) && nextId == old(nextId) && Complete(data.ingredients)
      ensures Snapshot() == old(Snapshot()).(
        recipes := old(recipes)[k := UpdatedRecipe(old(recipes)[k], data)],
        rows := ReplaceRows(old(rows), old(recipes)[k].id, data.ingredients))
    {
      var current := recipes[k];
      var id := current.id;
      var updated := UpdatedRecipe(current, data);
      assert current in recipes;
      ReplaceKeepsConsistent(Snapshot(), k, updated);
      recipes := recipes[k := updated];
      assert Stamped(recipes, clock, nextId) by {
        forall x | x in recipes ensures x.createdAt < clock && x.id < nextId {
          var i :| 0 <= i < |recipes| && recipes[i] == x;
          assert old(recipes)[i] in old(recipes);
        }
      }
      DropRowsKeepsConsistent(Snapshot(), (x: JoinRow) => x.recipe != id);
      rows := Filter((x: JoinRow) => x.recipe != id, rows);
      CreateIngredients(id, data.ingredients);
    }

    /** `create`: a logged-in user; the request validated with every field
        required; then the recipe is inserted as the newest one, with the
        submitted tags, and its join rows are added. */
    method CreateRecipe(viewer: Option<Id>, p: Payload, b64decode: string -> Option<seq<bv8>>, isImage: ImageFile -> bool)
      returns (r: Reply)
      requires Valid() && (viewer.Some? ==> viewer.value in users)
      modifies this
      ensures Valid()
      ensures viewer.None? ==>
        r == Denied(NotAuthenticated) && Snapshot() == old(Snapshot()) && clock == old(clock) && nextId == old(nextId)
      ensures viewer.Some? ==>
        var o := IsValid(p, false, old(ingredients), old(tags), b64decode, isImage, Corrected);
        && (o.ServerError? ==> r == Failure)
        && (o.Invalid? ==> r == BadRequest(o.errors))
        && (!o.Valid? ==> Snapshot() == old(Snapshot()) && clock == old(clock) && nextId == old(nextId))
        && (o.Valid? ==>
              && o.data.name.Some? && o.data.text.Some? && o.data.cookingTime.Some? && Complete(o.data.ingredients)
              && r == Created(old(nextId))
              && Snapshot() == old(Snapshot()).(
                   recipes := [NewRecipe(old(nextId), viewer.value, o.data, old(clock))] + old(recipes),
                   rows := old(rows) + JoinRowsFor(old(nextId), o.data.ingredients))
              && clock == old(clock) + 1 && nextId == old(nextId) + 1)
    {
      var d := RecipeRequest(Create, viewer, Corrected);
      if !d.Allowed? {
        return Denied(d);
      }
      var o := IsValid(p, false, ingredients, tags, b64decode, isImage, Corrected);
      if o.ServerError? {
        return Failure;
      }
      if o.Invalid? {
        return BadRequest(o.errors);
      }
      ValidatedIsAcceptable(p, false, ingredients, tags, b64decode, isImage);
      var id := InsertRecipe(viewer.value, o.data);
      return Created(id);
    }

    /** `update` (PUT, or PATCH with `partial`): 401 without a user, 404 for
        an unknown recipe, 403 for anybody but its author, then validation;
        the recipe keeps whatever was not sent, takes the submitted tags,
        and its join rows are replaced by the submitted ones. */
    method UpdateRecipe(viewer: Option<Id>, id: Id, p: Payload, partial: bool,
                        b64decode: string -> Option<seq<bv8>>, isImage: ImageFile -> bool)
      returns (r: Reply)
      requires Valid()
      modifies this
      ensures Valid() && clock == old(clock) && nextId == old(nextId)
      ensures viewer.None? ==> r == Denied(NotAuthenticated) && Snapshot() == old(Snapshot())
      ensures viewer.Some? && FindRecipe(old(recipes), id).None? ==> r == NotFound && Snapshot() == old(Snapshot())
      ensures viewer.Some? && FindRecipe(old(recipes), id).Some? ==>
        var k := FindRecipe(old(recipes), id).value;
        var o := IsValid(p, partial, old(ingredients), old(tags), b64decode, isImage, Corrected);
        && (old(recipes)[k].author != viewer.value ==> r == Denied(PermissionDenied) && Snapshot() == old(Snapshot()))
        && (old(recipes)[k].author == viewer.value ==>
              && (o.ServerError? ==> r == Failure && Snapshot() == old(Snapshot()))
              && (o.Invalid? ==> r == BadRequest(o.errors) && Snapshot() == old(Snapshot()))
              && (o.Valid? ==>
                    && r == Done && Complete(o.data.ingredients)
                    && Snapshot() == old(Snapshot()).(
                         recipes := old(recipes)[k := UpdatedRecipe(old(recipes)[k], o.data)],
                         rows := ReplaceRows(old(rows), id, o.data.ingredients))))
    {
      var action := if partial then PartialUpdate else Update;
      var d := RecipeRequest(action, viewer, Corrected);
      if !d.Allowed? {
        OnlyAuthorChanges(action, viewer, 0, Corrected);
        return Denied(d);
      }
      var found := FindRecipe(recipes, id);
      if found.None? {
        return NotFound;
      }
      var k := found.value;
      OnlyAuthorChanges(action, viewer, recipes[k].author, Corrected);
      var od := RecipeObject(action, viewer, recipes[k].author, Corrected);
      if !od.Allowed? {
        return Denied(od);
      }
      var o := IsValid(p, partial, ingredients, tags, b64decode, isImage, Corrected);
      if o.ServerError? {
        return Failure;
      }
      if o.Invalid? {
        return BadRequest(o.errors);
      }
      ValidatedIsAcceptable(p, partial, ingredients, tags, b64decode, isImage);
      ReplaceRecipe(k, o.data);
      return Done;
    }

    /** `destroy`: 401 without a user, 404 for an unknown recipe, 403 for
        anybody but its author; otherwise the recipe is deleted with its
        join rows, cart rows and favorite rows. */
    method DestroyRecipe(viewer: Option<Id>, id: Id) returns (r: Reply)
      requires Valid()
      modifies this
      ensures Valid() && clock == old(clock) && nextId == old(nextId)
      ensures viewer.None? ==> r == Denied(NotAuthenticated) && Snapshot() == old(Snapshot())
      ensures viewer.Some? && FindRecipe(old(recipes), id).None? ==> r == NotFound && Snapshot() == old(Snapshot())
      ensures viewer.Some? && FindRecipe(old(recipes), id).Some? ==>
        var k := FindRecipe(old(recipes), id).value;
        && (old(recipes)[k].author != viewer.value ==> r == Denied(PermissionDenied) && Snapshot() == old(Snapshot()))
        && (old(recipes)[k].author == viewer.value ==> r == Done && Snapshot() == DeleteRecipe(old(Snapshot()), id))
    {
      var d := RecipeRequest(Destroy, viewer, Corrected);
      if !d.Allowed? {
        OnlyAuthorChanges(Destroy, viewer, 0, Corrected);
        return Denied(d);
      }
      var found := FindRecipe(recipes, id);
      if found.None? {
        return NotFound;
      }
      var current := recipes[found.value];
      OnlyAuthorChanges(Destroy, viewer, current.author, Corrected);
      var od := RecipeObject(Destroy, viewer, current.author, Corrected);
      if !od.Allowed? {
        return Denied(od);
      }
      RemoveRecipe(id);
      return Done;
    }

    /** The delete of `destroy`: the recipe goes, and the join rows, cart
        rows and favorite rows that name it go with it. */
    method RemoveRecipe(id: Id)
      requires Valid()
      modifies this
      ensures Valid() && clock == old(clock) && nextId == old(nextId)
      ensures Snapshot() == DeleteRecipe(old(Snapshot()), id)
    {
      var st := DeleteRecipe(Snapshot(), id);
      DeleteKeepsValid(Snapshot(), id, clock, nextId);
      recipes := st.recipes;
      rows := st.rows;
      cart := st.cart;
      favorites := st.favorites;
      assert Snapshot() == st;
    }

    // -------------------------------------------------------------------
    // The shopping list

    /** `download_shopping_cart`: the aggregated groups rendered one line at
        a time. As written the permission override lets an anonymous
        request through, and the view then fails because an anonymous user
        has no cart; corrected, the request is refused with 401. */
    method DownloadShoppingCart(viewer: Option<Id>, rules: Rules) returns (r: Reply)
      ensures viewer.Some? ==> r == Attachment(ShoppingListText(Snapshot(), viewer.value))
      ensures viewer.None? && rules.AsWritten? ==> r == Failure
      ensures viewer.None? && rules.Corrected? ==> r == Denied(NotAuthenticated)
    {
      OverrideDiffersOnlyOnDownload(RecipeAction.DownloadShoppingCart, viewer);
      var d := RecipeRequest(RecipeAction.DownloadShoppingCart, viewer, rules);
      if !d.Allowed? {
        return Denied(d);
      }
      if viewer.None? {
        return Failure;
      }
      var groups := Aggregate(CartItems(Snapshot(), viewer.value));
      var shoppingList := "";
      for i := 0 to |groups|
        invariant shoppingList == Render(groups[..i])
      {
        assert groups[..i + 1][..i] == groups[..i];
        shoppingList := shoppingList + Line(groups[i]);
      }
      assert groups[..|groups|] == groups;
      return Attachment(shoppingList);
    }
  }
}
