/** The tables of the recipe store (backend/api/models.py) as values, with
    the bounds, uniqueness constraints, default orderings and cascading
    deletes the models declare, written as predicates over a snapshot of
    the whole store. */
module Models {
  import opened Prelude

  /** The bounds declared on `cooking_time` and `amount`. */
  const MIN_VALUE: int := 1
  const MAX_VALUE: int := 32000

  /** A rule as the code is written, or with a defect corrected (see the
      findings: the upper bound MAX_VALUE on `amount` and `cooking_time`,
      and the reading of the boolean query parameters in the recipe list). */
  datatype Rules = AsWritten | Corrected

  /** Users are opaque primary keys. */
  type Id = nat

  datatype Ingredient = Ingredient(id: Id, name: string, unit: string)

  datatype Tag = Tag(id: Id, name: string, slug: string)

  /** A stored file: its name and its bytes. */
  datatype ImageFile = ImageFile(name: string, content: seq<bv8>)

  /** A recipe row together with its tag links; `createdAt` is the value of
      the creation clock when the row was inserted and never changes. */
  datatype Recipe = Recipe(
    id: Id,
    author: Id,
    name: string,
    image: Option<ImageFile>,
    text: string,
    tags: set<Id>,
    cookingTime: int,
    createdAt: nat)

  /** One IngredientInRecipe row: how much of one ingredient one recipe needs. */
  datatype JoinRow = JoinRow(ingredient: Id, recipe: Id, amount: int)

  /** A row of ShoppingCart, Favorite (target = recipe) or Subscription
      (target = author). */
  datatype Pair = Pair(user: Id, target: Id)

  /** A snapshot of every table. Each sequence is a table in its default
      order: ingredients and tags by name, recipes newest first; the join
      rows and the pair tables in insertion order. */
  datatype Store = Store(
    users: set<Id>,
    ingredients: seq<Ingredient>,
    tags: seq<Tag>,
    recipes: seq<Recipe>,
    rows: seq<JoinRow>,
    cart: seq<Pair>,
    favorites: seq<Pair>,
    subscriptions: seq<Pair>)

  predicate InBounds(x: int) {
    MIN_VALUE <= x <= MAX_VALUE
  }

  /** Code-point order on names, taken as the database collation behind
      `ordering = ['name']`. */
  predicate NameLe(a: string, b: string)
    decreases |a|
  {
    if a == [] then true
    else if b == [] then false
    else if a[0] != b[0] then a[0] < b[0]
    else NameLe(a[1..], b[1..])
  }

  function IngredientIds(s: seq<Ingredient>): set<Id> {
    set x | x in s :: x.id
  }

  function TagIds(s: seq<Tag>): set<Id> {
    set x | x in s :: x.id
  }

  function RecipeIds(s: seq<Recipe>): set<Id> {
    set x | x in s :: x.id
  }

  /** `Ingredient.objects.get(id=id)`. */
  function FindIngredient(s: seq<Ingredient>, id: int): (r: Option<Ingredient>)
    ensures r.Some? ==> r.value in s && r.value.id == id
    ensures r.None? <==> id !in IngredientIds(s)
  {
    if s == [] then None
    else if s[0].id == id then Some(s[0])
    else FindIngredient(s[1..], id)
  }

  /** The position of the recipe with primary key `id`, if there is one. */
  function FindRecipe(s: seq<Recipe>, id: int): (r: Option<nat>)
    ensures r.Some? ==> r.value < |s| && s[r.value].id == id
    ensures r.None? <==> id !in RecipeIds(s)
  {
    if s == [] then None
    else if s[0].id == id then Some(0)
    else match FindRecipe(s[1..], id)
      case None => None
      case Some(k) => Some(k + 1)
  }

  /** Primary keys are unique. */
  ghost predicate IngredientKeys(s: seq<Ingredient>) {
    forall i, j :: 0 <= i < j < |s| ==> s[i].id != s[j].id
  }

  ghost predicate TagKeys(s: seq<Tag>) {
    forall i, j :: 0 <= i < j < |s| ==> s[i].id != s[j].id && s[i].name != s[j].name && s[i].slug != s[j].slug
  }

  ghost predicate RecipeKeys(s: seq<Recipe>) {
    forall i, j :: 0 <= i < j < |s| ==> s[i].id != s[j].id
  }

  /** `unique_together = ('ingredient', 'recipe')`. */
  ghost predicate JoinRowsUnique(rows: seq<JoinRow>) {
    forall i, j :: 0 <= i < j < |rows| ==>
      rows[i].ingredient != rows[j].ingredient || rows[i].recipe != rows[j].recipe
  }

  /** `ordering = ['name']`. */
  ghost predicate IngredientsByName(s: seq<Ingredient>) {
    forall i, j :: 0 <= i < j < |s| ==> NameLe(s[i].name, s[j].name)
  }

  ghost predicate TagsByName(s: seq<Tag>) {
    forall i, j :: 0 <= i < j < |s| ==> NameLe(s[i].name, s[j].name)
  }

  /** `ordering = ['-created_at']`: every recipe was created after every
      recipe listed later. Creation stamps here come from a clock that
      advances on every insert, so no two recipes share one. */
  ghost predicate NewestFirst(s: seq<Recipe>) {
    forall i, j :: 0 <= i < j < |s| ==> s[i].createdAt > s[j].createdAt
  }

  /** The declarations of the store: primary keys, foreign keys, the
      declared bounds, the `unique_together` constraints, the default
      orderings, and that every recipe has at least one tag (the last two
      are kept by the application rather than the database). */
  ghost predicate Consistent(st: Store) {
    && IngredientKeys(st.ingredients) && IngredientsByName(st.ingredients)
    && TagKeys(st.tags) && TagsByName(st.tags)
    && RecipeKeys(st.recipes) && NewestFirst(st.recipes)
    && (forall r :: r in st.recipes ==>
          r.author in st.users && InBounds(r.cookingTime)
          && r.tags != {} && r.tags <= TagIds(st.tags))
    && (forall row :: row in st.rows ==>
          row.ingredient in IngredientIds(st.ingredients)
          && row.recipe in RecipeIds(st.recipes) && InBounds(row.amount))
    && JoinRowsUnique(st.rows)
    && Unique(st.cart) && Unique(st.favorites) && Unique(st.subscriptions)
    && (forall p :: p in st.cart ==> p.user in st.users && p.target in RecipeIds(st.recipes))
    && (forall p :: p in st.favorites ==> p.user in st.users && p.target in RecipeIds(st.recipes))
    && (forall p :: p in st.subscriptions ==> p.user in st.users && p.target in st.users)
  }

  /** The join rows of one recipe, in table order. */
  function RowsOf(rows: seq<JoinRow>, recipe: Id): (r: seq<JoinRow>)
    ensures forall x :: x in r <==> x in rows && x.recipe == recipe
  {
    Filter((x: JoinRow) => x.recipe == recipe, rows)
  }

  /** `on_delete=models.CASCADE` towards Recipe: deleting a recipe deletes
      its join rows and its cart and favorite rows, and nothing else. */
  function DeleteRecipe(st: Store, id: Id): (r: Store)
    ensures id !in RecipeIds(r.recipes)
    ensures RecipeIds(r.recipes) == RecipeIds(st.recipes) - {id}
    ensures forall x :: x in r.recipes <==> x in st.recipes && x.id != id
    ensures forall x :: x in r.rows <==> x in st.rows && x.recipe != id
    ensures forall p :: p in r.cart <==> p in st.cart && p.target != id
    ensures forall p :: p in r.favorites <==> p in st.favorites && p.target != id
    ensures r.users == st.users && r.ingredients == st.ingredients && r.tags == st.tags
    ensures r.subscriptions == st.subscriptions
  {
    st.(recipes := Filter((x: Recipe) => x.id != id, st.recipes),
        rows := Filter((x: JoinRow) => x.recipe != id, st.rows),
        cart := Filter((p: Pair) => p.target != id, st.cart),
        favorites := Filter((p: Pair) => p.target != id, st.favorites))
  }

  lemma {:induction false} FilterKeepsRecipeOrder(p: Recipe -> bool, s: seq<Recipe>)
    requires RecipeKeys(s) && NewestFirst(s)
    ensures RecipeKeys(Filter(p, s)) && NewestFirst(Filter(p, s))
    decreases |s|
  {
    if s != [] {
      FilterKeepsRecipeOrder(p, s[1..]);
      var t := Filter(p, s[1..]);
      if p(s[0]) {
        var r := [s[0]] + t;
        forall i, j | 0 <= i < j < |r|
          ensures r[i].id != r[j].id && r[i].createdAt > r[j].createdAt
        {
          if i == 0 {
            assert r[j] in s[1..];
            var k :| 0 <= k < |s[1..]| && s[1..][k] == r[j];
            assert s[1..][k] == s[k + 1];
          } else {
            assert r[i] == t[i - 1] && r[j] == t[j - 1];
          }
        }
      }
    }
  }

  lemma {:induction false} FilterKeepsJoinRowsUnique(p: JoinRow -> bool, s: seq<JoinRow>)
    requires JoinRowsUnique(s)
    ensures JoinRowsUnique(Filter(p, s))
    decreases |s|
  {
    if s != [] {
      FilterKeepsJoinRowsUnique(p, s[1..]);
      var t := Filter(p, s[1..]);
      if p(s[0]) {
        var r := [s[0]] + t;
        forall i, j | 0 <= i < j < |r|
          ensures r[i].ingredient != r[j].ingredient || r[i].recipe != r[j].recipe
        {
          if i == 0 {
            assert r[j] in s[1..];
            var k :| 0 <= k < |s[1..]| && s[1..][k] == r[j];
            assert s[1..][k] == s[k + 1];
          } else {
            assert r[i] == t[i - 1] && r[j] == t[j - 1];
          }
        }
      }
    }
  }

  /** Deleting a recipe keeps every declaration of the store: no join row,
      cart row or favorite row is left pointing at the deleted recipe. */
  lemma CascadeKeepsConsistent(st: Store, id: Id)
    requires Consistent(st)
    ensures Consistent(DeleteRecipe(st, id))
  {
    var r := DeleteRecipe(st, id);
    FilterKeepsRecipeOrder((x: Recipe) => x.id != id, st.recipes);
    FilterKeepsJoinRowsUnique((x: JoinRow) => x.recipe != id, st.rows);
    FilterKeepsUnique((p: Pair) => p.target != id, st.cart);
    FilterKeepsUnique((p: Pair) => p.target != id, st.favorites);
    forall x | x in r.recipes ensures x in st.recipes {}
    forall row | row in r.rows ensures row.recipe in RecipeIds(r.recipes) {
      assert row.recipe in RecipeIds(st.recipes);
    }
    forall p | p in r.cart ensures p.target in RecipeIds(r.recipes) {
      assert p.target in RecipeIds(st.recipes);
    }
    forall p | p in r.favorites ensures p.target in RecipeIds(r.recipes) {
      assert p.target in RecipeIds(st.recipes);
    }
  }
}
