/** The read side of the API: the recipe list as `RecipeViewSet.get_queryset`
    and `RecipeFilter` (backend/api/filters.py) narrow it, the ingredient
    search, the short link, the recipes shown under a subscription, and the
    ingredient entries shown with a recipe. Every query is a filter over the
    tables of a store snapshot and changes nothing. */
module Queries {
  import opened Prelude
  import opened Text
  import opened Models
  import opened RecipeWrite

  /** The user behind a request: None for an anonymous user. */
  type Viewer = Option<Id>

  /** The query parameters the recipe list reads. A parameter that is not
      in the query string is None; `tags` lists every `tags=` value. */
  datatype Query = Query(
    isFavorited: Option<string>,
    isInShoppingCart: Option<string>,
    author: Option<int>,
    tags: seq<string>)

  /** The recipe is in the relation (cart or favorites) for the user. */
  predicate Member(pairs: seq<Pair>, user: Id, r: Recipe) {
    Pair(user, r.id) in pairs
  }

  // ---------------------------------------------------------------------
  // RecipeViewSet.get_queryset

  /** Whether a present parameter asks for members. As written the view
      compares the raw text with '1'; corrected, it reads the parameter the
      way the filter's boolean widget does. */
  function WantsMembers(param: string, rules: Rules): bool {
    match rules
    case AsWritten => param == "1"
    case Corrected => ParseBoolean(param) == Some(true)
  }

  /** One annotated filter of `get_queryset`: applied only when the
      parameter is there and the user is authenticated; it then keeps the
      members or the non-members. */
  function ViewFlag(recipes: seq<Recipe>, param: Option<string>, viewer: Viewer, pairs: seq<Pair>, rules: Rules): (r: seq<Recipe>)
    ensures forall x :: x in r <==>
      x in recipes && (param.Some? && viewer.Some? ==> (Member(pairs, viewer.value, x) <==> WantsMembers(param.value, rules)))
  {
    if param.Some? && viewer.Some? then
      var wants := WantsMembers(param.value, rules);
      Filter((x: Recipe) => Member(pairs, viewer.value, x) == wants, recipes)
    else recipes
  }

  /** `get_queryset`: the cart parameter, then the favorites parameter. */
  function ViewQueryset(recipes: seq<Recipe>, q: Query, viewer: Viewer, cart: seq<Pair>, favorites: seq<Pair>, rules: Rules): seq<Recipe> {
    ViewFlag(ViewFlag(recipes, q.isInShoppingCart, viewer, cart, rules), q.isFavorited, viewer, favorites, rules)
  }

  /** The view's parameters are ignored for an anonymous user or when they
      are absent; otherwise '1' keeps exactly the members and any other
      text keeps exactly the non-members. */
  lemma ViewQuerysetMembers(recipes: seq<Recipe>, q: Query, viewer: Viewer, cart: seq<Pair>, favorites: seq<Pair>)
    ensures viewer.None? || (q.isFavorited.None? && q.isInShoppingCart.None?) ==>
      ViewQueryset(recipes, q, viewer, cart, favorites, AsWritten) == recipes
    ensures forall x :: x in ViewQueryset(recipes, q, viewer, cart, favorites, AsWritten) <==>
      && x in recipes
      && (q.isInShoppingCart.Some? && viewer.Some? ==>
            (Member(cart, viewer.value, x) <==> q.isInShoppingCart.value == "1"))
      && (q.isFavorited.Some? && viewer.Some? ==>
            (Member(favorites, viewer.value, x) <==> q.isFavorited.value == "1"))
  {}

  // ---------------------------------------------------------------------
  // RecipeFilter

  /** The boolean widget of django-filter: the lower-cased text "1" or
      "true" is true, "0" or "false" is false, anything else is no value
      (and the filter is skipped). */
  function ParseBoolean(s: string): Option<bool> {
    var t := Lower(s);
    if t == "1" || t == "true" then Some(true)
    else if t == "0" || t == "false" then Some(false)
    else None
  }

  /** The widget ignores case, and every spelling of "true" reads like "1". */
  lemma ParseBooleanIgnoresCase(s: string)
    ensures ParseBoolean(Lower(s)) == ParseBoolean(s)
    ensures ParseBoolean("1") == ParseBoolean("true") == ParseBoolean("True") == Some(true)
    ensures ParseBoolean("0") == ParseBoolean("false") == Some(false)
    ensures ParseBoolean("yes") == None
  {
    LowerIdempotent(s);
    assert Lower("True") == "true";
    assert Lower("true") == "true";
    assert Lower("false") == "false";
    assert Lower("yes") == "yes";
    assert Lower("0") == "0";
  }

  /** `filter_is_favorited` / `filter_is_in_shopping_cart`: a true value for
      an authenticated user keeps the user's members; false, no value, or
      an anonymous user leave the list as it is. */
  function FlagFilter(recipes: seq<Recipe>, value: Option<bool>, viewer: Viewer, pairs: seq<Pair>): (r: seq<Recipe>)
    ensures forall x :: x in r <==>
      x in recipes && (viewer.Some? && value == Some(true) ==> Member(pairs, viewer.value, x))
    ensures !(viewer.Some? && value == Some(true)) ==> r == recipes
  {
    if viewer.Some? && value == Some(true) then
      Filter((x: Recipe) => Member(pairs, viewer.value, x), recipes)
    else recipes
  }

  /** The `author` number filter: exactly the recipes of that author. */
  function AuthorFilter(recipes: seq<Recipe>, author: Option<int>): (r: seq<Recipe>)
    ensures forall x :: x in r <==> x in recipes && (author.Some? ==> x.author == author.value)
  {
    if author.Some? then Filter((x: Recipe) => x.author == author.value, recipes) else recipes
  }

  function TagSlugs(tags: seq<Tag>): set<string> {
    set t | t in tags :: t.slug
  }

  /** The primary keys of the tags named by the given slugs. */
  function SlugIds(tags: seq<Tag>, slugs: seq<string>): set<Id> {
    set t | t in tags && t.slug in slugs :: t.id
  }

  /** The recipe carries at least one tag with one of the slugs. */
  predicate HasSomeSlug(r: Recipe, tags: seq<Tag>, slugs: seq<string>) {
    exists t :: t in tags && t.slug in slugs && t.id in r.tags
  }

  /** The `tags` multiple-choice filter: every slug must name a tag (else
      the filter form is invalid and the request is refused naming one of
      the unknown slugs; the model names the first one given); no slug
      leaves the list as it is; otherwise a recipe is kept when it carries
      any one of the slugs. */
  function TagsFilter(recipes: seq<Recipe>, tags: seq<Tag>, slugs: seq<string>): (r: Result<seq<Recipe>, string>)
    ensures r.Err? <==> exists s :: s in slugs && s !in TagSlugs(tags)
    ensures r.Err? ==> r.error in slugs && r.error !in TagSlugs(tags)
    ensures r.Ok? ==> forall x :: x in r.value <==> x in recipes && (slugs != [] ==> HasSomeSlug(x, tags, slugs))
  {
    var unknown := Filter((s: string) => s !in TagSlugs(tags), slugs);
    if unknown != [] then
      assert unknown[0] in unknown;
      Err(unknown[0])
    else if slugs == [] then Ok(recipes)
    else
      var ids := SlugIds(tags, slugs);
      var r := Filter((x: Recipe) => x.tags * ids != {}, recipes);
      assert forall x: Recipe :: x.tags * ids != {} <==> HasSomeSlug(x, tags, slugs) by {
        forall x: Recipe ensures x.tags * ids != {} <==> HasSomeSlug(x, tags, slugs) {
          if x.tags * ids != {} {
            var i :| i in x.tags * ids;
            var t :| t in tags && t.slug in slugs && t.id == i;
          }
          if HasSomeSlug(x, tags, slugs) {
            var t :| t in tags && t.slug in slugs && t.id in x.tags;
            assert t.id in x.tags * ids;
          }
        }
      }
      Ok(r)
  }

  /** `RecipeFilter.qs`: the form is validated first, then the filters run
      in their declared order: is_favorited, is_in_shopping_cart, author,
      tags. */
  function RecipeFilter(recipes: seq<Recipe>, q: Query, viewer: Viewer, tags: seq<Tag>, cart: seq<Pair>, favorites: seq<Pair>): Result<seq<Recipe>, string> {
    var fav := FlagFilter(recipes, if q.isFavorited.Some? then ParseBoolean(q.isFavorited.value) else None, viewer, favorites);
    var inCart := FlagFilter(fav, if q.isInShoppingCart.Some? then ParseBoolean(q.isInShoppingCart.value) else None, viewer, cart);
    TagsFilter(AuthorFilter(inCart, q.author), tags, q.tags)
  }

  /** The parameter reads as true. */
  predicate ReadsTrue(param: Option<string>) {
    param.Some? && ParseBoolean(param.value) == Some(true)
  }

  /** What the filter keeps, stated all at once; every filter only narrows. */
  lemma RecipeFilterMembers(recipes: seq<Recipe>, q: Query, viewer: Viewer, tags: seq<Tag>, cart: seq<Pair>, favorites: seq<Pair>)
    ensures RecipeFilter(recipes, q, viewer, tags, cart, favorites).Err? <==>
      exists s :: s in q.tags && s !in TagSlugs(tags)
    ensures RecipeFilter(recipes, q, viewer, tags, cart, favorites).Ok? ==>
      forall x :: x in RecipeFilter(recipes, q, viewer, tags, cart, favorites).value <==>
        && x in recipes
        && (viewer.Some? && ReadsTrue(q.isFavorited) ==> Member(favorites, viewer.value, x))
        && (viewer.Some? && ReadsTrue(q.isInShoppingCart) ==> Member(cart, viewer.value, x))
        && (q.author.Some? ==> x.author == q.author.value)
        && (q.tags != [] ==> HasSomeSlug(x, tags, q.tags))
    ensures RecipeFilter(recipes, q, viewer, tags, cart, favorites).Ok? ==>
      forall x :: x in RecipeFilter(recipes, q, viewer, tags, cart, favorites).value ==> x in recipes
  {}

  // ---------------------------------------------------------------------
  // The recipe list: get_queryset, then the filter backend

  function ListRecipes(st: Store, q: Query, viewer: Viewer, rules: Rules): Result<seq<Recipe>, string> {
    RecipeFilter(ViewQueryset(st.recipes, q, viewer, st.cart, st.favorites, rules), q, viewer, st.tags, st.cart, st.favorites)
  }

  /** As written, `?is_favorited=true` for an authenticated user lists
      nothing: the view keeps the recipes the user has not favorited (the
      text is not '1') and the filter then keeps the favorited ones. The
      same holds for the cart parameter. */
  lemma {:induction false} AsWrittenTrueListsNothing(st: Store, q: Query, user: Id)
    requires q.isFavorited == Some("true") || q.isInShoppingCart == Some("true")
    ensures ListRecipes(st, q, Some(user), AsWritten).Ok? ==> ListRecipes(st, q, Some(user), AsWritten).value == []
  {
    ParseBooleanIgnoresCase("true");
    var view := ViewQueryset(st.recipes, q, Some(user), st.cart, st.favorites, AsWritten);
    ViewQuerysetMembers(st.recipes, q, Some(user), st.cart, st.favorites);
    RecipeFilterMembers(view, q, Some(user), st.tags, st.cart, st.favorites);
    var r := ListRecipes(st, q, Some(user), AsWritten);
    if r.Ok? {
      NothingIn(r.value);
    }
  }

  /** The same store and user: as written, '1' lists the favorited recipe
      and 'true' lists nothing. */
  lemma AsWrittenSpellingsDisagree(user: Id, r: Recipe)
    ensures ListRecipes(Store({user}, [], [], [r], [], [], [Pair(user, r.id)], []), Query(Some("1"), None, None, []), Some(user), AsWritten) == Ok([r])
    ensures ListRecipes(Store({user}, [], [], [r], [], [], [Pair(user, r.id)], []), Query(Some("true"), None, None, []), Some(user), AsWritten) == Ok([])
  {
    var st := Store({user}, [], [], [r], [], [], [Pair(user, r.id)], []);
    ParseBooleanIgnoresCase("true");
    var q1 := Query(Some("1"), None, None, []);
    var v1 := ViewQueryset(st.recipes, q1, Some(user), st.cart, st.favorites, AsWritten);
    assert v1 == [r] by {
      ViewQuerysetMembers(st.recipes, q1, Some(user), st.cart, st.favorites);
      assert |v1| <= 1;
      assert r in v1;
      assert v1[0] in v1;
    }
    var qt := Query(Some("true"), None, None, []);
    AsWrittenTrueListsNothing(st, qt, user);
    assert TagsFilter([r], st.tags, []) == Ok([r]);
  }

  /** Corrected, the view reads its parameters as the filter does: every
      spelling of true keeps exactly the user's members, and every other
      value the non-members. */
  lemma CorrectedViewAgreesWithFilter(st: Store, q: Query, user: Id)
    ensures ListRecipes(st, q, Some(user), Corrected).Ok? ==>
      forall x :: x in ListRecipes(st, q, Some(user), Corrected).value <==>
        && x in st.recipes
        && (q.isFavorited.Some? ==> (Member(st.favorites, user, x) <==> ReadsTrue(q.isFavorited)))
        && (q.isInShoppingCart.Some? ==> (Member(st.cart, user, x) <==> ReadsTrue(q.isInShoppingCart)))
        && (q.author.Some? ==> x.author == q.author.value)
        && (q.tags != [] ==> HasSomeSlug(x, st.tags, q.tags))
  {
    var view := ViewQueryset(st.recipes, q, Some(user), st.cart, st.favorites, Corrected);
    RecipeFilterMembers(view, q, Some(user), st.tags, st.cart, st.favorites);
  }

  // ---------------------------------------------------------------------
  // IngredientViewSet.get_queryset

  /** The ingredient search: no `name` or an empty one lists every
      ingredient; otherwise the ones whose name contains it, ignoring case. */
  function SearchIngredients(ingredients: seq<Ingredient>, name: Option<string>): (r: seq<Ingredient>)
    ensures forall x :: x in r <==>
      x in ingredients && (name.Some? && name.value != [] ==> ContainsIgnoringCase(x.name, name.value))
  {
    if name.Some? && name.value != [] then
      Filter((x: Ingredient) => ContainsIgnoringCase(x.name, name.value), ingredients)
    else ingredients
  }

  /** Searching for `Flour`, `flour` or `FLOUR` finds the same ingredients:
      the ASCII letters of the search text may be given in either case.
      Only ASCII letters are folded. */
  lemma SearchIgnoresQueryCase(ingredients: seq<Ingredient>, name: string)
    ensures SearchIngredients(ingredients, Some(Lower(name))) == SearchIngredients(ingredients, Some(name))
  {
    assert |Lower(name)| == |name|;
    if name != [] {
      var p := (x: Ingredient) => ContainsIgnoringCase(x.name, Lower(name));
      var q := (x: Ingredient) => ContainsIgnoringCase(x.name, name);
      forall x | x in ingredients ensures p(x) == q(x) {
        IgnoresCase(x.name, name);
      }
      FilterAgrees(p, q, ingredients);
    }
  }

  /** The search keeps the table order, ordered by name. */
  lemma SearchKeepsNameOrder(ingredients: seq<Ingredient>, name: Option<string>)
    requires IngredientsByName(ingredients)
    ensures IngredientsByName(SearchIngredients(ingredients, name))
  {
    var le := (a: Ingredient, b: Ingredient) => NameLe(a.name, b.name);
    if name.Some? && name.value != [] {
      var p := (x: Ingredient) => ContainsIgnoringCase(x.name, name.value);
      assert Sorted(ingredients, le);
      FilterKeepsSorted(p, ingredients, le);
      var r := Filter(p, ingredients);
      forall i, j | 0 <= i < j < |r| ensures NameLe(r[i].name, r[j].name) {
        assert le(r[i], r[j]);
      }
    }
  }

  // ---------------------------------------------------------------------
  // get_link

  const LINK_PREFIX: string := "http://89.169.173.241:8000/recipes/"

  /** The short link of a recipe, or None (not found) for an unknown key. */
  function ShortLink(recipes: seq<Recipe>, id: int): (r: Option<string>)
    ensures r.None? <==> id !in RecipeIds(recipes)
  {
    if id in RecipeIds(recipes) then Some(LINK_PREFIX + NatToString(id) + "/") else None
  }

  /** The link names its recipe: the key can be read back from it, so two
      recipes never share a link. */
  lemma ShortLinkNamesRecipe(recipes: seq<Recipe>, a: int, b: int)
    ensures ShortLink(recipes, a).Some? ==>
      var link := ShortLink(recipes, a).value;
      && StartsWith(link, LINK_PREFIX) && link[|link| - 1] == '/'
      && |link| > |LINK_PREFIX| + 1
      && AllDigits(link[|LINK_PREFIX|..|link| - 1])
      && ParseDecimal(link[|LINK_PREFIX|..|link| - 1]) == a
    ensures ShortLink(recipes, a).Some? && ShortLink(recipes, a) == ShortLink(recipes, b) ==> a == b
  {
    if ShortLink(recipes, a).Some? {
      var link := ShortLink(recipes, a).value;
      var digits := NatToString(a);
      assert link[..|LINK_PREFIX|] == LINK_PREFIX;
      assert link[|LINK_PREFIX|..|link| - 1] == digits;
      ParseRendered(a);
      if ShortLink(recipes, a) == ShortLink(recipes, b) {
        var other := NatToString(b);
        assert link == LINK_PREFIX + other + "/";
        assert link[|LINK_PREFIX|..|link| - 1] == other;
        RenderingInjective(a, b);
      }
    }
  }

  // ---------------------------------------------------------------------
  // SubscriptionSerializer.get_recipes and recipes_count

  /** An author's recipes, newest first. */
  function AuthorRecipes(recipes: seq<Recipe>, author: Id): (r: seq<Recipe>)
    ensures forall x :: x in r <==> x in recipes && x.author == author
  {
    Filter((x: Recipe) => x.author == author, recipes)
  }

  /** `int()` on a string of decimal digits with an optional minus sign;
      None when it raises. */
  function ParseInt(s: string): Option<int> {
    if s != [] && AllDigits(s) then Some(ParseDecimal(s))
    else if |s| > 1 && s[0] == '-' && AllDigits(s[1..]) then Some(-(ParseDecimal(s[1..]) as int))
    else None
  }

  /** `get_recipes`: no limit or an empty one shows every recipe of the
      author; a number shows that many of the newest; text that is not a
      number, or a negative number (a queryset refuses negative slicing),
      raises, which is None here. */
  function LimitedRecipes(recipes: seq<Recipe>, author: Id, limit: Option<string>): Option<seq<Recipe>> {
    var all := AuthorRecipes(recipes, author);
    if limit.None? || limit.value == [] then Some(all)
    else match ParseInt(limit.value)
      case None => None
      case Some(n) => if n < 0 then None else Some(all[..if n < |all| then n else |all|])
  }

  /** `recipes_count` counts every recipe of the author, whatever the limit. */
  function RecipesCount(recipes: seq<Recipe>, author: Id): nat {
    |AuthorRecipes(recipes, author)|
  }

  /** The shown recipes are the newest ones of the author: a prefix of the
      full list, never more than `recipes_count`, and exactly `n` of them
      (or all) for a limit of `n`. */
  lemma LimitedRecipesArePrefix(recipes: seq<Recipe>, author: Id, limit: Option<string>)
    ensures LimitedRecipes(recipes, author, limit).Some? ==>
      var shown := LimitedRecipes(recipes, author, limit).value;
      && shown <= AuthorRecipes(recipes, author)
      && |shown| <= RecipesCount(recipes, author)
      && forall x :: x in shown ==> x in recipes && x.author == author
    ensures limit.Some? && limit.value != [] && AllDigits(limit.value) ==>
      LimitedRecipes(recipes, author, limit).Some? &&
      |LimitedRecipes(recipes, author, limit).value|
        == if ParseDecimal(limit.value) < RecipesCount(recipes, author) then ParseDecimal(limit.value) else RecipesCount(recipes, author)
    ensures limit.Some? && limit.value != [] && ParseInt(limit.value).None? ==> LimitedRecipes(recipes, author, limit).None?
  {
    if LimitedRecipes(recipes, author, limit).Some? {
      var shown := LimitedRecipes(recipes, author, limit).value;
      var all := AuthorRecipes(recipes, author);
      forall x | x in shown ensures x in all {
        var k :| 0 <= k < |shown| && shown[k] == x;
        assert all[k] == x;
      }
    }
  }

  // ---------------------------------------------------------------------
  // IngredientInRecipeSerializer

  /** One ingredient entry of a recipe as it is shown. */
  datatype IngredientAmount = IngredientAmount(id: Id, name: string, unit: string, amount: int)

  /** Each join row shown with the id, name and unit of the live
      ingredient and the amount of the row. */
  function Shape(rows: seq<JoinRow>, ingredients: seq<Ingredient>): seq<IngredientAmount>
    decreases |rows|
  {
    if rows == [] then []
    else
      var here :=
        match FindIngredient(ingredients, rows[0].ingredient)
        case Some(i) => [IngredientAmount(i.id, i.name, i.unit, rows[0].amount)]
        case None => [];
      here + Shape(rows[1..], ingredients)
  }

  /** The ingredient entries of a recipe, in join-row order. */
  function RecipeIngredients(st: Store, recipe: Id): seq<IngredientAmount> {
    Shape(RowsOf(st.rows, recipe), st.ingredients)
  }

  /** With every referenced ingredient present, there is one entry per
      row, carrying the row's ingredient and amount and that ingredient's
      current name and unit. */
  lemma {:induction false} ShapeFollowsRows(rows: seq<JoinRow>, ingredients: seq<Ingredient>)
    requires forall row :: row in rows ==> row.ingredient in IngredientIds(ingredients)
    ensures |Shape(rows, ingredients)| == |rows|
    ensures forall k :: 0 <= k < |rows| ==>
      var e := Shape(rows, ingredients)[k];
      && e.id == rows[k].ingredient && e.amount == rows[k].amount
      && Ingredient(e.id, e.name, e.unit) in ingredients
    decreases |rows|
  {
    if rows != [] {
      assert rows[0] in rows;
      ShapeFollowsRows(rows[1..], ingredients);
      var s := Shape(rows, ingredients);
      var i := FindIngredient(ingredients, rows[0].ingredient).value;
      assert s == [IngredientAmount(i.id, i.name, i.unit, rows[0].amount)] + Shape(rows[1..], ingredients);
      forall k | 0 <= k < |rows|
        ensures s[k].id == rows[k].ingredient && s[k].amount == rows[k].amount
        ensures Ingredient(s[k].id, s[k].name, s[k].unit) in ingredients
      {
        if k > 0 {
          assert s[k] == Shape(rows[1..], ingredients)[k - 1];
          assert rows[k] == rows[1..][k - 1];
        }
      }
    }
  }

  /** Read after write: when a recipe's join rows are the ones built from
      an accepted ingredient list, the recipe shows exactly the submitted
      ids and amounts, in the submitted order when the join rows are read
      in table order. */
  lemma ReadAfterWrite(st: Store, recipe: Id, entries: seq<Entry>, rules: Rules)
    requires WellFormedIngredients(entries, IngredientIds(st.ingredients), rules)
    requires forall row :: row in st.rows ==> row.recipe != recipe
    ensures Complete(entries)
    ensures var shown := RecipeIngredients(st.(rows := st.rows + JoinRowsFor(recipe, entries)), recipe);
      && |shown| == |entries|
      && forall k :: 0 <= k < |entries| ==>
           shown[k].id == entries[k].id.value && shown[k].amount == entries[k].amount.value
  {
    JoinRowsMatchEntries(recipe, entries, IngredientIds(st.ingredients), rules);
    var added := JoinRowsFor(recipe, entries);
    var p := (x: JoinRow) => x.recipe == recipe;
    FilterAppend(p, st.rows, added);
    FilterKeepsNone(p, st.rows);
    FilterKeepsAll(p, added);
    assert RowsOf(st.rows + added, recipe) == added;
    ShapeFollowsRows(added, st.ingredients);
  }
}
