# Foodgram recipe API — a Dafny model of its core

Foodgram is a recipe-sharing service. Its API is a Django REST Framework backend.
Users publish recipes. Each recipe has:

- ingredients, each with an amount;
- tags;
- an image, which the client sends as a base64 `data:` URL.

Users also keep favorites and a shopping cart, and subscribe to authors. They can
download a shopping list that sums the ingredients of every recipe in their cart.

This project models the core of that backend in Dafny and proves properties of the
model:

- the tables and their declarations (`backend/api/models.py`);
- the recipe serializer's validation and its writes (`backend/api/serializers.py`);
- the image field;
- the permission checks (`backend/api/views.py`, `backend/api/permissions.py`);
- the recipe list with its filters (`backend/api/filters.py`);
- the ingredient search, the short link, and the recipes shown under a subscription;
- the shopping-list aggregation and its text rendering.

Modules, one per file:

- `Prelude`: `Option`/`Result`, and an order-keeping `Filter` with its lemmas.
- `Text`:
  - `find`/`split`/`join` on strings;
  - decimal rendering and parsing;
  - ASCII lower-casing;
  - `strip`.
- `Models`: the tables as values (`Store`) and their declarations (`Consistent`): keys,
  foreign keys, `unique_together`, orderings and bounds. Also the cascade on recipe
  deletion.
- `DataUrl`: `Base64ImageField.to_internal_value` and the parent image field.
- `RecipeWrite`:
  - `validate_ingredients`, as a function and as the loop method;
  - the other fields;
  - the collected `is_valid()` outcome and `validate`;
  - the rows `create_ingredients` builds.
- `ShoppingList`: the `GROUP BY (name, unit)` / `SUM(amount)` query, and the text
  of the downloaded file.
- `Queries`:
  - `RecipeViewSet.get_queryset` and `RecipeFilter`;
  - the ingredient search;
  - `get_link`;
  - `get_recipes` / `recipes_count`;
  - the ingredient entries shown with a recipe.
- `Access`: `get_permissions` of both view sets, DRF's permission loop, and `IsAuthor`.
- `Store`: the class `Database`, whose fields are the tables. Its methods are:
  - the cart, favorite and subscription toggles;
  - recipe create, update and destroy;
  - the shopping-list download.

  Each method states its reply and the new contents of every table.

Some of the code's behaviour is a defect (see "## Findings"). For each one, the model
takes a `Rules` parameter: `AsWritten` follows the code, `Corrected` follows the evident
intent. The lemmas show the difference. The `Database` methods use the corrected validation
and permission rules, except `DownloadShoppingCart`, which takes the rules as a
parameter. The recipe list is not a `Database` method: `Queries.ListRecipes` takes the
rules as a parameter.

Django REST Framework validates every field and collects their errors, one per field,
in the order the fields are declared, so a refused submission can report several
failures at once. `validate` runs only when no field failed.

## Model

| member | source | states |
|---|---|---|
| Models.FindIngredient | backend/api/serializers.py:207-208 | Some exactly when an ingredient with that key exists, and then it is that ingredient |
| Models.FindRecipe | backend/api/views.py:292 | the position of the recipe with that key; None exactly when no recipe has it (404) |
| Models.RowsOf | backend/api/models.py:133-157 | exactly the join rows that belong to the recipe |
| Models.DeleteRecipe | backend/api/models.py:141-202 | the cascade: the recipe is gone, and so are the join, cart and favorite rows naming it; every other recipe, row and table is kept as it was |
| Models.FilterKeepsRecipeOrder | backend/api/models.py:124-127 | a sub-list of a newest-first recipe table with unique keys is still newest-first with unique keys |
| Models.FilterKeepsJoinRowsUnique | backend/api/models.py:154-157 | dropping join rows keeps `unique_together` of (ingredient, recipe) |
| Models.CascadeKeepsConsistent | backend/api/models.py:141-202 | deleting a recipe with its cascade keeps every declaration of the store |
| Access.CheckPermissions | backend/api/views.py:275-282 | a request passes exactly when every listed permission holds; a refusal is 401 without a user and 403 with one |
| Access.CheckObjectPermissions | backend/api/permissions.py:6-7 | the object check passes exactly when each permission allows the object; `IsAuthor` allows only the recipe's author |
| Access.OnlyAuthorChanges | backend/api/views.py:280-281 | update, partial update and destroy pass both checks exactly for the recipe's author; anonymous gets 401, anybody else 403 |
| Access.AsWrittenRequestChecks | backend/api/views.py:275-282 | as written, reading actions are open and every other recipe action needs a logged-in user |
| Access.OverrideDiffersOnlyOnDownload | backend/api/views.py:373-376 | the override and the actions' declared classes disagree on exactly one request: an anonymous shopping-list download |
| Access.UserActionsNeedLogin | backend/api/views.py:36-43 | registration, the user list and a user's page are open; every other user action refuses an anonymous user with 401 |
| DataUrl.ToInternalValue | backend/api/serializers.py:85-92 | a string not starting with `data:image` is passed on unchanged. A data URL fails unless `;base64,` occurs exactly once and the payload decodes; otherwise it becomes a file holding the decoded payload, named `temp.` plus the text after the last `/` of the part before the separator (all of that part when it has no `/`) |
| DataUrl.ExtensionIsUnique | backend/api/serializers.py:88 | only one suffix of the media-type part has the shape of the extension, so the file name is determined |
| DataUrl.LastPieceIsExtension | backend/api/serializers.py:88 | the last piece of `split('/')` is the slash-free suffix that is the whole text or follows its last `/` |
| Text.LastPieceFollowsSeparator | backend/api/serializers.py:88 | the last piece of a split at one character is the whole text or starts right after an occurrence of that character |
| DataUrl.ParentImageField | backend/api/serializers.py:92 | a value is accepted exactly when it is a file with a name, non-empty content and a format the image library takes; the accepted file is that file |
| DataUrl.SeparatorOnceInBuiltUrl | backend/api/serializers.py:87 | in `data:image/<ext>;base64,<payload>`, the separator occurs once and splits into exactly the media type and the payload |
| DataUrl.ExtensionOfMediaType | backend/api/serializers.py:88 | the last `/`-piece of `data:image/<ext>` is `ext` |
| DataUrl.DataUrlRoundTrip | backend/api/serializers.py:85-90 | a data URL built from an extension and a payload becomes `temp.<ext>` holding the decoded payload; an undecodable payload fails |
| DataUrl.AcceptedFileHasName | backend/api/serializers.py:229-234 | every file the field accepts has a name, so `validate_image` never refuses it |
| RecipeWrite.FirstProblemFrom | backend/api/serializers.py:193-208 | the remaining checks find no problem exactly when the remaining entries are acceptable and their ids are new |
| RecipeWrite.CheckIngredientsAccepts | backend/api/serializers.py:187-209 | accepted exactly when the list is non-empty and every entry has an id and an amount, the amount is at least 1, ids do not repeat and every id exists; the list then comes back unchanged; an empty list is refused first |
| RecipeWrite.ValidateIngredients | backend/api/serializers.py:187-209 | the loop with its growing id set returns what the reference check returns |
| RecipeWrite.UnknownTagPks | backend/api/serializers.py:172-176 | exactly the submitted keys that name no tag |
| RecipeWrite.TagsStepAccepts | backend/api/serializers.py:220-227 | the tag field accepts exactly a non-empty list of existing tags without repeats, and links one tag per submitted key |
| RecipeWrite.Collect | backend/api/serializers.py:211-218 | valid exactly when ingredients and tags were accepted and no field failed or raised; the data then carry each field's value; a server error exactly when the image raised |
| RecipeWrite.ValidIff | backend/api/serializers.py:164-241 | a submission is valid exactly when `ingredients` and `tags` are there and acceptable, every submitted field passes, and every field is there unless the update is partial |
| RecipeWrite.ValidCarriesPayload | backend/api/serializers.py:164-241 | valid data carry the submitted ingredient list unchanged, one tag per submitted key, and exactly the optional fields that were sent |
| RecipeWrite.IngredientsAndTagsRequired | backend/api/serializers.py:211-218 | without `ingredients` or `tags` nothing is valid, even on a partial update |
| RecipeWrite.EmptyPartialUpdateRefused | backend/api/serializers.py:214-215 | an empty partial update is refused with one error, `ingredients` required |
| RecipeWrite.CharStepAccepts | backend/api/models.py:88-100 | `name` and `text` are refused as blank exactly when all whitespace; `name` is refused when its stripped text exceeds 256 characters; otherwise the field takes the stripped text, non-empty and with no whitespace at either end |
| RecipeWrite.CookingTimeBounds | backend/api/serializers.py:236-241 | 0 is refused and 1 and 32000 pass; 32001 passes as written and is refused when corrected |
| RecipeWrite.CorrectedKeepsBounds | backend/api/models.py:112-152 | under the corrected rules, every accepted cooking time and amount lies in [1, 32000] |
| RecipeWrite.AsWrittenAmountUnbounded | backend/api/serializers.py:202-203 | as written, an amount of 32001 is accepted; corrected, it is refused |
| RecipeWrite.RepeatedIngredientRefused | backend/api/serializers.py:204-205 | a list naming the same ingredient twice is refused |
| RecipeWrite.AcceptedIsComplete | backend/api/serializers.py:247-253 | every accepted entry has the id and amount that `create_ingredients` reads with `[...]` |
| RecipeWrite.JoinRowsMatchEntries | backend/api/serializers.py:243-256 | one row per entry, with that entry's ingredient and amount; the rows name the recipe and existing ingredients, are within bounds and are unique |
| ShoppingList.ItemsOf | backend/api/views.py:383-384 | the query has no more rows than the join table |
| ShoppingList.OneItemPerCartRow | backend/api/views.py:383-387 | the query has one row per join row of a recipe in the cart, in order, with that row's amount and its ingredient's name and unit; rows with the same ingredient are all kept, so their amounts add up |
| ShoppingList.ItemsAreCartRows | backend/api/views.py:383-384 | an item is in the query exactly when it comes from a join row of a recipe in the user's cart |
| ShoppingList.NoCartNoItems | backend/api/views.py:383-384 | a user with no cart rows has no items |
| ShoppingList.BumpSpec | backend/api/views.py:385-387 | adding one item keeps the keys distinct, adds its key, and raises that key's total by its amount only |
| ShoppingList.AggregateSpec | backend/api/views.py:385-387 | the grouping has distinct keys, exactly the keys of the items, and for each key the sum of that key's amounts |
| ShoppingList.ShoppingListGroups | backend/api/views.py:383-387 | one group per distinct (name, unit) in the user's cart, each with the total of its amounts |
| ShoppingList.EmptyCartEmptyList | backend/api/views.py:389-395 | an empty cart gives an empty file |
| ShoppingList.LineHasOneNewline | backend/api/views.py:391-395 | a line holds exactly one newline, at its end |
| ShoppingList.OneLinePerGroup | backend/api/views.py:389-395 | the file holds exactly as many newlines as groups |
| ShoppingList.FlourAndEggs | backend/api/views.py:385-387 | two flour rows in grams merge into one group of 500; eggs stay their own group |
| ShoppingList.FlourAndEggsRendered | backend/api/views.py:389-395 | those groups render as `flour (g) - 500` and `eggs (pcs) - 3`, one line each |
| Queries.ViewFlag | backend/api/views.py:233-255 | with the parameter and a user, it keeps exactly the members or exactly the non-members; otherwise it keeps everything |
| Queries.ViewQuerysetMembers | backend/api/views.py:225-257 | as written, `1` keeps the user's members and any other text keeps the non-members; anonymous users and absent parameters change nothing |
| Queries.ParseBooleanIgnoresCase | backend/api/filters.py:7-8 | the boolean widget ignores case; `1`, `true` and `True` read as true, `0` and `false` as false, other text as no value |
| Queries.FlagFilter | backend/api/filters.py:20-30 | a true value for a logged-in user keeps exactly the user's members; anything else keeps every recipe |
| Queries.AuthorFilter | backend/api/filters.py:9 | exactly the recipes of the given author |
| Queries.TagsFilter | backend/api/filters.py:10-14 | the filter fails exactly when some slug names no tag, and the error names one such submitted slug; otherwise it keeps exactly the recipes with at least one of the tags |
| Queries.RecipeFilterMembers | backend/api/filters.py:4-30 | the filter fails exactly on an unknown slug; otherwise it keeps exactly the recipes meeting every given filter, and only narrows |
| Queries.AsWrittenTrueListsNothing | backend/api/views.py:244-255 | as written, `is_favorited=true` or `is_in_shopping_cart=true` for a logged-in user lists nothing |
| Queries.AsWrittenSpellingsDisagree | backend/api/views.py:249-255 | on one store, `1` lists the favorited recipe and `true` lists nothing |
| Queries.CorrectedViewAgreesWithFilter | backend/api/views.py:225-257 | corrected, every spelling of true keeps exactly the members, other values keep the non-members, and the author and tag filters apply |
| Queries.SearchIngredients | backend/api/views.py:449-458 | no name or an empty one lists everything; otherwise exactly the ingredients whose name contains it, ignoring case |
| Queries.SearchIgnoresQueryCase | backend/api/views.py:456-457 | lower-casing the search text does not change the ingredients found |
| Queries.SearchKeepsNameOrder | backend/api/views.py:454-458 | the search result stays ordered by name |
| Queries.ShortLink | backend/api/views.py:362-371 | a link exactly for an existing recipe key, otherwise not found |
| Queries.ShortLinkNamesRecipe | backend/api/views.py:368-370 | the link is the prefix, the decimal key and `/`; the key reads back from it, so no two recipes share a link |
| Queries.AuthorRecipes | backend/api/serializers.py:347 | exactly the author's recipes |
| Queries.LimitedRecipesArePrefix | backend/api/serializers.py:342-351 | the shown recipes are a prefix of the author's recipes, never more than `recipes_count`, exactly `min(n, count)` for a limit `n`, and an error for a non-number |
| Queries.ShapeFollowsRows | backend/api/serializers.py:70-80 | one entry per join row, carrying the row's ingredient and amount and that ingredient's current name and unit |
| Queries.ReadAfterWrite | backend/api/serializers.py:122-126 | after `create_ingredients`, the recipe shows exactly the submitted ids and amounts, in table order |
| Store.AddThenRemove | backend/api/views.py:291-321 | adding an absent pair and removing it again restores the relation |
| Store.RemoveExactly | backend/api/views.py:312-320 | removal drops that pair only, keeps the relation free of repeats, and shortens it by one when the pair was there |
| Store.ReplaceRowsExactly | backend/api/serializers.py:285-286 | after `update` the recipe has exactly the rows built from the submission; every other recipe keeps its rows |
| Store.UpdateShowsSubmitted | backend/api/serializers.py:269-288 | after `update` the recipe shows exactly the submitted ids and amounts, in table order, and nothing from before |
| Store.UpdateKeepsAbsentFields | backend/api/serializers.py:272-283 | fields that were not sent keep their values and sent ones are taken (text stripped); an unsent image is kept; the tags become exactly the sent ones |
| Store.ValidatedIsAcceptable | backend/api/serializers.py:258-266 | whatever the corrected validation accepts, the store can take; on create or a full update every field is present |
| Store.PrependKeepsConsistent | backend/api/serializers.py:258-267 | inserting a recipe with a fresh key, created after all others, keeps every declaration and adds its key |
| Store.ReplaceKeepsConsistent | backend/api/serializers.py:269-280 | replacing a recipe by one with the same key, author and creation time keeps every declaration |
| Store.DeleteKeepsValid | backend/api/models.py:141-202 | the cascade keeps the declarations and the creation stamps |
| Store.DropRowsKeepsConsistent | backend/api/serializers.py:285 | dropping join rows keeps every declaration |
| Store.AddRowsKeepsConsistent | backend/api/serializers.py:256 | adding unique rows for a recipe with none, naming existing ingredients, keeps every declaration |
| Store.Database.AddToCart | backend/api/views.py:284-302 | 401 for an anonymous user, 404 for an unknown recipe, 400 for a recipe already in the cart; otherwise exactly that pair is added |
| Store.Database.RemoveFromCart | backend/api/views.py:304-321 | 401, 404, 400 when not in the cart; otherwise exactly that pair is removed |
| Store.Database.AddFavorite | backend/api/views.py:323-341 | the same as the cart, on favorites |
| Store.Database.RemoveFavorite | backend/api/views.py:343-358 | the same as the cart removal, on favorites |
| Store.Database.Subscribe | backend/api/views.py:136-162 | 401, 404 for an unknown author, 400 for oneself (checked first), 400 when already subscribed; otherwise exactly that pair is added |
| Store.Database.Unsubscribe | backend/api/views.py:164-183 | 401, 404, 400 when not subscribed; otherwise exactly that pair is removed |
| Store.Database.CreateIngredients | backend/api/serializers.py:243-256 | the loop adds exactly the rows built from the entries and keeps the declarations |
| Store.Database.InsertRecipe | backend/api/serializers.py:258-267 | the recipe becomes the newest one with the next key, its rows are added, and the declarations hold |
| Store.Database.ReplaceRecipe | backend/api/serializers.py:269-288 | the recipe takes the updated fields and tags, its rows are replaced, and the declarations hold |
| Store.Database.CreateRecipe | backend/api/views.py:403-418 | 401 anonymous; 500 when the image raises; 400 with the field errors; otherwise a new newest recipe with its rows; nothing changes on refusal |
| Store.Database.UpdateRecipe | backend/api/views.py:420-435 | 401, 404, 403 for a non-author, then 500 or 400; otherwise the recipe is updated and its rows replaced; nothing changes on refusal |
| Store.Database.DestroyRecipe | backend/api/views.py:280-281 | 401, 404, 403 for a non-author; otherwise the recipe is deleted with its cascade |
| Store.Database.RemoveRecipe | backend/api/models.py:141-202 | the tables become exactly the cascade of the deletion, and the declarations hold |
| Store.Database.DownloadShoppingCart | backend/api/views.py:373-401 | a logged-in user gets the rendered aggregated list; an anonymous user fails as written and gets 401 when corrected |

## Left out

- HTTP itself is not modelled: routing, status codes beyond the `Reply` cases, headers, content negotiation and pagination (`CustomPagination`).
- Passwords, user registration, `set_password`, the avatar endpoint and `AvatarSerializer` are left out; they are account management outside the recipe core.
- The subscriptions list and `is_subscribed` are not modelled. The subscription toggles and `get_recipes` / `recipes_count` are.
- File storage, `build_absolute_uri` and image URLs are not modelled.
- `RecipeWriteSerializer.partial_update` is not modelled. It is defined on a serializer, which has no `get_object`, so nothing calls it; the view's own update is modelled.
- The ingredient loader command, the admin site and the migrations are not part of this model.
- Concurrency and transactions are not modelled. Two requests racing on the same cart pair, or a crash between the recipe insert and `bulk_create`, are outside the model.
- `get_object` is modelled as a lookup by key in the whole recipe table. In the code it looks in `filter_queryset(get_queryset())`, so a detail request is also narrowed by `get_queryset`'s own `is_favorited` / `is_in_shopping_cart` handling (backend/api/views.py:225-257) and by the filter backend's query-string filters; a recipe they exclude is a 404 there. Neither narrowing is modelled for detail requests.
- Base64 decoding and the Pillow image check are library calls. They are function parameters (`b64decode`, `isImage`).
- Case-insensitive search lower-cases ASCII letters only. Unicode case folding is not modelled, and `strip` removes only the ASCII whitespace Python's `str.strip()` removes (space, `\t`, `\n`, `\x0b`, `\x0c`, `\r` and `\x1c` to `\x1f`), not Unicode spaces.
- `ordering = ['name']` sorts by the database collation. The model takes code-point order, so `Banana` comes before `apple`; a locale collation may put `apple` first.
- The null-character validator of DRF's `CharField` is not modelled.
- Python's `int()` is modelled for decimal digits with an optional minus sign. Surrounding whitespace, underscores and a leading `+` are not.
- The `author` number filter gets its value as an already-parsed integer. A non-numeric value, which the filter form would refuse, is not modelled.
- URL keys are modelled as natural numbers. The user routes also accept `me` (`lookup_value_regex`, backend/api/views.py:34): `subscribe` and `unsubscribe` then call Django's `get_object_or_404(User, id='me')` (backend/api/views.py:144, 171), whose `ValueError` is a server error; this is not modelled. The recipe routes set no regex; a non-numeric recipe key is a 404 through DRF's `get_object` and is not modelled either.
- The shopping-list query has no `ORDER BY`. The model lists groups in first-appearance order, one order the database may return.
- `Store.Database` methods use the corrected rules for validation and permissions. The code as written is modelled in the functions that take `Rules`.
- ShoppingList.ItemsOf: its own contract states only the length bound. Membership is stated by `ShoppingList.ItemsAreCartRows`, and one item per cart row, duplicates kept, by `ShoppingList.OneItemPerCartRow`.
- Queries.TagsFilter: which unknown slug the error names depends on the code: the multiple-choice field turns the submitted slugs into a `frozenset` and reports the first unknown one in that set's iteration order, which follows string hashes. The model names the first unknown slug in the order given; its contract promises only that the named slug was submitted and names no tag.
- RecipeWrite.Payload: the request body is modelled as absent keys and well-typed values. Not modelled: a JSON `null` for `ingredients`, `tags`, `name`, `text` or `cooking_time`, which the field refuses ("may not be null") even on a partial update, where an absent key is skipped; a non-list `ingredients` or `tags` (`not_a_list`) and a non-dict ingredient entry (`not_a_dict`) (backend/api/serializers.py:167-175); a non-integer `cooking_time` (`invalid`, backend/api/serializers.py:178); and tag keys that are negative or text, since keys are natural numbers: a negative key does not exist, and `"1"` resolves to tag 1, so `[1, "1"]` is a repeat.
- RecipeWrite.Entry: an ingredient entry's `id` and `amount` are raw JSON values (`ListField(child=DictField())`, backend/api/serializers.py:167-168); the model gives them as optional integers. Not modelled: `int(amount)` raising `ValueError` on text such as `"abc"` (a server error, backend/api/serializers.py:202); a fractional amount such as `2.5` passing the check as `int(2.5) == 2`; a non-numeric id making the existence query raise `ValueError` (backend/api/serializers.py:207); and the ids `1` and `"1"` both passing the repeat check (backend/api/serializers.py:204-206), after which `bulk_create` breaks `unique_together` (backend/api/models.py:157) with an `IntegrityError` after the recipe row was inserted (backend/api/serializers.py:256).
- The ingredient entries of a recipe are read through `ingredientinrecipe_set` (backend/api/serializers.py:126) with no `ORDER BY` and no `ordering` on the join model. The model shows them in table (insertion) order, one order the database may return; `Queries.ReadAfterWrite` and `Store.UpdateShowsSubmitted` state that order.
- Creation times are stamps from a clock that advances on every insert, so `NewestFirst` is a strict order. `auto_now_add` timestamps can tie; recipes created in the same instant, and the order the database then gives them, are not modelled.

## Findings

| source | as written | input that shows it | evidently intended | confidence | as-written member | corrected member |
|---|---|---|---|---|---|---|
| backend/api/serializers.py:178 | `cooking_time` is declared as a bare `IntegerField()`, dropping the model's validators; only `validate_cooking_time` checks the lower bound | `cooking_time = 32001` is accepted | values above `MAX_VALUE` (32000) are refused, as `models.py:112-118` declares | not executed | RecipeWrite.CookingTimeBounds | RecipeWrite.CorrectedKeepsBounds |
| backend/api/serializers.py:202-203 | `validate_ingredients` checks only `amount >= 1`, and the dict field bypasses the model's validators | ingredient amount 32001 is accepted | amounts above `MAX_VALUE` are refused, as `models.py:146-152` declares | not executed | RecipeWrite.AsWrittenAmountUnbounded | RecipeWrite.CorrectedKeepsBounds |
| backend/api/views.py:275-282 | `get_permissions` returns `IsAuthenticatedOrReadOnly` for every action but update and destroy, so the actions' declared `permission_classes` are never used | an anonymous GET of `download_shopping_cart` passes the check, then fails on the anonymous user's missing cart | an anonymous download is refused with 401, as the action declares `IsAuthenticated` | not executed | Access.OverrideDiffersOnlyOnDownload | Store.Database.DownloadShoppingCart |
| backend/api/views.py:244-255 | `get_queryset` compares the parameter with `'1'`, while the filter reads it as a boolean | `?is_favorited=true` for a user with a favorite lists nothing | every spelling of true lists the user's favorites | not executed | Queries.AsWrittenSpellingsDisagree | Queries.CorrectedViewAgreesWithFilter |
