/** `RecipeWriteSerializer` (backend/api/serializers.py): the validation of a
    recipe submission, field by field in the order the serializer declares
    its fields, followed by the object-level `validate`, and the join rows
    that `create_ingredients` builds. */
module RecipeWrite {
  import opened Prelude
  import opened Text
  import opened Models
  import opened DataUrl

  /** One dict of the `ingredients` list, read with `get('id')` and
      `get('amount')`: None for a missing key or a JSON null. The values
      are taken to be integers; JSON text and fractions are not modelled. */
  datatype Entry = Entry(id: Option<int>, amount: Option<int>)

  /** The request body; None marks a key that is not in it. */
  datatype Payload = Payload(
    ingredients: Option<seq<Entry>>,
    tags: Option<seq<Id>>,
    image: Option<Upload>,
    name: Option<string>,
    text: Option<string>,
    cookingTime: Option<int>)

  /** The messages of `validate_ingredients`. */
  datatype IngredientError =
    | NoIngredients | MissingId | MissingAmount | AmountBelowMin | AmountAboveMax
    | RepeatedIngredient | UnknownIngredient(id: int)

  /** The writable fields, in the order the serializer declares them. */
  datatype Field = IngredientsKey | TagsKey | ImageKey | NameKey | TextKey | CookingTimeKey

  datatype Problem =
    | Required
    | Ingredients(error: IngredientError)
    | UnknownTags(pks: seq<Id>)
    | NoTags
    | RepeatedTags
    | Image(imageError: ImageError)
    | NoImage
    | Blank
    | TooLong
    | CookingTimeBelowMin
    | CookingTimeAboveMax

  /** The validated data: `ingredients` and `tags` are always there after
      `validate`; the other fields are there when they were submitted. */
  datatype Validated = Validated(
    ingredients: seq<Entry>,
    tags: set<Id>,
    image: Option<ImageFile>,
    name: Option<string>,
    text: Option<string>,
    cookingTime: Option<int>)

  /** `is_valid()`: the validated data, the field-scoped errors, or an
      exception that is not a validation error. */
  datatype Outcome = Valid(data: Validated) | Invalid(errors: seq<(Field, Problem)>) | ServerError

  const NAME_MAX_LENGTH: nat := 256

  // ---------------------------------------------------------------------
  // validate_ingredients

  /** The first check that entry `e` fails, given the ids met so far, in
      the order `validate_ingredients` makes them. */
  function EntryProblem(e: Entry, seen: set<int>, known: set<Id>, rules: Rules): Option<IngredientError> {
    if e.id.None? then Some(MissingId)
    else if e.amount.None? then Some(MissingAmount)
    else if e.amount.value < MIN_VALUE then Some(AmountBelowMin)
    else if rules.Corrected? && e.amount.value > MAX_VALUE then Some(AmountAboveMax)
    else if e.id.value in seen then Some(RepeatedIngredient)
    else if e.id.value !in known then Some(UnknownIngredient(e.id.value))
    else None
  }

  /** The first problem among the entries from position `i` on. */
  function FirstProblem(value: seq<Entry>, i: nat, seen: set<int>, known: set<Id>, rules: Rules): Option<IngredientError>
    requires i <= |value|
    decreases |value| - i
  {
    if i == |value| then None
    else match EntryProblem(value[i], seen, known, rules)
      case Some(e) => Some(e)
      case None => FirstProblem(value, i + 1, seen + {value[i].id.value}, known, rules)
  }

  /** What `validate_ingredients` returns or raises. */
  function CheckIngredients(value: seq<Entry>, known: set<Id>, rules: Rules): Result<seq<Entry>, IngredientError> {
    if value == [] then Err(NoIngredients)
    else match FirstProblem(value, 0, {}, known, rules)
      case Some(e) => Err(e)
      case None => Ok(value)
  }

  /** An entry with an id of an existing ingredient and an amount in range. */
  predicate AcceptableEntry(e: Entry, known: set<Id>, rules: Rules) {
    && e.id.Some? && e.amount.Some?
    && MIN_VALUE <= e.amount.value
    && (rules.Corrected? ==> e.amount.value <= MAX_VALUE)
    && e.id.value in known
  }

  ghost predicate DistinctIdsBelow(value: seq<Entry>, n: nat) {
    forall a, b :: 0 <= a < b < n && b < |value| ==> value[a].id != value[b].id
  }

  /** A list `validate_ingredients` accepts, stated entry by entry. */
  ghost predicate WellFormedIngredients(value: seq<Entry>, known: set<Id>, rules: Rules) {
    && value != []
    && (forall k :: 0 <= k < |value| ==> AcceptableEntry(value[k], known, rules))
    && DistinctIdsBelow(value, |value|)
  }

  function IdsBefore(value: seq<Entry>, i: nat): set<int>
    requires i <= |value|
  {
    set k | 0 <= k < i && value[k].id.Some? :: value[k].id.value
  }

  lemma {:induction false} FirstProblemFrom(value: seq<Entry>, i: nat, known: set<Id>, rules: Rules)
    requires i <= |value|
    requires forall k :: 0 <= k < i ==> AcceptableEntry(value[k], known, rules)
    requires DistinctIdsBelow(value, i)
    ensures FirstProblem(value, i, IdsBefore(value, i), known, rules).None? <==>
      (forall k :: i <= k < |value| ==> AcceptableEntry(value[k], known, rules))
      && DistinctIdsBelow(value, |value|)
    decreases |value| - i
  {
    var seen := IdsBefore(value, i);
    if i < |value| {
      var e := value[i];
      match EntryProblem(e, seen, known, rules)
      case Some(p) =>
        if e.id.Some? && e.id.value in seen {
          var k :| 0 <= k < i && value[k].id.Some? && value[k].id.value == e.id.value;
          assert value[k].id == value[i].id;
        }
      case None =>
        assert IdsBefore(value, i + 1) == seen + {e.id.value};
        assert DistinctIdsBelow(value, i + 1) by {
          forall a, b | 0 <= a < b < i + 1 && b < |value| ensures value[a].id != value[b].id {
            if b == i {
              assert value[a].id.value in seen;
            }
          }
        }
        FirstProblemFrom(value, i + 1, known, rules);
    }
  }

  /** `validate_ingredients` accepts exactly the non-empty lists whose
      entries all carry an existing id and an amount of at least 1 (and at
      most MAX_VALUE under the corrected rules) and whose ids are
      pairwise distinct, and then returns the list unchanged; the empty
      list is refused with its own message. */
  lemma CheckIngredientsAccepts(value: seq<Entry>, known: set<Id>, rules: Rules)
    ensures CheckIngredients(value, known, rules).Ok? <==> WellFormedIngredients(value, known, rules)
    ensures CheckIngredients(value, known, rules).Ok? ==> CheckIngredients(value, known, rules).value == value
    ensures value == [] ==> CheckIngredients(value, known, rules) == Err(NoIngredients)
  {
    assert IdsBefore(value, 0) == {};
    FirstProblemFrom(value, 0, known, rules);
  }

  /** The loop of `validate_ingredients`, growing the set of ids met so far
      and stopping at the first failed check. */
  method ValidateIngredients(value: seq<Entry>, known: set<Id>, rules: Rules)
    returns (r: Result<seq<Entry>, IngredientError>)
    ensures r == CheckIngredients(value, known, rules)
  {
    if |value| == 0 {
      return Err(NoIngredients);
    }
    var ingredientsSet: set<int> := {};
    var i := 0;
    while i < |value|
      invariant 0 <= i <= |value|
      invariant FirstProblem(value, i, ingredientsSet, known, rules) == FirstProblem(value, 0, {}, known, rules)
    {
      var entry := value[i];
      if entry.id.None? {
        return Err(MissingId);
      }
      if entry.amount.None? {
        return Err(MissingAmount);
      }
      if entry.amount.value < MIN_VALUE {
        return Err(AmountBelowMin);
      }
      if rules.Corrected? && entry.amount.value > MAX_VALUE {
        return Err(AmountAboveMax);
      }
      var id := entry.id.value;
      if id in ingredientsSet {
        return Err(RepeatedIngredient);
      }
      ingredientsSet := ingredientsSet + {id};
      if id !in known {
        return Err(UnknownIngredient(id));
      }
      i := i + 1;
    }
    return Ok(value);
  }

  // ---------------------------------------------------------------------
  // The other fields

  /** What a field contributes: nothing (absent on a partial update), a
      value, a field error, or an exception that is not a validation error. */
  datatype Step<T> = Skipped | Got(value: T) | Failed(problem: Problem) | Blew

  /** A missing key is skipped on a partial update and required otherwise. */
  function Missing<T>(partial: bool): Step<T> {
    if partial then Skipped else Failed(Required)
  }

  function IngredientsStep(value: seq<Entry>, known: set<Id>, rules: Rules): Step<seq<Entry>> {
    match CheckIngredients(value, known, rules)
    case Ok(v) => Got(v)
    case Err(e) => Failed(Ingredients(e))
  }

  /** The primary keys that name no tag. */
  function UnknownTagPks(pks: seq<Id>, tags: seq<Tag>): (r: seq<Id>)
    ensures forall pk :: pk in r <==> pk in pks && pk !in TagIds(tags)
  {
    Filter((pk: Id) => pk !in TagIds(tags), pks)
  }

  /** The tag list: every primary key must name a tag, then
      `validate_tags` refuses an empty list and a list with repeats. */
  function TagsStep(pks: seq<Id>, tags: seq<Tag>): Step<set<Id>> {
    var unknown := UnknownTagPks(pks, tags);
    if unknown != [] then Failed(UnknownTags(unknown))
    else if pks == [] then Failed(NoTags)
    else if |Elements(pks)| != |pks| then Failed(RepeatedTags)
    else Got(Elements(pks))
  }

  /** The image field, then `validate_image`, which refuses a falsy file
      (a file without a name). */
  function ImageStep(data: Upload, b64decode: string -> Option<seq<bv8>>, isImage: ImageFile -> bool): Step<ImageFile> {
    match RunImageField(data, b64decode, isImage)
    case Crashed => Blew
    case Rejected(e) => Failed(Image(e))
    case Accepted(f) => if f.name == [] then Failed(NoImage) else Got(f)
  }

  /** A model `CharField`/`TextField` as the serializer builds it: blank
      after stripping is refused, then the declared maximum length is
      checked on the stripped text. */
  function CharStep(s: string, maxLength: Option<nat>): Step<string> {
    var t := Strip(s);
    if t == [] then Failed(Blank)
    else if maxLength.Some? && |t| > maxLength.value then Failed(TooLong)
    else Got(t)
  }

  /** A text field refuses exactly the text that is all whitespace as
      blank, refuses stripped text over the maximum length, and otherwise
      takes the stripped text: non-empty, with no whitespace at either end. */
  lemma CharStepAccepts(s: string, maxLength: Option<nat>)
    ensures CharStep(s, maxLength).Got? || CharStep(s, maxLength).Failed?
    ensures CharStep(s, maxLength) == Failed(Blank) <==> AllSpace(s)
    ensures CharStep(s, maxLength).Got? <==> !AllSpace(s) && (maxLength.Some? ==> |Strip(s)| <= maxLength.value)
    ensures CharStep(s, maxLength).Got? ==>
      && CharStep(s, maxLength).value == Strip(s) && Strip(s) != []
      && !IsSpace(Strip(s)[0]) && !IsSpace(Strip(s)[|Strip(s)| - 1])
  {
    StripEmptyIffAllSpace(s);
  }

  /** The declared `IntegerField()` carries no bounds; `validate_cooking_time`
      refuses values below 1. */
  function CookingTimeStep(v: int, rules: Rules): Step<int> {
    if v < MIN_VALUE then Failed(CookingTimeBelowMin)
    else if rules.Corrected? && v > MAX_VALUE then Failed(CookingTimeAboveMax)
    else Got(v)
  }

  function ErrorsOf<T>(f: Field, s: Step<T>): seq<(Field, Problem)> {
    if s.Failed? then [(f, s.problem)] else []
  }

  function ValueOf<T>(s: Step<T>): Option<T> {
    if s.Got? then Some(s.value) else None
  }

  /** The outcome of `is_valid()`: every field runs in declaration order
      and contributes at most one error; an exception stops everything;
      `validate` then demands the `ingredients` and `tags` keys, first
      `ingredients`, even on a partial update. */
  function IsValid(p: Payload, partial: bool, ingredients: seq<Ingredient>, tags: seq<Tag>,
                   b64decode: string -> Option<seq<bv8>>, isImage: ImageFile -> bool, rules: Rules): Outcome
  {
    var known := IngredientIds(ingredients);
    var ing := if p.ingredients.Some? then IngredientsStep(p.ingredients.value, known, rules) else Missing(partial);
    var tg := if p.tags.Some? then TagsStep(p.tags.value, tags) else Missing(partial);
    var im := if p.image.Some? then ImageStep(p.image.value, b64decode, isImage) else Missing(partial);
    var nm := if p.name.Some? then CharStep(p.name.value, Some(NAME_MAX_LENGTH)) else Missing(partial);
    var tx := if p.text.Some? then CharStep(p.text.value, None) else Missing(partial);
    var ct := if p.cookingTime.Some? then CookingTimeStep(p.cookingTime.value, rules) else Missing(partial);
    Collect(ing, tg, im, nm, tx, ct)
  }

  /** The field steps put together: an exception wins, then the collected
      field errors, then `validate`'s two required keys. */
  function Collect(ing: Step<seq<Entry>>, tg: Step<set<Id>>, im: Step<ImageFile>, nm: Step<string>,
                   tx: Step<string>, ct: Step<int>): (r: Outcome)
    ensures r.Valid? <==>
      && ing.Got? && tg.Got? && !im.Blew?
      && !im.Failed? && !nm.Failed? && !tx.Failed? && !ct.Failed?
    ensures r.Valid? ==>
      r.data == Validated(ing.value, tg.value, ValueOf(im), ValueOf(nm), ValueOf(tx), ValueOf(ct))
    ensures r.ServerError? <==> im.Blew?
  {
    if im.Blew? then ServerError
    else
      var errors := ErrorsOf(IngredientsKey, ing) + ErrorsOf(TagsKey, tg) + ErrorsOf(ImageKey, im)
                    + ErrorsOf(NameKey, nm) + ErrorsOf(TextKey, tx) + ErrorsOf(CookingTimeKey, ct);
      if errors != [] then Invalid(errors)
      else if !ing.Got? then Invalid([(IngredientsKey, Required)])
      else if !tg.Got? then Invalid([(TagsKey, Required)])
      else Valid(Validated(ing.value, tg.value, ValueOf(im), ValueOf(nm), ValueOf(tx), ValueOf(ct)))
  }


  /** A submitted image the field and `validate_image` accept. */
  predicate ImageAccepted(data: Upload, b64decode: string -> Option<seq<bv8>>, isImage: ImageFile -> bool) {
    RunImageField(data, b64decode, isImage).Accepted?
  }

  /** A tag list the serializer accepts, stated directly. */
  ghost predicate TagsAcceptable(pks: seq<Id>, tags: seq<Tag>) {
    pks != [] && Unique(pks) && forall pk :: pk in pks ==> pk in TagIds(tags)
  }

  /** The tag field accepts exactly a non-empty list of existing tags
      without repeats, and then links one tag per submitted key. */
  lemma TagsStepAccepts(pks: seq<Id>, tags: seq<Tag>)
    ensures TagsStep(pks, tags).Got? <==> TagsAcceptable(pks, tags)
    ensures TagsStep(pks, tags).Got? ==>
      TagsStep(pks, tags).value == Elements(pks) && |TagsStep(pks, tags).value| == |pks|
  {
    ElementsCount(pks);
    var unknown := UnknownTagPks(pks, tags);
    if unknown != [] {
      assert unknown[0] in unknown;
    }
  }

  /** A submission is valid exactly when the `ingredients` and `tags` keys
      are there and every submitted field passes its checks, with every
      field submitted unless the update is partial; the validated data
      then carry the submitted values. */
  lemma ValidIff(p: Payload, partial: bool, ingredients: seq<Ingredient>, tags: seq<Tag>,
                 b64decode: string -> Option<seq<bv8>>, isImage: ImageFile -> bool, rules: Rules)
    ensures IsValid(p, partial, ingredients, tags, b64decode, isImage, rules).Valid? <==>
      && p.ingredients.Some? && WellFormedIngredients(p.ingredients.value, IngredientIds(ingredients), rules)
      && p.tags.Some? && TagsAcceptable(p.tags.value, tags)
      && (p.image.Some? ==> ImageAccepted(p.image.value, b64decode, isImage))
      && (p.name.Some? ==> CharStep(p.name.value, Some(NAME_MAX_LENGTH)).Got?)
      && (p.text.Some? ==> CharStep(p.text.value, None).Got?)
      && (p.cookingTime.Some? ==> CookingTimeStep(p.cookingTime.value, rules).Got?)
      && (!partial ==> p.image.Some? && p.name.Some? && p.text.Some? && p.cookingTime.Some?)
  {
    if p.ingredients.Some? {
      CheckIngredientsAccepts(p.ingredients.value, IngredientIds(ingredients), rules);
    }
    if p.tags.Some? {
      TagsStepAccepts(p.tags.value, tags);
    }
    if p.image.Some? {
      AcceptedFileHasName(p.image.value, b64decode, isImage);
    }
  }

  /** The validated data carry the submitted values: the ingredient list
      unchanged, one tag link per submitted key, and exactly the optional
      fields that were submitted. */
  lemma ValidCarriesPayload(p: Payload, partial: bool, ingredients: seq<Ingredient>, tags: seq<Tag>,
                            b64decode: string -> Option<seq<bv8>>, isImage: ImageFile -> bool, rules: Rules)
    ensures IsValid(p, partial, ingredients, tags, b64decode, isImage, rules).Valid? ==>
      var d := IsValid(p, partial, ingredients, tags, b64decode, isImage, rules).data;
      && p.ingredients.Some? && d.ingredients == p.ingredients.value
      && p.tags.Some? && d.tags == Elements(p.tags.value) && |d.tags| == |p.tags.value|
      && (d.image.Some? <==> p.image.Some?)
      && (d.name.Some? <==> p.name.Some?)
      && (d.text.Some? <==> p.text.Some?)
      && d.cookingTime == p.cookingTime
  {
    if p.ingredients.Some? {
      CheckIngredientsAccepts(p.ingredients.value, IngredientIds(ingredients), rules);
    }
    if p.tags.Some? {
      TagsStepAccepts(p.tags.value, tags);
    }
  }

  /** Both keys are required even on a partial update: without
      `ingredients` or `tags` nothing is valid. */
  lemma IngredientsAndTagsRequired(p: Payload, partial: bool, ingredients: seq<Ingredient>, tags: seq<Tag>,
                                   b64decode: string -> Option<seq<bv8>>, isImage: ImageFile -> bool, rules: Rules)
    ensures p.ingredients.None? || p.tags.None? ==>
      !IsValid(p, partial, ingredients, tags, b64decode, isImage, rules).Valid?
  {
    ValidIff(p, partial, ingredients, tags, b64decode, isImage, rules);
  }

  /** A partial update that submits nothing at all is refused for
      `ingredients` alone, the first check of `validate`. */
  lemma EmptyPartialUpdateRefused(ingredients: seq<Ingredient>, tags: seq<Tag>,
                                  b64decode: string -> Option<seq<bv8>>, isImage: ImageFile -> bool, rules: Rules)
    ensures IsValid(Payload(None, None, None, None, None, None), true, ingredients, tags, b64decode, isImage, rules)
      == Invalid([(IngredientsKey, Required)])
  {}

  /** The bounds of `cooking_time`: 0 is refused, 1 and 32000 pass; 32001
      passes the code as written and is refused under the corrected rules. */
  lemma CookingTimeBounds()
    ensures CookingTimeStep(0, AsWritten) == Failed(CookingTimeBelowMin)
    ensures CookingTimeStep(0, Corrected) == Failed(CookingTimeBelowMin)
    ensures CookingTimeStep(1, AsWritten) == Got(1) && CookingTimeStep(1, Corrected) == Got(1)
    ensures CookingTimeStep(32000, AsWritten) == Got(32000) && CookingTimeStep(32000, Corrected) == Got(32000)
    ensures CookingTimeStep(32001, AsWritten) == Got(32001)
    ensures CookingTimeStep(32001, Corrected) == Failed(CookingTimeAboveMax)
  {}

  /** Under the corrected rules every accepted value lies within the
      declared bounds [MIN_VALUE, MAX_VALUE]. */
  lemma CorrectedKeepsBounds(p: Payload, partial: bool, ingredients: seq<Ingredient>, tags: seq<Tag>,
                             b64decode: string -> Option<seq<bv8>>, isImage: ImageFile -> bool)
    ensures IsValid(p, partial, ingredients, tags, b64decode, isImage, Corrected).Valid? ==>
      var d := IsValid(p, partial, ingredients, tags, b64decode, isImage, Corrected).data;
      && (d.cookingTime.Some? ==> InBounds(d.cookingTime.value))
      && (forall e :: e in d.ingredients ==> e.amount.Some? && InBounds(e.amount.value))
  {
    ValidIff(p, partial, ingredients, tags, b64decode, isImage, Corrected);
  }

  /** As written, an amount of 32001 for an existing ingredient passes
      `validate_ingredients`, outside the declared bound MAX_VALUE; the
      corrected rules refuse it. */
  lemma AsWrittenAmountUnbounded(id: Id)
    ensures CheckIngredients([Entry(Some(id), Some(32001))], {id}, AsWritten).Ok?
    ensures CheckIngredients([Entry(Some(id), Some(32001))], {id}, Corrected) == Err(AmountAboveMax)
  {
    CheckIngredientsAccepts([Entry(Some(id), Some(32001))], {id}, AsWritten);
  }

  /** A repeated ingredient id is refused, so no recipe is built from it. */
  lemma RepeatedIngredientRefused(id: Id, a: int, b: int, known: set<Id>, rules: Rules)
    requires id in known && a >= MIN_VALUE && (rules.Corrected? ==> a <= MAX_VALUE)
    ensures CheckIngredients([Entry(Some(id), Some(a)), Entry(Some(id), Some(b))], known, rules).Err?
  {
    var v := [Entry(Some(id), Some(a)), Entry(Some(id), Some(b))];
    CheckIngredientsAccepts(v, known, rules);
    assert v[0].id == v[1].id;
  }

  // ---------------------------------------------------------------------
  // create_ingredients

  /** Every entry carries an id and an amount, the id a primary key. */
  predicate Complete(entries: seq<Entry>) {
    forall e :: e in entries ==> e.id.Some? && e.id.value >= 0 && e.amount.Some?
  }

  lemma AcceptedIsComplete(value: seq<Entry>, known: set<Id>, rules: Rules)
    requires WellFormedIngredients(value, known, rules)
    ensures Complete(value)
  {
    forall e | e in value ensures e.id.Some? && e.id.value >= 0 && e.amount.Some? {
      var k :| 0 <= k < |value| && value[k] == e;
      assert AcceptableEntry(value[k], known, rules);
    }
  }

  /** The rows `create_ingredients` hands to `bulk_create`: one per entry,
      in the submitted order. */
  function JoinRowsFor(recipe: Id, entries: seq<Entry>): seq<JoinRow>
    requires Complete(entries)
  {
    seq(|entries|, k requires 0 <= k < |entries| =>
      JoinRow(entries[k].id.value as nat, recipe, entries[k].amount.value))
  }

  /** One row per submitted entry, each with that entry's ingredient and
      amount; rows for distinct ingredients of one recipe never clash on
      the (ingredient, recipe) pair. */
  lemma JoinRowsMatchEntries(recipe: Id, entries: seq<Entry>, known: set<Id>, rules: Rules)
    requires WellFormedIngredients(entries, known, rules)
    ensures Complete(entries)
    ensures |JoinRowsFor(recipe, entries)| == |entries|
    ensures forall k :: 0 <= k < |entries| ==>
      JoinRowsFor(recipe, entries)[k].ingredient == entries[k].id.value
      && JoinRowsFor(recipe, entries)[k].amount == entries[k].amount.value
    ensures forall row :: row in JoinRowsFor(recipe, entries) ==>
      row.recipe == recipe && row.ingredient in known
      && MIN_VALUE <= row.amount && (rules.Corrected? ==> row.amount <= MAX_VALUE)
    ensures JoinRowsUnique(JoinRowsFor(recipe, entries))
  {
    AcceptedIsComplete(entries, known, rules);
    var rows := JoinRowsFor(recipe, entries);
    forall row | row in rows
      ensures row.recipe == recipe && row.ingredient in known
      ensures MIN_VALUE <= row.amount && (rules.Corrected? ==> row.amount <= MAX_VALUE)
    {
      var k :| 0 <= k < |rows| && rows[k] == row;
      assert AcceptableEntry(entries[k], known, rules);
    }
    forall i, j | 0 <= i < j < |rows|
      ensures rows[i].ingredient != rows[j].ingredient || rows[i].recipe != rows[j].recipe
    {
      assert entries[i].id != entries[j].id;
    }
  }
}
