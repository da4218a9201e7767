/** Who may do what: the permission checks that `RecipeViewSet` and
    `CustomUserViewSet` (backend/api/views.py) run before an action, and
    `IsAuthor` (backend/api/permissions.py). A request is checked once
    against every permission before the view runs, and once more against
    the object when the view looks a recipe up. */
module Access {
  import opened Prelude
  import opened Models

  /** The actions of the recipe endpoints, with the HTTP method each one
      answers. */
  datatype RecipeAction =
    | List | Retrieve | Create | Update | PartialUpdate | Destroy
    | AddToCart | RemoveFromCart | AddFavorite | RemoveFavorite
    | GetLink | DownloadShoppingCart

  datatype Permission = AllowAny | IsAuthenticated | IsAuthenticatedOrReadOnly | IsAuthor

  /** A refused request: 401 when no user is logged in, 403 otherwise. */
  datatype Decision = Allowed | NotAuthenticated | PermissionDenied

  /** GET, HEAD and OPTIONS are the safe methods. */
  predicate Safe(a: RecipeAction) {
    a in {List, Retrieve, GetLink, DownloadShoppingCart}
  }

  /** The request-level check of one permission. */
  predicate HasPermission(p: Permission, safe: bool, viewer: Option<Id>) {
    match p
    case AllowAny => true
    case IsAuthenticated => viewer.Some?
    case IsAuthenticatedOrReadOnly => safe || viewer.Some?
    case IsAuthor => true
  }

  /** The object-level check of one permission: only `IsAuthor` looks at the
      recipe, and lets through its author alone. */
  predicate HasObjectPermission(p: Permission, viewer: Option<Id>, author: Id) {
    p.IsAuthor? ==> viewer == Some(author)
  }

  /** A refusal: 401 without a user, 403 with one. */
  function Refusal(viewer: Option<Id>): Decision {
    if viewer.None? then NotAuthenticated else PermissionDenied
  }

  /** `check_permissions`: the permissions in order, the first refusal
      answering the request. */
  function CheckPermissions(perms: seq<Permission>, safe: bool, viewer: Option<Id>): (d: Decision)
    ensures d.Allowed? <==> forall p :: p in perms ==> HasPermission(p, safe, viewer)
    ensures !d.Allowed? ==> d == Refusal(viewer)
    decreases |perms|
  {
    if perms == [] then Allowed
    else if !HasPermission(perms[0], safe, viewer) then Refusal(viewer)
    else
      var rest := CheckPermissions(perms[1..], safe, viewer);
      assert forall p :: p in perms ==> p == perms[0] || p in perms[1..];
      rest
  }

  /** `check_object_permissions`, the same loop over the object checks. */
  function CheckObjectPermissions(perms: seq<Permission>, viewer: Option<Id>, author: Id): (d: Decision)
    ensures d.Allowed? <==> forall p :: p in perms ==> HasObjectPermission(p, viewer, author)
    ensures !d.Allowed? ==> d == Refusal(viewer)
    decreases |perms|
  {
    if perms == [] then Allowed
    else if !HasObjectPermission(perms[0], viewer, author) then Refusal(viewer)
    else
      var rest := CheckObjectPermissions(perms[1..], viewer, author);
      assert forall p :: p in perms ==> p == perms[0] || p in perms[1..];
      rest
  }

  /** The `permission_classes` each `@action` declares; the standard
      actions declare none. */
  function Declared(a: RecipeAction): Option<seq<Permission>> {
    match a
    case AddToCart => Some([IsAuthenticated])
    case RemoveFromCart => Some([IsAuthenticated])
    case AddFavorite => Some([IsAuthenticated])
    case RemoveFavorite => Some([IsAuthenticated])
    case GetLink => Some([AllowAny])
    case DownloadShoppingCart => Some([IsAuthenticated])
    case _ => None
  }

  /** `RecipeViewSet.get_permissions`. As written, the override answers
      every action other than update, partial update and destroy with the
      view's own `IsAuthenticatedOrReadOnly`, so the classes an action
      declares are never used; corrected, those fall back to the action's
      declared classes. */
  function RecipePermissions(a: RecipeAction, rules: Rules): seq<Permission> {
    if a in {Update, PartialUpdate, Destroy} then [IsAuthenticated, IsAuthor]
    else match rules
      case AsWritten => [IsAuthenticatedOrReadOnly]
      case Corrected => if Declared(a).Some? then Declared(a).value else [IsAuthenticatedOrReadOnly]
  }

  /** The check before a recipe action runs. */
  function RecipeRequest(a: RecipeAction, viewer: Option<Id>, rules: Rules): Decision {
    CheckPermissions(RecipePermissions(a, rules), Safe(a), viewer)
  }

  /** The check when the action looks up a recipe of the given author. */
  function RecipeObject(a: RecipeAction, viewer: Option<Id>, author: Id, rules: Rules): Decision {
    CheckObjectPermissions(RecipePermissions(a, rules), viewer, author)
  }

  /** Changing or deleting a recipe passes both checks exactly for an
      authenticated user who is the recipe's author; an anonymous user is
      refused with 401 and anybody else with 403. */
  lemma OnlyAuthorChanges(a: RecipeAction, viewer: Option<Id>, author: Id, rules: Rules)
    requires a in {Update, PartialUpdate, Destroy}
    ensures RecipeRequest(a, viewer, rules).Allowed?
      && RecipeObject(a, viewer, author, rules).Allowed?
      <==> viewer == Some(author)
    ensures viewer.None? ==> RecipeRequest(a, viewer, rules) == NotAuthenticated
    ensures viewer.Some? && viewer != Some(author) ==>
      RecipeObject(a, viewer, author, rules) == PermissionDenied
  {
    var perms := RecipePermissions(a, rules);
    assert perms[0] == IsAuthenticated && perms[1] == IsAuthor;
    if viewer != Some(author) {
      assert !HasObjectPermission(perms[1], viewer, author);
    }
  }

  /** Reading is open to everybody, every other recipe action needs a
      logged-in user (the code as written). */
  lemma AsWrittenRequestChecks(a: RecipeAction, viewer: Option<Id>)
    ensures RecipeRequest(a, viewer, AsWritten).Allowed? <==> Safe(a) || viewer.Some?
  {
    var perms := RecipePermissions(a, AsWritten);
    if a in {Update, PartialUpdate, Destroy} {
      assert perms[0] == IsAuthenticated;
    } else {
      assert perms[0] == IsAuthenticatedOrReadOnly;
    }
  }

  /** The override and the declared classes disagree on one request only:
      an anonymous download of the shopping list, which the code as written
      lets through (the view then fails, as an anonymous user has no cart)
      and the declared `IsAuthenticated` refuses with 401. */
  lemma OverrideDiffersOnlyOnDownload(a: RecipeAction, viewer: Option<Id>)
    ensures RecipeRequest(a, viewer, AsWritten)
      != RecipeRequest(a, viewer, Corrected)
      <==> a == DownloadShoppingCart && viewer.None?
    ensures RecipeRequest(DownloadShoppingCart, None, AsWritten) == Allowed
    ensures RecipeRequest(DownloadShoppingCart, None, Corrected) == NotAuthenticated
  {
    AsWrittenRequestChecks(a, viewer);
    var fixed := RecipePermissions(a, Corrected);
    if a in {Update, PartialUpdate, Destroy} {
      assert fixed[0] == IsAuthenticated;
    } else if Declared(a).Some? {
      assert fixed[0] == Declared(a).value[0];
    } else {
      assert fixed[0] == IsAuthenticatedOrReadOnly;
    }
    assert RecipePermissions(DownloadShoppingCart, Corrected)[0] == IsAuthenticated;
  }

  /** The actions of the user endpoints. */
  datatype UserAction =
    | CreateUser | ListUsers | RetrieveUser | Me | SetPassword | Avatar
    | Subscriptions | Subscribe | Unsubscribe

  /** `CustomUserViewSet.get_permissions`: registration, the user list and
      a user's page are open; every other action needs a logged-in user. */
  function UserPermissions(a: UserAction): seq<Permission> {
    if a in {CreateUser, ListUsers, RetrieveUser} then [AllowAny] else [IsAuthenticated]
  }

  /** The user endpoints that answer GET. */
  predicate SafeUserAction(a: UserAction) {
    a in {ListUsers, RetrieveUser, Me, Subscriptions}
  }

  function CheckUserAction(a: UserAction, viewer: Option<Id>): Decision {
    CheckPermissions(UserPermissions(a), SafeUserAction(a), viewer)
  }

  /** Subscribing, unsubscribing and the rest need a logged-in user and
      refuse an anonymous one with 401; registration and reading users are
      open to anybody. */
  lemma UserActionsNeedLogin(a: UserAction, viewer: Option<Id>)
    ensures CheckUserAction(a, viewer).Allowed? <==> a in {CreateUser, ListUsers, RetrieveUser} || viewer.Some?
    ensures viewer.None? && a !in {CreateUser, ListUsers, RetrieveUser} ==> CheckUserAction(a, viewer) == NotAuthenticated
  {
    assert UserPermissions(a)[0] in UserPermissions(a);
  }
}
