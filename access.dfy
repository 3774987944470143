/**
 * The access policy of the recipe endpoints (recipe_app_backend/api/views.py):
 * the object-level rule `IsAuthorOrReadOnly`, the per-action choice of permission
 * classes in `RecipeViewSet.get_permissions`, and how the two combine on a request.
 */
module Access {
  import opened Common
  import opened Models

  datatype HttpMethod = Get | Head | Options | Post | Put | Patch | Delete

  /** The read-only ("safe") methods. */
  predicate IsSafe(m: HttpMethod)
  {
    m == Get || m == Head || m == Options
  }

  /**
   * `IsAuthorOrReadOnly.has_object_permission`: safe methods pass; any other method
   * passes only when the recipe's author id equals the caller's id. An anonymous
   * caller has no id (`None`), which never equals an author id.
   */
  predicate HasObjectPermission(actor: Option<UserId>, m: HttpMethod, r: Recipe)
  {
    IsSafe(m) || actor == Some(r.authorId)
  }

  /** The actions of the recipe view set. */
  datatype Action = List | Retrieve | Create | Update | PartialUpdate | Destroy

  /** Whether the action works on one existing recipe (and so runs the object-level check). */
  predicate OnObject(a: Action)
  {
    a != List && a != Create
  }

  /** The HTTP method that routes to each action. */
  function MethodOf(a: Action): HttpMethod
  {
    match a
    case List => Get
    case Retrieve => Get
    case Create => Post
    case Update => Put
    case PartialUpdate => Patch
    case Destroy => Delete
  }

  datatype PermissionClass = AllowAny | AuthorOrReadOnly

  /** `RecipeViewSet.get_permissions`: list and retrieve are open, every other action uses `IsAuthorOrReadOnly`. */
  function GetPermissions(a: Action): PermissionClass
  {
    if a == List || a == Retrieve then AllowAny else AuthorOrReadOnly
  }

  /**
   * The view-level check of a permission class. Neither class restricts at this level:
   * `AllowAny` admits everyone and `IsAuthorOrReadOnly` keeps the base class's default.
   */
  predicate ViewPermitted(p: PermissionClass, actor: Option<UserId>)
  {
    match p
    case AllowAny => true
    case AuthorOrReadOnly => true
  }

  /** The object-level check of a permission class. */
  predicate ObjectPermitted(p: PermissionClass, actor: Option<UserId>, m: HttpMethod, r: Recipe)
  {
    match p
    case AllowAny => true
    case AuthorOrReadOnly => HasObjectPermission(actor, m, r)
  }

  datatype Decision = Allow | Deny(error: ApiError)

  /**
   * The decision for a request: the view-level check, then, for an action on an
   * existing recipe, the object-level check. A refusal is reported as
   * `NotAuthenticated` to an anonymous caller and as `PermissionDenied` otherwise.
   */
  function Authorize(actor: Option<UserId>, a: Action, target: Option<Recipe>): Decision
    requires target.Some? <==> OnObject(a)
  {
    var p := GetPermissions(a);
    var permitted :=
      ViewPermitted(p, actor) &&
      (target.None? || ObjectPermitted(p, actor, MethodOf(a), target.value));
    if permitted then Allow
    else if actor.None? then Deny(NotAuthenticated)
    else Deny(PermissionDenied)
  }

  /** For a safe method the object-level permission holds for every caller and every recipe. */
  lemma SafeMethodsAlwaysPermitted(actor: Option<UserId>, m: HttpMethod, r: Recipe)
    requires IsSafe(m)
    ensures HasObjectPermission(actor, m, r)
  {
  }

  /** For an unsafe method the object-level permission holds exactly for the recipe's author; never for an anonymous caller. */
  lemma UnsafeMethodsOnlyForAuthor(actor: Option<UserId>, m: HttpMethod, r: Recipe)
    requires !IsSafe(m)
    ensures HasObjectPermission(actor, m, r) <==> actor.Some? && actor.value == r.authorId
    ensures actor.None? ==> !HasObjectPermission(actor, m, r)
  {
  }

  /** List and retrieve are open to everyone; every other action uses the author-or-read-only class. */
  lemma PermissionsPerAction(a: Action)
    ensures GetPermissions(a) == AllowAny <==> a == List || a == Retrieve
    ensures GetPermissions(a) == AuthorOrReadOnly <==> a != List && a != Retrieve
  {
  }

  /** List and retrieve are allowed for any caller, on any recipe. */
  lemma ReadActionsAllowed(actor: Option<UserId>, a: Action, target: Option<Recipe>)
    requires a == List || a == Retrieve
    requires target.Some? <==> OnObject(a)
    ensures Authorize(actor, a, target) == Allow
  {
  }

  /**
   * Update, partial update and destroy are allowed exactly for the recipe's author;
   * a refused anonymous caller gets `NotAuthenticated`, a refused user `PermissionDenied`.
   */
  lemma MutationsOnlyByAuthor(actor: Option<UserId>, a: Action, r: Recipe)
    requires a == Update || a == PartialUpdate || a == Destroy
    ensures Authorize(actor, a, Some(r)) == Allow <==> actor == Some(r.authorId)
    ensures actor.None? ==> Authorize(actor, a, Some(r)) == Deny(NotAuthenticated)
    ensures actor.Some? && actor.value != r.authorId ==> Authorize(actor, a, Some(r)) == Deny(PermissionDenied)
  {
  }

  /**
   * The decision is made per object: one caller allowed to mutate two recipes is
   * the author of both.
   */
  lemma MutationDecisionPerObject(actor: Option<UserId>, a: Action, r1: Recipe, r2: Recipe)
    requires a == Update || a == PartialUpdate || a == Destroy
    requires Authorize(actor, a, Some(r1)) == Allow && Authorize(actor, a, Some(r2)) == Allow
    ensures r1.authorId == r2.authorId
  {
  }

  /**
   * Create has no object to check and neither class restricts at view level, so the
   * policy admits a create from any caller, anonymous included.
   */
  lemma CreateNotGatedByPolicy(actor: Option<UserId>)
    ensures Authorize(actor, Create, None) == Allow
  {
  }
}
