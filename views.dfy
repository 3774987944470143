/**
 * The request handlers of recipe_app_backend/api/views.py over an in-memory store:
 * recipe create / retrieve / update / destroy through the access policy and the
 * query scoper, registration, login and logout with one token per user, and the
 * user deletion that cascades to recipes and tokens.
 */
module Views {
  import opened Common
  import opened Models
  import Access
  import Queries
  import Serializers

  type TokenKey = string

  /** The query parameters that reach `get_queryset`. */
  datatype Query = Query(title: Option<string>, author: Option<string>)

  /** An authenticated session: the user and the token key handed out. */
  datatype Session = Session(user: User, key: TokenKey)

  // ---------------------------------------------------------------- store invariants

  /** Users are keyed by their id, below the next id to hand out, and usernames are unique. */
  ghost predicate UsersOk(users: map<UserId, User>, nextUserId: nat)
  {
    && (forall k :: k in users ==> users[k].id == k && k < nextUserId)
    && (forall a, b :: a in users && b in users && users[a].username == users[b].username ==> a == b)
  }

  /** Tokens belong to existing users, and no two users share a key. */
  ghost predicate TokensOk(tokens: map<UserId, TokenKey>, users: map<UserId, User>)
  {
    && tokens.Keys <= users.Keys
    && (forall a, b :: a in tokens && b in tokens && tokens[a] == tokens[b] ==> a == b)
  }

  /** No two recipes share an id. */
  ghost predicate DistinctIds(rs: seq<Recipe>)
  {
    forall i, j :: 0 <= i < j < |rs| ==> rs[i].id != rs[j].id
  }

  /**
   * Every recipe has an existing author, an id below the next id to hand out and
   * well-formed fields; ids are distinct; the sequence is newest first.
   */
  ghost predicate RecipesOk(rs: seq<Recipe>, users: map<UserId, User>, nextRecipeId: nat)
  {
    && (forall r :: r in rs ==> r.authorId in users && r.id < nextRecipeId && FieldsOk(r))
    && DistinctIds(rs)
    && NewestFirst(rs)
  }

  // ---------------------------------------------------------------- pure helpers

  /** How a recipe is looked up: by its primary key, or by its exact title. */
  datatype Key = ById(id: RecipeId) | ByTitle(title: string)

  predicate HasKey(r: Recipe, k: Key)
  {
    match k
    case ById(id) => r.id == id
    case ByTitle(title) => r.title == title
  }

  /** The first recipe of `rs` with the given key, or none when no recipe has it. */
  function Find(rs: seq<Recipe>, k: Key): (r: Option<Recipe>)
    ensures r.Some? ==> r.value in rs && HasKey(r.value, k)
    ensures r.None? ==> forall x :: x in rs ==> !HasKey(x, k)
  {
    if rs == [] then None
    else if HasKey(rs[0], k) then Some(rs[0])
    else Find(rs[1..], k)
  }

  /** The number of recipes of `rs` with the given title. */
  function CountTitle(rs: seq<Recipe>, title: string): nat
  {
    if rs == [] then 0
    else (if rs[0].title == title then 1 else 0) + CountTitle(rs[1..], title)
  }

  /** A title occurs in `rs` exactly when a lookup by title finds a recipe. */
  lemma {:induction false} CountTitleFind(rs: seq<Recipe>, title: string)
    ensures CountTitle(rs, title) == 0 <==> Find(rs, ByTitle(title)).None?
  {
    if rs != [] {
      CountTitleFind(rs[1..], title);
    }
  }

  /** `rs` with the recipe of the given id replaced by `r`. */
  function ReplaceById(rs: seq<Recipe>, id: RecipeId, r: Recipe): (out: seq<Recipe>)
    ensures |out| == |rs|
    ensures forall i :: 0 <= i < |rs| ==> out[i] == if rs[i].id == id then r else rs[i]
  {
    seq(|rs|, i requires 0 <= i < |rs| => if rs[i].id == id then r else rs[i])
  }

  /** `rs` without the recipes of the given id. */
  function RemoveId(rs: seq<Recipe>, id: RecipeId): seq<Recipe>
  {
    if rs == [] then []
    else if rs[0].id == id then RemoveId(rs[1..], id)
    else [rs[0]] + RemoveId(rs[1..], id)
  }

  /** `rs` without the recipes of the given author: the cascade of deleting a user. */
  function WithoutAuthor(rs: seq<Recipe>, author: UserId): seq<Recipe>
  {
    if rs == [] then []
    else if rs[0].authorId == author then WithoutAuthor(rs[1..], author)
    else [rs[0]] + WithoutAuthor(rs[1..], author)
  }

  lemma {:induction false} RemoveIdSpec(rs: seq<Recipe>, id: RecipeId)
    ensures Queries.IsSubsequence(RemoveId(rs, id), rs)
    ensures forall x :: x in RemoveId(rs, id) <==> x in rs && x.id != id
  {
    if rs != [] {
      RemoveIdSpec(rs[1..], id);
    }
  }

  lemma {:induction false} WithoutAuthorSpec(rs: seq<Recipe>, author: UserId)
    ensures Queries.IsSubsequence(WithoutAuthor(rs, author), rs)
    ensures forall x :: x in WithoutAuthor(rs, author) <==> x in rs && x.authorId != author
  {
    if rs != [] {
      WithoutAuthorSpec(rs[1..], author);
    }
  }

  /** Among recipes with distinct ids, the id determines the recipe. */
  lemma SameIdSameRecipe(rs: seq<Recipe>, x: Recipe, y: Recipe)
    requires DistinctIds(rs) && x in rs && y in rs && x.id == y.id
    ensures x == y
  {
    var i :| 0 <= i < |rs| && rs[i] == x;
    var j :| 0 <= j < |rs| && rs[j] == y;
    assert !(i < j) && !(j < i);
  }

  /** Dropping recipes keeps ids distinct. */
  lemma {:induction false} SubsequenceDistinctIds(a: seq<Recipe>, b: seq<Recipe>)
    requires Queries.IsSubsequence(a, b) && DistinctIds(b)
    ensures DistinctIds(a)
    decreases |b|
  {
    if a != [] {
      assert DistinctIds(b[1..]);
      if a[0] == b[0] && Queries.IsSubsequence(a[1..], b[1..]) {
        SubsequenceDistinctIds(a[1..], b[1..]);
        forall j | 0 < j < |a|
          ensures a[0].id != a[j].id
        {
          Queries.SubsequenceMembers(a[1..], b[1..], a[j]);
        }
      } else {
        SubsequenceDistinctIds(a, b[1..]);
      }
    }
  }

  /** Dropping recipes keeps the store's recipe invariant (given the same or more users). */
  lemma SubsequenceRecipesOk(a: seq<Recipe>, b: seq<Recipe>, users: map<UserId, User>, nextRecipeId: nat)
    requires Queries.IsSubsequence(a, b)
    requires forall r :: r in a ==> r.authorId in users
    requires forall r :: r in b ==> r.id < nextRecipeId && FieldsOk(r)
    requires DistinctIds(b) && NewestFirst(b)
    ensures RecipesOk(a, users, nextRecipeId)
  {
    forall r | r in a
      ensures r.id < nextRecipeId && FieldsOk(r)
    {
      Queries.SubsequenceMembers(a, b, r);
    }
    SubsequenceDistinctIds(a, b);
    Queries.SubsequenceNewestFirst(a, b);
  }

  /** Adding a new recipe, with a fresh id and a creation time not before the newest one, keeps the recipe invariant. */
  lemma PrependKeepsRecipesOk(rs: seq<Recipe>, r: Recipe, users: map<UserId, User>, nextRecipeId: nat)
    requires RecipesOk(rs, users, nextRecipeId)
    requires r.authorId in users && r.id == nextRecipeId && FieldsOk(r)
    requires rs == [] || rs[0].createdAt <= r.createdAt
    ensures RecipesOk([r] + rs, users, nextRecipeId + 1)
  {
    var out := [r] + rs;
    forall i, j | 0 <= i < j < |out|
      ensures out[i].createdAt >= out[j].createdAt && out[i].id != out[j].id
    {
      if i == 0 {
        assert out[j] == rs[j - 1] && rs[j - 1] in rs;
      } else {
        assert out[i] == rs[i - 1] && out[j] == rs[j - 1];
      }
    }
  }

  /** Replacing a stored recipe by one with the same id, author and creation time keeps the recipe invariant. */
  lemma ReplaceKeepsRecipesOk(rs: seq<Recipe>, r: Recipe, r': Recipe, users: map<UserId, User>, nextRecipeId: nat)
    requires RecipesOk(rs, users, nextRecipeId) && r in rs
    requires r'.id == r.id && r'.authorId == r.authorId && r'.createdAt == r.createdAt && FieldsOk(r')
    ensures RecipesOk(ReplaceById(rs, r.id, r'), users, nextRecipeId)
  {
    var out := ReplaceById(rs, r.id, r');
    forall x | x in out
      ensures x.authorId in users && x.id < nextRecipeId && FieldsOk(x)
    {
      var i :| 0 <= i < |out| && out[i] == x;
      assert rs[i] in rs;
    }
    forall i, j | 0 <= i < j < |out|
      ensures out[i].createdAt >= out[j].createdAt && out[i].id != out[j].id
    {
      assert out[i].createdAt == rs[i].createdAt && out[i].id == rs[i].id;
      assert out[j].createdAt == rs[j].createdAt && out[j].id == rs[j].id;
    }
  }

  /** The recipe a validated create request produces: author and timestamps come from the server. */
  function NewRecipe(id: RecipeId, input: Serializers.RecipeInput, author: UserId, now: Instant): Recipe
    requires Serializers.Complete(input)
  {
    Recipe(
      id,
      input.title.value,
      if input.description.Some? then input.description.value else "",
      input.ingredients.value,
      input.steps.value,
      if input.imageUrl.Some? then input.imageUrl.value else None,
      author,
      now,
      now)
  }

  /** A saved update: supplied writable fields replace the old ones, `updatedAt` is refreshed, the rest is kept. */
  function Updated(r: Recipe, input: Serializers.RecipeInput, now: Instant): Recipe
  {
    r.(
      title := if input.title.Some? then input.title.value else r.title,
      description := if input.description.Some? then input.description.value else r.description,
      ingredients := if input.ingredients.Some? then input.ingredients.value else r.ingredients,
      steps := if input.steps.Some? then input.steps.value else r.steps,
      imageUrl := if input.imageUrl.Some? then input.imageUrl.value else r.imageUrl,
      updatedAt := now)
  }

  /** An update never changes the id, the author or the creation time, and keeps the field constraints. */
  lemma UpdatedKeepsIdentity(r: Recipe, input: Serializers.RecipeInput, now: Instant)
    requires FieldsOk(r) && Serializers.InputOk(input)
    ensures Updated(r, input, now).id == r.id
    ensures Updated(r, input, now).authorId == r.authorId
    ensures Updated(r, input, now).createdAt == r.createdAt
    ensures Updated(r, input, now).updatedAt == now
    ensures FieldsOk(Updated(r, input, now))
  {
  }

  /** A created recipe is authored by the caller and stamped with the creation time, whatever the request said. */
  lemma NewRecipeStamps(data: map<string, Serializers.Json>, id: RecipeId, author: UserId, now: Instant)
    requires Serializers.ValidateRecipe(data, false).Success?
    ensures var r := NewRecipe(id, Serializers.ValidateRecipe(data, false).value, author, now);
      r.authorId == author && r.createdAt == now && r.updatedAt == now && FieldsOk(r)
  {
  }

  // ---------------------------------------------------------------- the store

  class Store {
    var users: map<UserId, User>
    /** The recipe table in its default order, newest first. */
    var recipes: seq<Recipe>
    var tokens: map<UserId, TokenKey>
    var nextUserId: nat
    var nextRecipeId: nat

    ghost predicate Valid()
      reads this
    {
      && UsersOk(users, nextUserId)
      && TokensOk(tokens, users)
      && RecipesOk(recipes, users, nextRecipeId)
    }

    constructor ()
      ensures Valid()
      ensures users == map[] && recipes == [] && tokens == map[]
    {
      users, recipes, tokens := map[], [], map[];
      nextUserId, nextRecipeId := 1, 1;
    }

    /** User id to username, for the author filter. */
    function Usernames(): (names: map<UserId, string>)
      reads this
      ensures names.Keys == users.Keys
      ensures forall k :: k in users ==> names[k] == users[k].username
    {
      map k | k in users :: users[k].username
    }

    /** `get_queryset`: the recipe table narrowed by the query parameters. */
    function Visible(q: Query): (rs: seq<Recipe>)
      reads this
      ensures Queries.IsSubsequence(rs, recipes)
      ensures forall x :: x in rs <==> x in recipes && Queries.Matches(x, Usernames(), q.title, q.author)
    {
      Queries.ScopeSpec(recipes, Usernames(), q.title, q.author);
      Queries.Scope(recipes, Usernames(), q.title, q.author)
    }

    /** `get_object`: the recipe with the given id among the visible ones. */
    function Lookup(id: RecipeId, q: Query): (r: Option<Recipe>)
      reads this
      ensures r.Some? ==> r.value in recipes && r.value.id == id && Queries.Matches(r.value, Usernames(), q.title, q.author)
      ensures r.None? ==> forall x :: x in recipes && Queries.Matches(x, Usernames(), q.title, q.author) ==> x.id != id
    {
      Find(Visible(q), ById(id))
    }

    /** A stored recipe that passes the query's filters is what a lookup of its id finds. */
    lemma LookupFinds(r: Recipe, q: Query)
      requires Valid() && r in recipes && Queries.Matches(r, Usernames(), q.title, q.author)
      ensures Lookup(r.id, q) == Some(r)
    {
      SubsequenceDistinctIds(Visible(q), recipes);
      var x := Lookup(r.id, q).value;
      SameIdSameRecipe(Visible(q), x, r);
    }

    /** Retrieve: the policy admits every caller (`Access.ReadActionsAllowed`); only an unknown (or filtered-out) id fails. */
    function Retrieve(actor: Option<UserId>, id: RecipeId, q: Query): (res: Result<Recipe, ApiError>)
      reads this
      ensures res.Success? <==> Lookup(id, q).Some?
      ensures res.Failure? ==> res.error == NotFound
      ensures res.Success? ==> res.value in recipes && res.value.id == id
    {
      match Lookup(id, q)
      case None => Failure(NotFound)
      case Some(r) => Success(r)
    }

    /**
     * `TokenAuthentication`: no token means an anonymous caller; a known token key
     * resolves to its user; an unknown key is refused.
     */
    function ResolveToken(header: Option<TokenKey>): (res: Result<Option<UserId>, ApiError>)
      reads this
      requires Valid()
      ensures header.None? ==> res == Success(None)
      ensures header.Some? && res.Success? ==> res.value.Some? && res.value.value in tokens && tokens[res.value.value] == header.value
      ensures header.Some? && res.Failure? ==> res.error == NotAuthenticated && header.value !in tokens.Values
    {
      if header.None? then Success(None)
      else if header.value in tokens.Values then
        var u :| u in tokens && tokens[u] == header.value;
        Success(Some(u))
      else Failure(NotAuthenticated)
    }

    /**
     * Create (`perform_create`): the request body is validated with every read-only
     * field ignored; the new recipe is authored by the caller and stamped with `now`.
     * The policy does not reject an anonymous create, so an authenticated caller is
     * required here; `now` is not earlier than the newest recipe.
     */
    method Create(actor: Option<UserId>, data: map<string, Serializers.Json>, now: Instant)
      returns (res: Result<Recipe, ApiError>)
      requires Valid()
      requires actor.Some? && actor.value in users
      requires recipes == [] || recipes[0].createdAt <= now
      modifies this
      ensures Valid()
      ensures users == old(users) && tokens == old(tokens) && nextUserId == old(nextUserId)
      ensures Serializers.ValidateRecipe(data, false).Failure? ==>
        && res == Failure(Invalid(Serializers.ValidateRecipe(data, false).error))
        && recipes == old(recipes) && nextRecipeId == old(nextRecipeId)
      ensures Serializers.ValidateRecipe(data, false).Success? ==>
        && res == Success(NewRecipe(old(nextRecipeId), Serializers.ValidateRecipe(data, false).value, actor.value, now))
        && recipes == [res.value] + old(recipes)
        && nextRecipeId == old(nextRecipeId) + 1
    {
      assert Access.Authorize(actor, Access.Create, None) == Access.Allow;
      var v := Serializers.ValidateRecipe(data, false);
      if v.Failure? {
        return Failure(Invalid(v.error));
      }
      var r := NewRecipe(nextRecipeId, v.value, actor.value, now);
      Insert(r);
      res := Success(r);
    }

    /** Saving a new recipe: it goes in front of the newest-first table, under the next id. */
    method Insert(r: Recipe)
      requires Valid()
      requires r.id == nextRecipeId && r.authorId in users && FieldsOk(r)
      requires recipes == [] || recipes[0].createdAt <= r.createdAt
      modifies this
      ensures Valid()
      ensures recipes == [r] + old(recipes) && nextRecipeId == old(nextRecipeId) + 1
      ensures users == old(users) && tokens == old(tokens) && nextUserId == old(nextUserId)
    {
      PrependKeepsRecipesOk(recipes, r, users, nextRecipeId);
      recipes := [r] + recipes;
      nextRecipeId := nextRecipeId + 1;
    }

    /**
     * Update and partial update: look the recipe up (through the query scope), apply
     * the access policy, validate the body (on a partial update nothing is required),
     * then overwrite only the supplied writable fields and refresh `updatedAt`.
     */
    method Update(actor: Option<UserId>, id: RecipeId, data: map<string, Serializers.Json>, partial: bool, q: Query, now: Instant)
      returns (res: Result<Recipe, ApiError>)
      requires Valid()
      modifies this
      ensures Valid()
      ensures users == old(users) && tokens == old(tokens)
      ensures nextUserId == old(nextUserId) && nextRecipeId == old(nextRecipeId)
      ensures old(Lookup(id, q)).None? ==> res == Failure(NotFound) && recipes == old(recipes)
      ensures old(Lookup(id, q)).Some? ==>
        var r := old(Lookup(id, q)).value;
        var decision := Access.Authorize(actor, if partial then Access.PartialUpdate else Access.Update, Some(r));
        var v := Serializers.ValidateRecipe(data, partial);
        if decision.Deny? then res == Failure(decision.error) && recipes == old(recipes)
        else if v.Failure? then res == Failure(Invalid(v.error)) && recipes == old(recipes)
        else res == Success(Updated(r, v.value, now)) && recipes == ReplaceById(old(recipes), id, res.value)
    {
      var found := Lookup(id, q);
      if found.None? {
        return Failure(NotFound);
      }
      var r := found.value;
      var decision := Access.Authorize(actor, if partial then Access.PartialUpdate else Access.Update, Some(r));
      if decision.Deny? {
        return Failure(decision.error);
      }
      var v := Serializers.ValidateRecipe(data, partial);
      if v.Failure? {
        return Failure(Invalid(v.error));
      }
      var r' := Updated(r, v.value, now);
      UpdatedKeepsIdentity(r, v.value, now);
      ReplaceKeepsRecipesOk(recipes, r, r', users, nextRecipeId);
      recipes := ReplaceById(recipes, id, r');
      res := Success(r');
    }

    /** Destroy: look the recipe up (through the query scope), apply the access policy, then remove it. */
    method Destroy(actor: Option<UserId>, id: RecipeId, q: Query) returns (err: Option<ApiError>)
      requires Valid()
      modifies this
      ensures Valid()
      ensures users == old(users) && tokens == old(tokens)
      ensures nextUserId == old(nextUserId) && nextRecipeId == old(nextRecipeId)
      ensures old(Lookup(id, q)).None? ==> err == Some(NotFound) && recipes == old(recipes)
      ensures old(Lookup(id, q)).Some? ==>
        var decision := Access.Authorize(actor, Access.Destroy, Some(old(Lookup(id, q)).value));
        if decision.Deny? then err == Some(decision.error) && recipes == old(recipes)
        else err.None? && recipes == RemoveId(old(recipes), id)
    {
      var found := Lookup(id, q);
      if found.None? {
        return Some(NotFound);
      }
      var decision := Access.Authorize(actor, Access.Destroy, Some(found.value));
      if decision.Deny? {
        return Some(decision.error);
      }
      RemoveIdSpec(recipes, id);
      SubsequenceRecipesOk(RemoveId(recipes, id), recipes, users, nextRecipeId);
      recipes := RemoveId(recipes, id);
      err := None;
    }

    /** The usernames in use. */
    function TakenUsernames(): (names: set<string>)
      reads this
      ensures forall k :: k in users ==> users[k].username in names
      ensures forall n :: n in names ==> exists k :: k in users && users[k].username == n
    {
      set k | k in users :: users[k].username
    }

    /** A username is taken exactly when a user of that name exists. */
    lemma TakenIffNamed(name: string)
      requires Valid()
      ensures name in TakenUsernames() <==> UserNamed(name).Some?
    {
      if name in TakenUsernames() {
        var k :| k in users && users[k].username == name;
      }
    }

    /** `Token.objects.get_or_create(user=...)`: the user's existing key, or `freshKey` stored as the new one. */
    method GetOrCreateToken(u: UserId, freshKey: TokenKey) returns (key: TokenKey)
      requires Valid() && u in users
      requires freshKey !in tokens.Values
      modifies this
      ensures Valid()
      ensures users == old(users) && recipes == old(recipes)
      ensures nextUserId == old(nextUserId) && nextRecipeId == old(nextRecipeId)
      ensures u in old(tokens) ==> key == old(tokens)[u] && tokens == old(tokens)
      ensures u !in old(tokens) ==> key == freshKey && tokens == old(tokens)[u := freshKey]
    {
      if u in tokens {
        key := tokens[u];
      } else {
        tokens := tokens[u := freshKey];
        key := freshKey;
      }
    }

    /**
     * Register: validate the body (username free, password of at least 8 characters),
     * create the user with the supplied username, email and password, and hand out
     * the user's token (created now, since a new user has none).
     */
    method Register(data: map<string, Serializers.Json>, freshKey: TokenKey) returns (res: Result<Session, ApiError>)
      requires Valid()
      requires freshKey !in tokens.Values
      modifies this
      ensures Valid()
      ensures recipes == old(recipes) && nextRecipeId == old(nextRecipeId)
      ensures var v := Serializers.ValidateRegistration(data, old(TakenUsernames()));
        if v.Failure? then
          res == Failure(Invalid(v.error)) && users == old(users) && tokens == old(tokens) && nextUserId == old(nextUserId)
        else
          var u := User(old(nextUserId), v.value.username, v.value.email, Encoded(v.value.password));
          && res == Success(Session(u, freshKey))
          && users == old(users)[u.id := u]
          && nextUserId == old(nextUserId) + 1
          && tokens == old(tokens)[u.id := freshKey]
    {
      var v := Serializers.ValidateRegistration(data, TakenUsernames());
      if v.Failure? {
        return Failure(Invalid(v.error));
      }
      var u := User(nextUserId, v.value.username, v.value.email, Encoded(v.value.password));
      assert u.id !in tokens;
      users := users[u.id := u];
      nextUserId := nextUserId + 1;
      var key := GetOrCreateToken(u.id, freshKey);
      res := Success(Session(u, key));
    }

    /** The credential check only ever names existing users. */
    ghost predicate NamesKnownUsers(check: (string, string) -> Option<UserId>)
      reads this
    {
      forall name, password :: check(name, password).Some? ==> check(name, password).value in users
    }

    /**
     * Login: validate the body and check the credentials (`check` stands for the
     * framework's `authenticate`); on success hand out the user's existing token, or
     * a new one.
     */
    method Login(data: map<string, Serializers.Json>, check: (string, string) -> Option<UserId>, freshKey: TokenKey)
      returns (res: Result<Session, ApiError>)
      requires Valid() && NamesKnownUsers(check)
      requires freshKey !in tokens.Values
      modifies this
      ensures Valid()
      ensures users == old(users) && recipes == old(recipes)
      ensures nextUserId == old(nextUserId) && nextRecipeId == old(nextRecipeId)
      ensures var v := Serializers.ValidateLogin(data, check);
        if v.Failure? then
          res == Failure(Invalid(v.error)) && tokens == old(tokens)
        else
          var u := v.value.user;
          && res.Success? && res.value.user == users[u]
          && (u in old(tokens) ==> res.value.key == old(tokens)[u] && tokens == old(tokens))
          && (u !in old(tokens) ==> res.value.key == freshKey && tokens == old(tokens)[u := freshKey])
    {
      var v := Serializers.ValidateLogin(data, check);
      if v.Failure? {
        return Failure(Invalid(v.error));
      }
      var u := v.value.user;
      var key := GetOrCreateToken(u, freshKey);
      res := Success(Session(users[u], key));
    }

    /** Logout: an anonymous caller is refused; otherwise the caller's token is deleted. */
    method Logout(actor: Option<UserId>) returns (err: Option<ApiError>)
      requires Valid()
      modifies this
      ensures Valid()
      ensures users == old(users) && recipes == old(recipes)
      ensures nextUserId == old(nextUserId) && nextRecipeId == old(nextRecipeId)
      ensures actor.None? ==> err == Some(NotAuthenticated) && tokens == old(tokens)
      ensures actor.Some? ==> err.None? && tokens == old(tokens) - {actor.value}
      ensures actor.Some? && actor.value in old(tokens) ==> ResolveToken(Some(old(tokens)[actor.value])).Failure?
    {
      if actor.None? {
        return Some(NotAuthenticated);
      }
      ghost var oldTokens := tokens;
      tokens := tokens - {actor.value};
      if actor.value in oldTokens {
        assert oldTokens[actor.value] !in tokens.Values;
      }
      err := None;
    }

    /** Deleting a user deletes that user's recipes and token with it. */
    method DeleteUser(u: UserId)
      requires Valid() && u in users
      modifies this
      ensures Valid()
      ensures users == old(users) - {u}
      ensures tokens == old(tokens) - {u}
      ensures recipes == WithoutAuthor(old(recipes), u)
      ensures forall r :: r in recipes <==> r in old(recipes) && r.authorId != u
      ensures nextUserId == old(nextUserId) && nextRecipeId == old(nextRecipeId)
    {
      WithoutAuthorSpec(recipes, u);
      var rest := WithoutAuthor(recipes, u);
      var users' := users - {u};
      forall r | r in rest
        ensures r.authorId in users'
      {
      }
      SubsequenceRecipesOk(rest, recipes, users', nextRecipeId);
      users := users';
      tokens := tokens - {u};
      recipes := rest;
    }

    // ------------------------------------------------------------ operations the seed command uses

    /** The user with the given username, if any. */
    function UserNamed(name: string): (u: Option<User>)
      reads this
      requires Valid()
      ensures u.Some? ==> u.value.id in users && users[u.value.id] == u.value && u.value.username == name
      ensures u.None? ==> forall k :: k in users ==> users[k].username != name
    {
      if exists k :: k in users && users[k].username == name then
        var k :| k in users && users[k].username == name;
        Some(users[k])
      else None
    }

    /**
     * `User.objects.get_or_create(username=...)`: the existing user of that name, or a
     * new one with no email and the blank stored password a row gets by default.
     */
    method GetOrCreateUser(name: string) returns (u: User, created: bool)
      requires Valid()
      modifies this
      ensures Valid()
      ensures recipes == old(recipes) && tokens == old(tokens) && nextRecipeId == old(nextRecipeId)
      ensures created <==> old(UserNamed(name)).None?
      ensures !created ==> u == old(UserNamed(name)).value && users == old(users) && nextUserId == old(nextUserId)
      ensures created ==> u == User(old(nextUserId), name, None, Blank) && users == old(users)[u.id := u] && nextUserId == old(nextUserId) + 1
      ensures u.id in users && users[u.id] == u
    {
      var found := UserNamed(name);
      if found.Some? {
        return found.value, false;
      }
      u := User(nextUserId, name, None, Blank);
      users := users[u.id := u];
      nextUserId := nextUserId + 1;
      created := true;
    }

    /** `set_password` followed by `save`: only the user's stored password changes. */
    method SetPassword(u: UserId, secret: string)
      requires Valid() && u in users
      modifies this
      ensures Valid()
      ensures users == old(users)[u := old(users)[u].(password := Encoded(secret))]
      ensures recipes == old(recipes) && tokens == old(tokens)
      ensures nextUserId == old(nextUserId) && nextRecipeId == old(nextRecipeId)
    {
      users := users[u := users[u].(password := Encoded(secret))];
    }

    /**
     * `Recipe.objects.get_or_create(title=..., defaults=...)` when at most one recipe has
     * that title: the existing recipe, or a new one built from the title and the defaults.
     */
    method GetOrCreateRecipe(title: string, description: string, ingredients: string, steps: string,
                             author: UserId, now: Instant)
      returns (r: Recipe, created: bool)
      requires Valid() && author in users
      requires CountTitle(recipes, title) <= 1
      requires recipes == [] || recipes[0].createdAt <= now
      requires 0 < |title| <= TitleMaxLength && ingredients != [] && steps != []
      modifies this
      ensures Valid()
      ensures users == old(users) && tokens == old(tokens) && nextUserId == old(nextUserId)
      ensures (recipes, nextRecipeId, created) == GetOrCreateByTitle(old(recipes), old(nextRecipeId), title, description, ingredients, steps, author, now)
      ensures r.title == title && r in recipes
    {
      CountTitleFind(recipes, title);
      var found := Find(recipes, ByTitle(title));
      if found.Some? {
        return found.value, false;
      }
      r := Recipe(nextRecipeId, title, description, ingredients, steps, None, author, now, now);
      Insert(r);
      created := true;
    }
  }

  /** The effect of a get-or-create by title on the recipe table and its id counter. */
  function GetOrCreateByTitle(rs: seq<Recipe>, nextId: nat, title: string, description: string, ingredients: string,
                              steps: string, author: UserId, now: Instant): (seq<Recipe>, nat, bool)
  {
    if CountTitle(rs, title) > 0 then (rs, nextId, false)
    else ([Recipe(nextId, title, description, ingredients, steps, None, author, now, now)] + rs, nextId + 1, true)
  }
}
