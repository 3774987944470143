/**
 * The register / login / list / create / retrieve flow of the API test
 * (recipe_app_backend/api/tests.py), run against the store: "alice" and "bob"
 * register, alice logs in and gets her token, the public list is read, alice
 * creates "Pancakes" under that token and anyone can retrieve it. The flow then
 * goes on past the test with two delete steps: nobody but the author can delete
 * the recipe, and after the author deletes it, it is gone.
 */
module Scenario {
  import opened Common
  import opened Models
  import Access
  import Serializers
  import Text
  import Views

  /** A text value with no surrounding whitespace and no NUL that fits the rule is accepted unchanged. */
  lemma Accepts(rule: Serializers.TextRule, data: map<string, Serializers.Json>, name: string, s: string, partial: bool)
    requires name in data && data[name] == Serializers.JStr(s)
    requires s == [] ==> rule.allowBlank
    requires s != [] ==> !Text.IsSpace(s[0]) && !Text.IsSpace(s[|s| - 1])
    requires '\0' !in s
    requires rule.minLength <= |s| && (rule.maxLength.Some? ==> |s| <= rule.maxLength.value)
    ensures Serializers.ValidateField(rule, data, name, partial) == Serializers.Accepted(Some(s))
  {
    Text.TrimTrimmed(s);
  }

  /**
   * Registration bodies: "bob" as the test registers him, and "alice", whom the test
   * creates directly with the same password and no email, registered here instead.
   */
  function AliceBody(): map<string, Serializers.Json>
  {
    map["username" := Serializers.JStr("alice"), "password" := Serializers.JStr("Password123!")]
  }

  function BobBody(): map<string, Serializers.Json>
  {
    map[
      "username" := Serializers.JStr("bob"),
      "password" := Serializers.JStr("Password123!"),
      "email" := Serializers.JStr("bob@example.com")]
  }

  /** Alice's registration is accepted while her username is free. */
  lemma AliceRegistrationAccepted(taken: set<string>)
    requires "alice" !in taken
    ensures Serializers.ValidateRegistration(AliceBody(), taken) ==
      Success(Serializers.Registration("alice", None, "Password123!"))
  {
    Accepts(Serializers.UsernameRule, AliceBody(), "username", "alice", false);
    Accepts(Serializers.PasswordRule, AliceBody(), "password", "Password123!", false);
  }

  /** Bob's registration, with his email, is accepted while his username is free. */
  lemma BobRegistrationAccepted(taken: set<string>)
    requires "bob" !in taken
    ensures Serializers.ValidateRegistration(BobBody(), taken) ==
      Success(Serializers.Registration("bob", Some("bob@example.com"), "Password123!"))
  {
    BobFieldsAccepted();
  }

  /** Each field of Bob's registration body is accepted as sent. */
  lemma BobFieldsAccepted()
    ensures Serializers.ValidateField(Serializers.UsernameRule, BobBody(), "username", false) == Serializers.Accepted(Some("bob"))
    ensures Serializers.ValidateField(Serializers.EmailRule, BobBody(), "email", false) == Serializers.Accepted(Some("bob@example.com"))
    ensures Serializers.ValidateField(Serializers.PasswordRule, BobBody(), "password", false) == Serializers.Accepted(Some("Password123!"))
  {
    Accepts(Serializers.UsernameRule, BobBody(), "username", "bob", false);
    Accepts(Serializers.EmailRule, BobBody(), "email", "bob@example.com", false);
    Accepts(Serializers.PasswordRule, BobBody(), "password", "Password123!", false);
  }

  /** A registration the serializer accepts creates a user under the next id, with a token. */
  method RegisterAccepted(store: Views.Store, data: map<string, Serializers.Json>, reg: Serializers.Registration, key: Views.TokenKey)
    returns (u: UserId)
    requires store.Valid() && key !in store.tokens.Values
    requires Serializers.ValidateRegistration(data, store.TakenUsernames()) == Success(reg)
    modifies store
    ensures store.Valid() && store.recipes == old(store.recipes)
    ensures u == old(store.nextUserId) && u in store.users && store.users[u].username == reg.username
    ensures store.users == old(store.users)[u := store.users[u]]
    ensures store.nextUserId == u + 1
    ensures store.tokens == old(store.tokens)[u := key]
  {
    var res := store.Register(data, key);
    u := res.value.user.id;
  }

  /** Registering "alice" and then "bob" on an empty store succeeds twice, with two different users. */
  method RegisterTwo() returns (store: Views.Store, a: UserId, b: UserId)
    ensures fresh(store) && store.Valid() && store.recipes == []
    ensures a in store.users && b in store.users && a != b
    ensures store.tokens == map[a := "key-alice", b := "key-bob"]
  {
    store := new Views.Store();
    AliceRegistrationAccepted(store.TakenUsernames());
    a := RegisterAccepted(store, AliceBody(), Serializers.Registration("alice", None, "Password123!"), "key-alice");
    assert "bob" !in store.TakenUsernames();
    BobRegistrationAccepted(store.TakenUsernames());
    b := RegisterAccepted(store, BobBody(), Serializers.Registration("bob", Some("bob@example.com"), "Password123!"), "key-bob");
  }

  /** The request body of the test's create call. */
  function PancakesBody(): map<string, Serializers.Json>
  {
    map[
      "title" := Serializers.JStr("Pancakes"),
      "description" := Serializers.JStr("Fluffy pancakes"),
      "ingredients" := Serializers.JStr("Flour\nEggs\nMilk"),
      "steps" := Serializers.JStr("Mix\nCook"),
      "image_url" := Serializers.JStr("")]
  }

  /** The create body's title and description are accepted as sent. */
  lemma PancakesTitleAccepted()
    ensures Serializers.ValidateField(Serializers.TitleRule, PancakesBody(), "title", false) == Serializers.Accepted(Some("Pancakes"))
    ensures Serializers.ValidateField(Serializers.DescriptionRule, PancakesBody(), "description", false) == Serializers.Accepted(Some("Fluffy pancakes"))
  {
    var body := PancakesBody();
    Accepts(Serializers.TitleRule, body, "title", "Pancakes", false);
    Accepts(Serializers.DescriptionRule, body, "description", "Fluffy pancakes", false);
  }

  /** The create body's ingredients and steps are accepted as sent. */
  lemma PancakesStepsAccepted()
    ensures Serializers.ValidateField(Serializers.IngredientsRule, PancakesBody(), "ingredients", false) == Serializers.Accepted(Some("Flour\nEggs\nMilk"))
    ensures Serializers.ValidateField(Serializers.StepsRule, PancakesBody(), "steps", false) == Serializers.Accepted(Some("Mix\nCook"))
  {
    var body := PancakesBody();
    Accepts(Serializers.IngredientsRule, body, "ingredients", "Flour\nEggs\nMilk", false);
    Accepts(Serializers.StepsRule, body, "steps", "Mix\nCook", false);
  }

  /** The create body's blank image URL is accepted as sent. */
  lemma PancakesImageAccepted()
    ensures Serializers.ValidateField(Serializers.ImageUrlRule, PancakesBody(), "image_url", false) == Serializers.Accepted(Some(""))
  {
    Accepts(Serializers.ImageUrlRule, PancakesBody(), "image_url", "", false);
  }

  /** The create body is accepted as it stands, with a blank image URL. */
  lemma PancakesBodyAccepted()
    ensures Serializers.ValidateRecipe(PancakesBody(), false) == Success(Serializers.RecipeInput(
      Some("Pancakes"), Some("Fluffy pancakes"), Some("Flour\nEggs\nMilk"), Some("Mix\nCook"), Some(Some(""))))
  {
    PancakesTitleAccepted();
    PancakesStepsAccepted();
    PancakesImageAccepted();
  }

  /**
   * Alice logs in with the body she registered with and gets back the token she
   * already holds. `check` stands for the framework's `authenticate`, knowing only
   * alice's password.
   */
  method AliceLogsIn(store: Views.Store, a: UserId) returns (key: Views.TokenKey)
    requires store.Valid() && a in store.users && a in store.tokens && "key-login" !in store.tokens.Values
    modifies store
    ensures store.Valid() && store.recipes == old(store.recipes) && store.tokens == old(store.tokens)
    ensures key == store.tokens[a]
  {
    var check := (name: string, password: string) =>
      if name == "alice" && password == "Password123!" then Some(a) else None;
    Accepts(Serializers.UsernameRule, AliceBody(), "username", "alice", false);
    Accepts(Serializers.LoginPasswordRule, AliceBody(), "password", "Password123!", false);
    var res := store.Login(AliceBody(), check, "key-login");
    key := res.value.key;
  }

  /** User `a` creates "Pancakes": the request is accepted and the recipe is authored by `a`. */
  method CreatePancakes(store: Views.Store, a: UserId, now: Instant) returns (r: Recipe)
    requires store.Valid() && store.recipes == [] && a in store.users
    modifies store
    ensures store.Valid() && store.recipes == [r]
    ensures r.authorId == a && r.title == "Pancakes" && r.createdAt == now
  {
    PancakesBodyAccepted();
    var created := store.Create(Some(a), PancakesBody(), now);
    r := created.value;
  }

  /**
   * A caller other than the author cannot delete recipe `r`: an anonymous one is told
   * to authenticate, a signed-in one is refused, and the recipe stays.
   */
  method DeniedDelete(store: Views.Store, r: Recipe, actor: Option<UserId>) returns (err: Option<ApiError>)
    requires store.Valid() && r in store.recipes && actor != Some(r.authorId)
    modifies store
    ensures store.Valid() && store.recipes == old(store.recipes)
    ensures err == Some(if actor.None? then NotAuthenticated else PermissionDenied)
  {
    var q := Views.Query(None, None);
    store.LookupFinds(r, q);
    Access.MutationsOnlyByAuthor(actor, Access.Destroy, r);
    err := store.Destroy(actor, r.id, q);
  }

  /** The author may delete recipe `r`; afterwards it is not found. */
  method AuthorDeletes(store: Views.Store, r: Recipe)
    requires store.Valid() && r in store.recipes
    modifies store
    ensures store.Valid() && r !in store.recipes
    ensures store.Retrieve(None, r.id, Views.Query(None, None)) == Failure(NotFound)
  {
    var q := Views.Query(None, None);
    store.LookupFinds(r, q);
    ghost var before := store.recipes;
    var err := store.Destroy(Some(r.authorId), r.id, q);
    assert err.None?;
    Views.RemoveIdSpec(before, r.id);
  }

  /** The flow of the API test, extended by the two delete steps. */
  method CrudFlow(now: Instant)
  {
    var store, a, b := RegisterTwo();
    var key := AliceLogsIn(store, a);
    var listed := store.Visible(Views.Query(None, None));
    assert listed == [];
    var caller := store.ResolveToken(Some(key));
    assert caller == Success(Some(a));
    var r := CreatePancakes(store, caller.value.value, now);
    var err := DeniedDelete(store, r, Some(b));
    assert err == Some(PermissionDenied);
    err := DeniedDelete(store, r, None);
    assert err == Some(NotAuthenticated);
    assert store.Retrieve(None, r.id, Views.Query(None, None)) == Success(r) by {
      store.LookupFinds(r, Views.Query(None, None));
    }
    AuthorDeletes(store, r);
  }
}
