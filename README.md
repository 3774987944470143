# Recipe hub backend: a verified model

This project models the behaviour of the recipe hub's Django REST backend (`recipe_app_backend/api`) in Dafny and proves properties about it. It covers:

- **The access policy** (`Access`). This is `IsAuthorOrReadOnly` together with `RecipeViewSet.get_permissions`, and how the two checks combine on a request. A refusal means "not authenticated" for an anonymous caller and "permission denied" for a signed-in one.
- **The query scoper** (`Queries`). This is `get_queryset`: a case-insensitive title substring filter, then an author filter that matches the username ignoring case or the id written out as text. The filters combine by AND over the newest-first recipe list.
- **The records** (`Models`). These are the `Recipe` row with its field constraints, default ordering and string form, and the parts of the framework's user that the backend relies on.
- **The serializers** (`Serializers`):
  - validation of recipe bodies, where read-only fields are ignored and every field error is collected;
  - registration, which needs a free username and a password of at least 8 characters;
  - login, which fails with one fixed message;
  - the public shapes of users, recipes and auth responses. The password is write-only.
- **The store** (`Views.Store`). This is a class holding the users, the newest-first recipe table and one token per user:
  - recipe create, retrieve, update and destroy;
  - register, login and logout;
  - token resolution;
  - deleting a user, which cascades to that user's recipes and token.

  Every method keeps the store invariant `Valid()`:
  - ids are consistent;
  - usernames are unique;
  - no two users share a token;
  - every recipe has an existing author;
  - recipe ids are distinct;
  - field constraints hold;
  - the table stays newest first.
- **The `seed_recipes` command** (`Seed`). It is modelled as imperative code over the store and proved against a pure specification `Seeded`. The proofs cover:
  - which recipes are created;
  - that the returned count equals the number of missing demo titles and is at most 5;
  - that every demo title occurs exactly once afterwards;
  - that a second run creates nothing.
- **The test flow** (`Scenario`). This is the flow of `recipe_app_backend/api/tests.py`, written as client code against the store: bob registers, alice logs in and gets her token, the public list is read, alice creates "Pancakes" with that token and anyone can retrieve it. Alice, whom the test creates directly, is registered through the API here. The model then extends the test with two delete steps the test does not have: nobody but the author can delete the recipe, and once the author deletes it, it is not found.

A few things are written as the source's behaviour implies rather than as the design describes it:

- **Anonymous create.** The permission class restricts only the object-level check. Create has no object, so the policy admits an anonymous create, even though the view's docstring says create requires authentication (`Access.CreateNotGatedByPolicy`). `Views.Store.Create` therefore requires an authenticated caller instead of claiming a clean refusal.
- **Queries on detail lookups.** Retrieve, update and destroy look the recipe up through `get_queryset`, so the `title` and `author` query parameters also narrow detail lookups (`Views.Store.Lookup`).
- **Whitespace trimming.** Text fields are validated as the framework's `CharField` does it. A blank value is settled first. Otherwise the value is trimmed of the whitespace Python's `str.strip()` removes, then checked against its length bounds, then refused if it holds a NUL character. This applies to passwords too.
- **The demo user's password.** A freshly created demo user gets a blank stored password, which the framework treats as usable. So the demo password is never set for it, and `Seed.Handle` does the same (see Findings).

## Model

| member | source | states |
|---|---|---|
| Access.SafeMethodsAlwaysPermitted | recipe_app_backend/api/views.py:23-25 | for GET, HEAD and OPTIONS the object permission holds for every caller and every recipe |
| Access.UnsafeMethodsOnlyForAuthor | recipe_app_backend/api/views.py:26 | for any other method the object permission holds iff the caller's id equals the recipe's author id; never for an anonymous caller |
| Access.PermissionsPerAction | recipe_app_backend/api/views.py:142-145 | list and retrieve use AllowAny, and exactly the other actions use IsAuthorOrReadOnly |
| Access.ReadActionsAllowed | recipe_app_backend/api/views.py:142-144 | list and retrieve are allowed for any caller on any recipe |
| Access.MutationsOnlyByAuthor | recipe_app_backend/api/views.py:18-26 | update, partial update and destroy are allowed iff the caller is the author; a refused anonymous caller gets NotAuthenticated, a refused user PermissionDenied |
| Access.MutationDecisionPerObject | recipe_app_backend/api/views.py:26 | a caller allowed to mutate two recipes is the author of both |
| Access.CreateNotGatedByPolicy | recipe_app_backend/api/views.py:142-148 | the policy admits create from every caller, anonymous included |
| Text.ContainsIffOccurs | recipe_app_backend/api/views.py:155 | the substring test behind `icontains` holds iff the needle occurs at some position |
| Text.TrimIsSlice | recipe_app_backend/api/serializers.py:29-30 | a trimmed text field value is a contiguous slice of the input with only whitespace cut off on either side |
| Queries.FilterTitleSpec | recipe_app_backend/api/views.py:154-155 | the title filter keeps exactly the recipes whose title contains the parameter ignoring case, in order |
| Queries.FilterAuthorSpec | recipe_app_backend/api/views.py:156-157 | the author filter keeps exactly the recipes whose author's username equals the parameter ignoring case or whose author id, as text, equals it, in order |
| Queries.ScopeSpec | recipe_app_backend/api/views.py:150-158 | the scoped list is an order-preserving sub-list holding exactly the recipes that pass every given filter (AND) |
| Queries.ScopeNoFilters | recipe_app_backend/api/views.py:151-158 | with both parameters absent or empty the scoped list is the base list, in its order |
| Queries.ScopeNewestFirst | recipe_app_backend/api/views.py:150-158 | scoping a newest-first list gives a newest-first list |
| Queries.ScopeIdempotent | recipe_app_backend/api/views.py:154-157 | scoping again with the same parameters changes nothing |
| Queries.PanMatchesPancakes | recipe_app_backend/api/views.py:154-155 | the title parameter "pan" keeps "Pancakes" |
| Queries.AuthorByNameOrId | recipe_app_backend/api/views.py:156-157 | "ALICE" and "7" both select user 7 named "alice"; "bob" does not |
| Queries.SubsequenceNewestFirst | recipe_app_backend/api/models.py:28 | dropping recipes from a newest-first list keeps it newest first |
| Models.RecipeString | recipe_app_backend/api/models.py:34-35 | a recipe's string form is its title, then " by ", then its author's username |
| Serializers.ValidateText | recipe_app_backend/api/serializers.py:10 | a value is accepted iff it is blank where blank is allowed, or otherwise its trimmed form fits the length bounds and holds no NUL; an accepted value is the trimmed input; a blank refusal says "may not be blank" |
| Serializers.ValidateField | recipe_app_backend/api/serializers.py:57-67 | a missing field is skipped on a partial write or when optional, else "required"; a submitted string is validated as text, a number as its decimal text, null accepted only where allowed, anything else "Not a valid string."; an accepted value is trimmed, NUL-free, within bounds, and non-blank unless allowed |
| Serializers.ValidateRecipe | recipe_app_backend/api/serializers.py:50-68 | an accepted body satisfies the recipe field constraints; a full write carries title, ingredients and steps; a rejection names a writable field |
| Serializers.ValidateRecipeSpec | recipe_app_backend/api/serializers.py:50-68 | a body is accepted iff no writable field is rejected, and the accepted input carries exactly each field's validated submitted value; only fields sent are set |
| Serializers.WellFormedBodyAccepted | recipe_app_backend/api/models.py:18-21 | any body whose title, ingredients and steps are non-blank, NUL-free strings (a title of at most 200 characters) and whose description and image URL, sent or not, pass their own rules is accepted with exactly those trimmed values, the validated description and the validated image URL when one was sent |
| Serializers.ReadOnlyFieldsIgnored | recipe_app_backend/api/serializers.py:68 | values sent for id, author, created_at and updated_at make no difference to validation |
| Serializers.LongTitleRejected | recipe_app_backend/api/models.py:18 | a title longer than 200 characters is rejected with the length message |
| Serializers.BlankTitleRejected | recipe_app_backend/api/models.py:18 | a blank title is rejected |
| Serializers.TitleRequiredOnFullWrite | recipe_app_backend/api/models.py:18 | a full write without a title is rejected as required; a partial one leaves the title alone |
| Serializers.BlankDescriptionAccepted | recipe_app_backend/api/models.py:19 | an empty description is accepted |
| Serializers.ImageUrlNullOrBlankAccepted | recipe_app_backend/api/models.py:22 | the image URL may be null or blank |
| Serializers.UserRepr | recipe_app_backend/api/serializers.py:41-46 | the public user has exactly the keys id and username |
| Serializers.PasswordWriteOnly | recipe_app_backend/api/serializers.py:10 | the registration output holds id, username and email, never the password |
| Serializers.AuthResponse | recipe_app_backend/api/views.py:87 | the register and login body has exactly the keys user and token, with the public user and the key |
| Serializers.AuthResponseHidesPassword | recipe_app_backend/api/views.py:104 | neither level of the auth response carries a password |
| Serializers.ValidateRegistration | recipe_app_backend/api/serializers.py:7-22 | a registration is accepted iff the username is accepted and not taken, the email is not rejected and the password is accepted; the accepted registration holds exactly the validated username, email (None when missing) and password, so a non-blank free username and a password of at least 8 characters; a rejected email or password is reported under its own name |
| Serializers.ShortPasswordRejected | recipe_app_backend/api/serializers.py:10 | a password under 8 characters rejects the registration with a password error |
| Serializers.RegistrationKeepsFields | recipe_app_backend/api/serializers.py:16-22 | the created user gets the supplied username and password (trimmed); a missing email is passed as None |
| Serializers.TakenUsernameRejected | recipe_app_backend/api/serializers.py:12-14 | a username already in use rejects the registration with the duplicate message |
| Serializers.ValidateLogin | recipe_app_backend/api/serializers.py:26-37 | login succeeds iff both fields are accepted and the credential check finds a user for their values; the result holds the submitted (trimmed) username and password and that user; a rejected field is reported under its own name |
| Serializers.CheckCredentials | recipe_app_backend/api/serializers.py:32-37 | validation succeeds iff the credential check finds a user; the result holds the submitted fields plus that user; a failure is the single non-field message |
| Serializers.LoginFailureIsUniform | recipe_app_backend/api/serializers.py:34-35 | every failed credential check gives the same error, whatever was wrong |
| Serializers.RecipeRepr | recipe_app_backend/api/serializers.py:50-67 | the recipe output has exactly the nine declared keys, each holding the recipe's own value (a missing image URL as null), with the author nested in its public form |
| Views.Find | recipe_app_backend/api/views.py:150-158 | the lookup by id (or, for get-or-create, by title) returns a recipe of the list with that key, or none has it |
| Views.CountTitleFind | recipe_app_backend/api/management/commands/seed_recipes.py:21-22 | a title has no recipe iff the lookup by that title finds none |
| Views.ReplaceById | recipe_app_backend/api/views.py:122-136 | saving an updated recipe replaces exactly the entries with its id, in place |
| Views.RemoveIdSpec | recipe_app_backend/api/views.py:122-136 | deleting a recipe keeps exactly the other recipes, in order |
| Views.WithoutAuthorSpec | recipe_app_backend/api/models.py:23 | the cascade keeps exactly the recipes of other authors, in order |
| Views.SameIdSameRecipe | recipe_app_backend/api/views.py:122-136 | among recipes with distinct ids, the id determines the recipe |
| Views.PrependKeepsRecipesOk | recipe_app_backend/api/models.py:24-28 | a new recipe with a fresh id and a creation time not before the newest keeps the table valid and newest first |
| Views.ReplaceKeepsRecipesOk | recipe_app_backend/api/models.py:24-28 | replacing a recipe by one with the same id, author and creation time keeps the table valid and newest first |
| Views.UpdatedKeepsIdentity | recipe_app_backend/api/models.py:24-25 | an update keeps id, author and created_at, sets updated_at to now and keeps the field constraints |
| Views.NewRecipeStamps | recipe_app_backend/api/views.py:147-148 | a created recipe is authored by the caller and has created_at = updated_at = now, whatever the body said |
| Views.Store.constructor | recipe_app_backend/api/models.py:5-25 | an empty store is valid |
| Views.Store.TakenIffNamed | recipe_app_backend/api/serializers.py:12-14 | a username counts as taken for registration iff a user of that name exists |
| Views.Store.Visible | recipe_app_backend/api/views.py:150-158 | the queryset is an order-preserving sub-list of the table holding exactly the recipes that pass the query |
| Views.Store.Lookup | recipe_app_backend/api/views.py:150-158 | the detail lookup finds a stored recipe of that id that passes the query's filters, or no recipe of that id passes them |
| Views.Store.LookupFinds | recipe_app_backend/api/views.py:150-158 | a stored recipe that passes the query is what the lookup of its id returns |
| Views.Store.Retrieve | recipe_app_backend/api/views.py:142-144 | retrieve succeeds for any caller iff the lookup finds the recipe, and fails with NotFound otherwise |
| Views.Store.ResolveToken | recipe_app_backend/api/views.py:135 | no token means anonymous; a known key resolves to its user; an unknown key is NotAuthenticated |
| Views.Store.Create | recipe_app_backend/api/views.py:147-148 | an invalid body changes nothing; a valid one prepends a recipe with the next id, the body's writable fields, the caller as author and now as both timestamps; users, tokens and the user id counter are unchanged; the store stays valid |
| Views.Store.Insert | recipe_app_backend/api/views.py:147-148 | saving a new recipe puts it in front of the newest-first table under the next id and keeps the store valid; nothing else changes |
| Views.Store.Update | recipe_app_backend/api/views.py:122-136 | NotFound, then the policy's refusal, then validation errors, each leaving the table unchanged; otherwise only the supplied fields change, updated_at becomes now and the recipe is replaced in place; users, tokens and both id counters are unchanged |
| Views.Store.Destroy | recipe_app_backend/api/views.py:122-136 | NotFound, then the policy's refusal, each leaving the table unchanged; otherwise exactly that recipe is removed; users, tokens and both id counters are unchanged |
| Views.Store.GetOrCreateToken | recipe_app_backend/api/views.py:86 | an existing token is returned unchanged, otherwise the fresh key is stored for the user |
| Views.Store.Register | recipe_app_backend/api/views.py:82-88 | an invalid body changes nothing; otherwise a user with the next id, the validated fields and the encoded password is added and gets the fresh token |
| Views.Store.Login | recipe_app_backend/api/views.py:98-106 | a failed validation changes nothing; otherwise the session is the checked user with its existing token, or a new one |
| Views.Store.Logout | recipe_app_backend/api/views.py:110-118 | an anonymous caller gets NotAuthenticated; otherwise exactly the caller's token is removed and its old key no longer resolves |
| Views.Store.DeleteUser | recipe_app_backend/api/models.py:23 | the user, that user's token and exactly that user's recipes are removed |
| Views.Store.UserNamed | recipe_app_backend/api/management/commands/seed_recipes.py:14 | the lookup by username finds the user of that name, or there is none |
| Views.Store.GetOrCreateUser | recipe_app_backend/api/management/commands/seed_recipes.py:14 | the existing user of that name, unchanged, or a new user with the next id, no email and a blank password |
| Views.Store.SetPassword | recipe_app_backend/api/management/commands/seed_recipes.py:16-17 | only that user's stored password changes |
| Views.Store.GetOrCreateRecipe | recipe_app_backend/api/management/commands/seed_recipes.py:21-29 | the table changes as `GetOrCreateByTitle` says: a new recipe from the defaults only when no recipe has the title |
| Seed.DemoTitle | recipe_app_backend/api/management/commands/seed_recipes.py:20 | demo title i is "Demo Recipe " followed by the digit i |
| Seed.DemoTitlesDistinct | recipe_app_backend/api/management/commands/seed_recipes.py:19-20 | different numbers give different demo titles |
| Seed.StepCounts | recipe_app_backend/api/management/commands/seed_recipes.py:21-29 | one iteration adds its demo title exactly when it is missing and changes no other title's count |
| Seed.SeededCounts | recipe_app_backend/api/management/commands/seed_recipes.py:19-29 | after the loop each demo title occurs once if it was missing, and every other title as often as before |
| Seed.SeededCreated | recipe_app_backend/api/management/commands/seed_recipes.py:18-31 | the count equals the number of demo titles that were missing |
| Seed.MissingCountBound | recipe_app_backend/api/management/commands/seed_recipes.py:19 | at most 5 titles can be missing |
| Seed.StepShape | recipe_app_backend/api/management/commands/seed_recipes.py:21-31 | one iteration either changes nothing or adds one new recipe of the demo user in front and counts it |
| Seed.SeededExtends | recipe_app_backend/api/management/commands/seed_recipes.py:19-31 | the old recipes stay, unchanged and in order, behind one new recipe per created count, and the next id grows by the count |
| Seed.SeededNewRecipes | recipe_app_backend/api/management/commands/seed_recipes.py:21-29 | the added recipes are by the demo user, stamped now, with fresh ids |
| Seed.SeededNoop | recipe_app_backend/api/management/commands/seed_recipes.py:19-29 | with every demo title present the loop changes nothing |
| Seed.SecondRunCreatesNothing | recipe_app_backend/api/management/commands/seed_recipes.py:12-32 | a second run, for any demo user and time, creates nothing and reports 0 |
| Seed.DemoUserAsWritten | recipe_app_backend/api/management/commands/seed_recipes.py:14-17 | as written, an existing user with a usable password is kept and an unusable one gets the demo password |
| Seed.NewDemoUserLacksDemoPassword | recipe_app_backend/api/management/commands/seed_recipes.py:14-17 | as written, a newly created demo user keeps a blank password, not the demo password |
| Seed.DemoUserHasPassword | recipe_app_backend/api/management/commands/seed_recipes.py:14-17 | corrected: the demo user always has a real password, namely the demo password when it is new or had none |
| Seed.DemoUserFixDiffers | recipe_app_backend/api/management/commands/seed_recipes.py:14-17 | the corrected and the as-written rule differ exactly for a new demo user or one with a blank password |
| Seed.EnsureDemoUser | recipe_app_backend/api/management/commands/seed_recipes.py:14-17 | afterwards the user named "demo" exists and is as `DemoUserAsWritten` says (the demo password only over an unusable one); the user id counter grows by one iff the user was new; nothing else changes |
| Seed.SeedOne | recipe_app_backend/api/management/commands/seed_recipes.py:20-31 | one iteration on the store performs `SeedStep` and keeps the store valid |
| Seed.SeedRecipes | recipe_app_backend/api/management/commands/seed_recipes.py:18-31 | the loop leaves the table, the next id and the count as `Seeded` gives them |
| Seed.Handle | recipe_app_backend/api/management/commands/seed_recipes.py:12-32 | the demo user is as `DemoUserAsWritten` says; the table follows `Seeded`; the count is the number of missing demo titles, at most 5; every demo title occurs exactly once; tokens are unchanged and the user id counter grows only for a new demo user |
| Scenario.AliceRegistrationAccepted | recipe_app_backend/api/tests.py:15-17 | a registration for alice (whom the test creates directly, with the same password) passes validation while the name is free, keeping username and password, with no email |
| Scenario.BobRegistrationAccepted | recipe_app_backend/api/tests.py:20-25 | the test's registration of bob passes validation while the name is free, keeping username, email and password |
| Scenario.RegisterAccepted | recipe_app_backend/api/views.py:82-88 | an accepted registration adds a user under the next id with a token |
| Scenario.RegisterTwo | recipe_app_backend/api/tests.py:15-27 | on an empty store, alice and bob become two distinct users, each holding its own token, and no recipe exists |
| Scenario.AliceLogsIn | recipe_app_backend/api/tests.py:29-34 | alice's login with her registration body succeeds and returns the token she already holds, changing neither the tokens nor the table |
| Scenario.PancakesBodyAccepted | recipe_app_backend/api/tests.py:42-52 | the test's create body is accepted as sent |
| Scenario.CreatePancakes | recipe_app_backend/api/tests.py:40-54 | the create succeeds and the recipe is authored by the caller |
| Scenario.DeniedDelete | recipe_app_backend/api/views.py:18-26 | a non-author delete is refused and the table is unchanged |
| Scenario.AuthorDeletes | recipe_app_backend/api/views.py:18-26 | the author's delete succeeds and the recipe is then not found |

## Left out

- Pagination (page size 10, at most 100), `SearchFilter` and `OrderingFilter`: these are framework algorithms that the repository only configures. Lists keep the default newest-first order and are not paged.
- The `health` and `api_root` endpoints, URL routing and the admin registration: these are constant responses and configuration.
- HTTP status codes and response envelopes: errors are the `ApiError` values.
- Password hashing: `Encoded` holds the secret as given.
- Token key generation: the new key is a parameter that no user already has.
- The framework's `authenticate()`: the credential check is a function parameter, so inactive-user handling and hashing comparisons live there.
- Database collation and `LIKE` semantics: case-insensitivity is ASCII lower-casing, with no Unicode case folding.
- The user model's own validators (the username's character set and 150-character limit, the email format and length) and URL format validation of `image_url`: these are framework rules not in the repository. Any text passes them here.
- The user manager's email normalisation (a missing email stored as empty text, the domain part lower-cased): the store keeps what the serializer passes.
- Booleans, objects and lists sent for text fields are rejected, as the framework does. Floats are not modelled (the framework accepts them as text): numbers are integers read as their decimal text.
- Timestamps are abstract instants handed in as `now`. The clock, time zones and datetime rendering are not modelled.
- Views.Store.Create: requires an authenticated caller. The anonymous create that the policy lets through to `perform_create` fails inside the framework when it saves a non-user as author, and that outcome is not modelled. It also requires `now` not to be earlier than the newest recipe, which a monotonic clock gives.
- Seed.Handle: requires at most one recipe per demo title beforehand, because the lookup by title raises on duplicates. The count is returned rather than written to stdout.
- Views.Store.GetOrCreateUser: a new user gets no email (`None`), where the framework's field default stores the empty text.
- Views.Store.GetOrCreateRecipe: requires at most one recipe with the title, for the same reason.
- Serializers.ValidateRecipe: on failure it states that some writable field carries an error, and `Combine` adds that a rejected title carries its own message. It does not list, field by field, the message each rejected field carries.
- Serializers.ValidateText: when a value fails several checks at once (too long and holding a NUL), the framework lists every message, and the model keeps only the first. The framework's ban on surrogate characters has no counterpart, because a Dafny string cannot hold one.
- Transactions and concurrent requests.

## Findings

| source | as written | input that shows it | evidently intended | confidence | as-written member | corrected member |
|---|---|---|---|---|---|---|
| recipe_app_backend/api/management/commands/seed_recipes.py:14-17 | the demo password is set only when the stored password is unusable, but `get_or_create(username="demo")` creates the user with a blank password, which counts as usable | an empty user table: the command creates "demo" with a blank password and never sets "DemoPassword123!", so the demo user cannot log in | a user without a real password (new, blank or unusable) gets the demo password; a set password is kept | medium, not executed | Seed.NewDemoUserLacksDemoPassword | Seed.DemoUserHasPassword |
