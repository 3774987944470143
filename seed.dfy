/**
 * The `seed_recipes` management command
 * (recipe_app_backend/api/management/commands/seed_recipes.py): get or create the
 * "demo" user, give it the demo password when its stored password is unusable,
 * then get or create the five demo recipes by title and count the ones created.
 */
module Seed {
  import opened Common
  import opened Models
  import Text
  import Views

  const DemoUsername: string := "demo"
  const DemoPassword: string := "DemoPassword123!"
  const DemoDescription: string := "A tasty demo recipe."
  const DemoIngredients: string := "Sugar\nSpice\nEverything Nice"
  const DemoSteps: string := "Combine ingredients.\nCook well.\nServe hot."
  /** The command seeds the titles numbered 1 to 5. */
  const DemoCount: nat := 5

  /** "Demo Recipe <i>". */
  function DemoTitle(i: nat): (t: string)
    ensures 1 <= i <= 9 ==> t == "Demo Recipe " + [Text.Digit(i)]
    ensures 0 < |t| <= TitleMaxLength || i >= 10
  {
    "Demo Recipe " + Text.NatToDecimal(i)
  }

  /** Distinct numbers give distinct demo titles. */
  lemma DemoTitlesDistinct(i: nat, j: nat)
    requires 1 <= i <= 9 && 1 <= j <= 9 && i != j
    ensures DemoTitle(i) != DemoTitle(j)
  {
    assert DemoTitle(i)[12] == Text.Digit(i) && DemoTitle(j)[12] == Text.Digit(j);
    assert "0123456789"[i] != "0123456789"[j];
  }

  /** Whether `title` is one of the demo titles numbered 1 to `k`. */
  predicate IsDemoTitle(title: string, k: nat)
  {
    k > 0 && (title == DemoTitle(k) || IsDemoTitle(title, k - 1))
  }

  lemma {:induction false} DemoTitleIsDemo(i: nat, k: nat)
    requires 1 <= i <= k
    ensures IsDemoTitle(DemoTitle(i), k)
  {
    if i < k {
      DemoTitleIsDemo(i, k - 1);
    }
  }

  lemma {:induction false} LaterTitleNotEarlier(i: nat, k: nat)
    requires 1 <= i <= 9 && k < i
    ensures !IsDemoTitle(DemoTitle(i), k)
  {
    if k > 0 {
      DemoTitlesDistinct(i, k);
      LaterTitleNotEarlier(i, k - 1);
    }
  }

  /** The recipe table, the next recipe id and the running count of created recipes. */
  datatype Table = Table(recipes: seq<Recipe>, nextId: nat, created: nat)

  /** One iteration of the command's loop: get or create demo recipe `i`. */
  function SeedStep(t: Table, i: nat, author: UserId, now: Instant): Table
  {
    var (rs, nextId, wasCreated) :=
      Views.GetOrCreateByTitle(t.recipes, t.nextId, DemoTitle(i), DemoDescription, DemoIngredients, DemoSteps, author, now);
    Table(rs, nextId, if wasCreated then t.created + 1 else t.created)
  }

  /** The table after the iterations for the numbers 1 to `n`. */
  function Seeded(t: Table, n: nat, author: UserId, now: Instant): Table
  {
    if n == 0 then t else SeedStep(Seeded(t, n - 1, author, now), n, author, now)
  }

  /** How many of the demo titles 1 to `n` no recipe of `rs` carries. */
  function MissingCount(rs: seq<Recipe>, n: nat): nat
  {
    if n == 0 then 0
    else MissingCount(rs, n - 1) + (if Views.CountTitle(rs, DemoTitle(n)) == 0 then 1 else 0)
  }

  lemma {:induction false} MissingCountBound(rs: seq<Recipe>, n: nat)
    ensures MissingCount(rs, n) <= n
  {
    if n > 0 {
      MissingCountBound(rs, n - 1);
    }
  }

  lemma CountPrepend(r: Recipe, rs: seq<Recipe>, title: string)
    ensures Views.CountTitle([r] + rs, title) == (if r.title == title then 1 else 0) + Views.CountTitle(rs, title)
  {
    assert ([r] + rs)[1..] == rs;
  }

  /** One iteration adds demo title `k` exactly when no recipe carries it, and no other title. */
  lemma StepCounts(prev: Table, k: nat, author: UserId, now: Instant, title: string)
    ensures Views.CountTitle(SeedStep(prev, k, author, now).recipes, title) ==
      if title == DemoTitle(k) && Views.CountTitle(prev.recipes, title) == 0 then 1
      else Views.CountTitle(prev.recipes, title)
  {
    if Views.CountTitle(prev.recipes, DemoTitle(k)) == 0 {
      var rs := SeedStep(prev, k, author, now).recipes;
      CountPrepend(rs[0], prev.recipes, title);
      assert rs == [rs[0]] + prev.recipes;
    }
  }

  /**
   * After seeding titles 1 to `k`, a demo title among them occurs once if it was
   * missing and as often as before otherwise; every other title occurs as often as before.
   */
  lemma {:induction false} SeededCounts(t: Table, k: nat, author: UserId, now: Instant, title: string)
    requires k <= 9
    ensures Views.CountTitle(Seeded(t, k, author, now).recipes, title) ==
      if IsDemoTitle(title, k) && Views.CountTitle(t.recipes, title) == 0 then 1
      else Views.CountTitle(t.recipes, title)
  {
    if k > 0 {
      var prev := Seeded(t, k - 1, author, now);
      SeededCounts(t, k - 1, author, now, title);
      StepCounts(prev, k, author, now, title);
      if title == DemoTitle(k) {
        LaterTitleNotEarlier(k, k - 1);
      }
    }
  }

  /** Before iteration `i`, demo title `i` occurs no more often than it did at the start. */
  lemma NextTitleAtMostOnce(t: Table, i: nat, author: UserId, now: Instant)
    requires 1 <= i <= DemoCount
    requires Views.CountTitle(t.recipes, DemoTitle(i)) <= 1
    ensures Views.CountTitle(Seeded(t, i - 1, author, now).recipes, DemoTitle(i)) <= 1
  {
    SeededCounts(t, i - 1, author, now, DemoTitle(i));
    LaterTitleNotEarlier(i, i - 1);
  }

  /** The command creates exactly one recipe per missing demo title. */
  lemma {:induction false} SeededCreated(t: Table, n: nat, author: UserId, now: Instant)
    requires n <= 9
    ensures Seeded(t, n, author, now).created == t.created + MissingCount(t.recipes, n)
  {
    if n > 0 {
      SeededCreated(t, n - 1, author, now);
      SeededCounts(t, n - 1, author, now, DemoTitle(n));
      LaterTitleNotEarlier(n, n - 1);
    }
  }

  /** One iteration either changes nothing or puts one new recipe of the demo author in front. */
  lemma StepShape(prev: Table, k: nat, author: UserId, now: Instant)
    ensures var s := SeedStep(prev, k, author, now);
      || s == prev
      || (&& s.created == prev.created + 1 && s.nextId == prev.nextId + 1
          && |s.recipes| == |prev.recipes| + 1 && s.recipes[1..] == prev.recipes
          && s.recipes[0].authorId == author && s.recipes[0].createdAt == now && s.recipes[0].id == prev.nextId)
  {
  }

  /** `s` is `t` with `s.created - t.created` new recipes in front, each taking the next id. */
  ghost predicate Extends(s: Table, t: Table)
  {
    && s.created >= t.created
    && s.nextId == t.nextId + (s.created - t.created)
    && |s.recipes| == |t.recipes| + (s.created - t.created)
    && s.recipes[s.created - t.created..] == t.recipes
  }

  /** A step that changes nothing, or puts one counted recipe in front, keeps `Extends`. */
  lemma ExtendsStep(prev: Table, s: Table, t: Table)
    requires Extends(prev, t)
    requires s == prev || (s.created == prev.created + 1 && s.nextId == prev.nextId + 1
                           && |s.recipes| == |prev.recipes| + 1 && s.recipes[1..] == prev.recipes)
    ensures Extends(s, t)
  {
    if s != prev {
      assert s.recipes[s.created - t.created..] == s.recipes[1..][prev.created - t.created..];
    }
  }

  /** Seeding only adds recipes in front of the existing ones, one per created recipe and id. */
  lemma {:induction false} SeededExtends(t: Table, n: nat, author: UserId, now: Instant)
    ensures Extends(Seeded(t, n, author, now), t)
  {
    if n > 0 {
      SeededExtends(t, n - 1, author, now);
      var prev := Seeded(t, n - 1, author, now);
      StepShape(prev, n, author, now);
      ExtendsStep(prev, Seeded(t, n, author, now), t);
    }
  }

  /** The recipes of `s` in front of the `base` count recipes are by `author`, stamped `now`, with ids from `firstId` below `s.nextId`. */
  ghost predicate AddedBy(s: Table, base: nat, author: UserId, now: Instant, firstId: nat)
  {
    forall j :: 0 <= j < |s.recipes| - base ==>
      s.recipes[j].authorId == author && s.recipes[j].createdAt == now && firstId <= s.recipes[j].id < s.nextId
  }

  /** A step that puts one new recipe in front keeps the added recipes as described. */
  lemma AddedByStep(prev: Table, s: Table, base: nat, author: UserId, now: Instant, firstId: nat)
    requires AddedBy(prev, base, author, now, firstId)
    requires firstId <= prev.nextId && |prev.recipes| >= base
    requires s.nextId == prev.nextId + 1 && |s.recipes| == |prev.recipes| + 1 && s.recipes[1..] == prev.recipes
    requires s.recipes[0].authorId == author && s.recipes[0].createdAt == now && s.recipes[0].id == prev.nextId
    ensures AddedBy(s, base, author, now, firstId)
  {
    forall j | 1 <= j < |s.recipes| - base
      ensures s.recipes[j] == prev.recipes[j - 1]
    {
    }
  }

  /** The recipes seeding adds are by the demo author, stamped `now` and numbered from the next id on. */
  lemma {:induction false} SeededNewRecipes(t: Table, n: nat, author: UserId, now: Instant)
    ensures AddedBy(Seeded(t, n, author, now), |t.recipes|, author, now, t.nextId)
  {
    if n > 0 {
      SeededNewRecipes(t, n - 1, author, now);
      SeededExtends(t, n - 1, author, now);
      var prev := Seeded(t, n - 1, author, now);
      StepShape(prev, n, author, now);
      var s := Seeded(t, n, author, now);
      if s != prev {
        AddedByStep(prev, s, |t.recipes|, author, now, t.nextId);
      }
    }
  }

  /** When every demo title 1 to `n` is already present, seeding changes nothing. */
  lemma {:induction false} SeededNoop(t: Table, n: nat, author: UserId, now: Instant)
    requires forall i :: 1 <= i <= n ==> Views.CountTitle(t.recipes, DemoTitle(i)) > 0
    ensures Seeded(t, n, author, now) == t
  {
    if n > 0 {
      SeededNoop(t, n - 1, author, now);
    }
  }

  /** A second run of the command, whoever the demo user is and whenever it runs, creates nothing. */
  lemma SecondRunCreatesNothing(t: Table, author: UserId, now: Instant, author': UserId, later: Instant)
    ensures var s := Seeded(t, DemoCount, author, now);
      Seeded(Table(s.recipes, s.nextId, 0), DemoCount, author', later) == Table(s.recipes, s.nextId, 0)
  {
    var s := Seeded(t, DemoCount, author, now);
    forall i | 1 <= i <= DemoCount
      ensures Views.CountTitle(s.recipes, DemoTitle(i)) > 0
    {
      SeededCounts(t, DemoCount, author, now, DemoTitle(i));
      DemoTitleIsDemo(i, DemoCount);
    }
    SeededNoop(Table(s.recipes, s.nextId, 0), DemoCount, author', later);
  }

  /**
   * The demo user after the first part of `handle` as written: the existing user of
   * that name, or a new one with the blank stored password a row gets by default;
   * the demo password is set only when the stored password is unusable. A blank
   * password counts as usable, so a freshly created demo user keeps it.
   */
  function DemoUserAsWritten(before: Option<User>, nextId: UserId): (u: User)
    ensures u.username == DemoUsername || before.Some?
    ensures before.Some? ==> u.id == before.value.id && u.username == before.value.username
    ensures before.Some? && HasUsablePassword(before.value.password) ==> u == before.value
    ensures before.Some? && !HasUsablePassword(before.value.password) ==> u.password == Encoded(DemoPassword)
  {
    var user := if before.Some? then before.value else User(nextId, DemoUsername, None, Blank);
    if !HasUsablePassword(user.password) then user.(password := Encoded(DemoPassword)) else user
  }

  /** As written, a demo user the command creates ends up without the demo password: it cannot log in with it. */
  lemma NewDemoUserLacksDemoPassword(nextId: UserId)
    ensures DemoUserAsWritten(None, nextId).password == Blank
    ensures DemoUserAsWritten(None, nextId).password != Encoded(DemoPassword)
  {
  }

  /**
   * The demo user as the command evidently intends it: a user without a real password
   * (a blank or an unusable one) gets the demo password; a set password is kept.
   */
  function DemoUser(before: Option<User>, nextId: UserId): User
  {
    var user := if before.Some? then before.value else User(nextId, DemoUsername, None, Blank);
    if !user.password.Encoded? then user.(password := Encoded(DemoPassword)) else user
  }

  /**
   * The corrected demo user always has a real password: the demo password when the
   * user is new or had none, and an existing set password otherwise.
   */
  lemma DemoUserHasPassword(before: Option<User>, nextId: UserId)
    ensures DemoUser(before, nextId).password.Encoded?
    ensures before.None? ==> DemoUser(before, nextId) == User(nextId, DemoUsername, None, Encoded(DemoPassword))
    ensures before.Some? && before.value.password.Encoded? ==> DemoUser(before, nextId) == before.value
    ensures before.Some? && !before.value.password.Encoded? ==>
      DemoUser(before, nextId) == before.value.(password := Encoded(DemoPassword))
  {
  }

  /** The corrected and the as-written command differ exactly when there is no demo user or it has a blank password. */
  lemma DemoUserFixDiffers(before: Option<User>, nextId: UserId)
    ensures DemoUser(before, nextId) != DemoUserAsWritten(before, nextId) <==>
      before.None? || before.value.password.Blank?
  {
  }

  /**
   * The first part of `handle`: get or create the demo user, then give it the demo
   * password when its stored password is unusable (the rule of `DemoUserAsWritten`).
   */
  method EnsureDemoUser(store: Views.Store) returns (demo: User)
    requires store.Valid()
    modifies store
    ensures store.Valid()
    ensures store.recipes == old(store.recipes) && store.nextRecipeId == old(store.nextRecipeId)
    ensures store.tokens == old(store.tokens)
    ensures store.users == old(store.users)[demo.id := demo]
    ensures store.nextUserId == old(store.nextUserId) + if old(store.UserNamed(DemoUsername)).None? then 1 else 0
    ensures store.UserNamed(DemoUsername) == Some(demo)
    ensures demo == DemoUserAsWritten(old(store.UserNamed(DemoUsername)), old(store.nextUserId))
  {
    var created;
    demo, created := store.GetOrCreateUser(DemoUsername);
    if !HasUsablePassword(demo.password) {
      store.SetPassword(demo.id, DemoPassword);
      demo := demo.(password := Encoded(DemoPassword));
    }
    assert demo.id in store.users && store.users[demo.id].username == DemoUsername;
  }

  /** One iteration of the loop of `handle`, on the store: get or create demo recipe `i`. */
  method SeedOne(store: Views.Store, ghost prev: Table, i: nat, author: UserId, now: Instant, created: nat)
    returns (created': nat)
    requires 1 <= i <= DemoCount
    requires store.Valid() && author in store.users
    requires Table(store.recipes, store.nextRecipeId, created) == prev
    requires Views.CountTitle(store.recipes, DemoTitle(i)) <= 1
    requires store.recipes == [] || store.recipes[0].createdAt <= now
    modifies store
    ensures store.Valid()
    ensures store.users == old(store.users) && store.tokens == old(store.tokens)
    ensures store.nextUserId == old(store.nextUserId)
    ensures Table(store.recipes, store.nextRecipeId, created') == SeedStep(prev, i, author, now)
    ensures store.recipes == [] || store.recipes[0].createdAt <= now
  {
    var _, wasCreated := store.GetOrCreateRecipe(DemoTitle(i), DemoDescription, DemoIngredients, DemoSteps, author, now);
    created' := if wasCreated then created + 1 else created;
  }

  /**
   * The loop of `handle`: get or create demo recipes 1 to 5 by title, counting the
   * ones created. Every demo title may occur at most once beforehand, since the
   * lookup by title expects a single match.
   */
  method SeedRecipes(store: Views.Store, author: UserId, now: Instant) returns (created: nat)
    requires store.Valid() && author in store.users
    requires store.recipes == [] || store.recipes[0].createdAt <= now
    requires forall i :: 1 <= i <= DemoCount ==> Views.CountTitle(store.recipes, DemoTitle(i)) <= 1
    modifies store
    ensures store.Valid()
    ensures store.users == old(store.users) && store.tokens == old(store.tokens)
    ensures store.nextUserId == old(store.nextUserId)
    ensures var s := Seeded(Table(old(store.recipes), old(store.nextRecipeId), 0), DemoCount, author, now);
      store.recipes == s.recipes && store.nextRecipeId == s.nextId && created == s.created
  {
    ghost var t0 := Table(store.recipes, store.nextRecipeId, 0);
    created := 0;
    for i := 1 to DemoCount + 1
      invariant store.Valid()
      invariant store.users == old(store.users) && store.tokens == old(store.tokens)
      invariant store.nextUserId == old(store.nextUserId)
      invariant Table(store.recipes, store.nextRecipeId, created) == Seeded(t0, i - 1, author, now)
      invariant store.recipes == [] || store.recipes[0].createdAt <= now
    {
      NextTitleAtMostOnce(t0, i, author, now);
      created := SeedOne(store, Seeded(t0, i - 1, author, now), i, author, now, created);
    }
  }

  /**
   * `handle`: get or create the demo user (setting the demo password only over an
   * unusable one, so a newly created demo user keeps its blank password), then seed the
   * demo recipes. Returns the number of recipes created, which is the number of demo
   * titles that were missing; afterwards every demo title occurs exactly once.
   */
  method Handle(store: Views.Store, now: Instant) returns (created: nat)
    requires store.Valid()
    requires store.recipes == [] || store.recipes[0].createdAt <= now
    requires forall i :: 1 <= i <= DemoCount ==> Views.CountTitle(store.recipes, DemoTitle(i)) <= 1
    modifies store
    ensures store.Valid()
    ensures store.tokens == old(store.tokens)
    ensures store.nextUserId == old(store.nextUserId) + if old(store.UserNamed(DemoUsername)).None? then 1 else 0
    ensures store.UserNamed(DemoUsername).Some?
    ensures var demo := store.UserNamed(DemoUsername).value;
      && demo == DemoUserAsWritten(old(store.UserNamed(DemoUsername)), old(store.nextUserId))
      && store.users == old(store.users)[demo.id := demo]
      && var s := Seeded(Table(old(store.recipes), old(store.nextRecipeId), 0), DemoCount, demo.id, now);
         store.recipes == s.recipes && store.nextRecipeId == s.nextId && created == s.created
    ensures created == MissingCount(old(store.recipes), DemoCount) <= DemoCount
    ensures forall i :: 1 <= i <= DemoCount ==> Views.CountTitle(store.recipes, DemoTitle(i)) == 1
  {
    var demo := EnsureDemoUser(store);
    ghost var t0 := Table(store.recipes, store.nextRecipeId, 0);
    created := SeedRecipes(store, demo.id, now);
    SeededCreated(t0, DemoCount, demo.id, now);
    MissingCountBound(t0.recipes, DemoCount);
    forall i | 1 <= i <= DemoCount
      ensures Views.CountTitle(store.recipes, DemoTitle(i)) == 1
    {
      SeededCounts(t0, DemoCount, demo.id, now, DemoTitle(i));
      DemoTitleIsDemo(i, DemoCount);
    }
  }
}
