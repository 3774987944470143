/**
 * The persistent records: users (the framework's user model, as far as the backend
 * relies on it) and recipes (recipe_app_backend/api/models.py).
 */
module Models {
  import opened Common
  import Text

  type UserId = nat
  type RecipeId = nat

  /** Timestamps as abstract instants; larger is later. */
  type Instant = int

  /**
   * A stored password credential. `Blank` is the empty string a user row gets when it
   * is created without a password; `Unusable` is the marker of an explicitly unusable
   * password; `Encoded` holds a set password (the hashing itself is not modelled).
   */
  datatype StoredPassword = Blank | Unusable | Encoded(secret: string)

  /** The framework's usability test: every stored value except the unusable marker counts as usable. */
  predicate HasUsablePassword(p: StoredPassword)
  {
    !p.Unusable?
  }

  datatype User = User(id: UserId, username: string, email: Option<string>, password: StoredPassword)

  /**
   * A recipe row. `imageUrl` is `None` for a null image URL; `authorId` is the single
   * author (a non-null foreign key to a user).
   */
  datatype Recipe = Recipe(
    id: RecipeId,
    title: string,
    description: string,
    ingredients: string,
    steps: string,
    imageUrl: Option<string>,
    authorId: UserId,
    createdAt: Instant,
    updatedAt: Instant)

  const TitleMaxLength: nat := 200
  /** A URL field's default maximum length. */
  const UrlMaxLength: nat := 200

  /**
   * Field constraints of a stored recipe: the title is non-blank and at most 200
   * characters, ingredients and steps are non-blank, the description may be blank,
   * and the image URL may be blank or null (but not longer than a URL field allows).
   */
  predicate FieldsOk(r: Recipe)
  {
    && 0 < |r.title| <= TitleMaxLength
    && r.ingredients != []
    && r.steps != []
    && (r.imageUrl.Some? ==> |r.imageUrl.value| <= UrlMaxLength)
  }

  /** The default ordering of recipes: newest `createdAt` first. */
  ghost predicate NewestFirst(rs: seq<Recipe>)
  {
    forall i, j :: 0 <= i < j < |rs| ==> rs[i].createdAt >= rs[j].createdAt
  }

  /** The string form of a recipe, "<title> by <author>", where a user's string form is its username. */
  function RecipeString(r: Recipe, author: User): (s: string)
    requires author.id == r.authorId
    ensures |s| == |r.title| + 4 + |author.username|
    ensures s[..|r.title|] == r.title
    ensures s[|s| - |author.username|..] == author.username
    ensures s[|r.title|..|s| - |author.username|] == " by "
  {
    r.title + " by " + author.username
  }
}
