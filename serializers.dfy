/**
 * Request validation and response shapes (recipe_app_backend/api/serializers.py):
 * the text-field rules the serializers apply to incoming JSON, registration and
 * login validation, and the fields each serializer exposes.
 */
module Serializers {
  import opened Common
  import opened Models
  import Text

  /** A JSON value as it arrives in a request body or leaves in a response. */
  datatype Json = JNull | JBool(b: bool) | JNum(n: int) | JStr(s: string) | JObj(fields: map<string, Json>) | JArr(items: seq<Json>)

  /** Decimal text of an integer, as a number sent for a text field is read. */
  function IntToDecimal(n: int): (r: string)
    ensures r != []
  {
    if n < 0 then "-" + Text.NatToDecimal(-n) else Text.NatToDecimal(n)
  }

  /**
   * The options of a text field: whether it must be supplied (on a full write), whether
   * blank and null are accepted, and its length bounds. Every such field trims
   * surrounding whitespace.
   */
  datatype TextRule = TextRule(required: bool, allowBlank: bool, allowNull: bool, minLength: nat, maxLength: Option<nat>)

  /** What validating one field gives: not supplied (and not needed), a value, or an error message. */
  datatype FieldOutcome = Skipped | Accepted(value: Option<string>) | Rejected(message: string)

  const RequiredMsg := "This field is required."
  const NullMsg := "This field may not be null."
  const BlankMsg := "This field may not be blank."
  const NotStringMsg := "Not a valid string."
  const NullCharMsg := "Null characters are not allowed."

  function TooLongMsg(n: nat): string { "Ensure this field has no more than " + Text.NatToDecimal(n) + " characters." }
  function TooShortMsg(n: nat): string { "Ensure this field has at least " + Text.NatToDecimal(n) + " characters." }

  /** Whether a text value counts as blank: empty, or only whitespace. */
  predicate IsBlank(s: string)
  {
    Text.Trim(s) == []
  }

  /** Whether a (trimmed) value respects the rule's length bounds. */
  predicate FitsLength(rule: TextRule, t: string)
  {
    rule.minLength <= |t| && (rule.maxLength.Some? ==> |t| <= rule.maxLength.value)
  }

  /**
   * Validation of a supplied, non-null text value. A blank value is settled first
   * (accepted as the empty text where blank is allowed, with no further checks);
   * otherwise the trimmed value goes through the length bounds and the ban on NUL
   * characters, and the first failing check gives the message.
   */
  function ValidateText(rule: TextRule, s: string): (o: FieldOutcome)
    ensures o.Rejected? || o.Accepted?
    ensures o.Accepted? ==> o.value == Some(Text.Trim(s))
    ensures o.Accepted? <==>
      if IsBlank(s) then rule.allowBlank
      else FitsLength(rule, Text.Trim(s)) && '\0' !in Text.Trim(s)
    ensures IsBlank(s) && o.Rejected? ==> o.message == BlankMsg
    ensures !IsBlank(s) && FitsLength(rule, Text.Trim(s)) && o.Rejected? ==> o.message == NullCharMsg
  {
    var t := Text.Trim(s);
    if t == [] then
      if rule.allowBlank then Accepted(Some([])) else Rejected(BlankMsg)
    else if rule.maxLength.Some? && |t| > rule.maxLength.value then Rejected(TooLongMsg(rule.maxLength.value))
    else if |t| < rule.minLength then Rejected(TooShortMsg(rule.minLength))
    else if '\0' in t then Rejected(NullCharMsg)
    else Accepted(Some(t))
  }

  /**
   * Validation of one text field of a request body. An absent field is skipped on a
   * partial write or when optional, and an error otherwise; null is accepted only
   * where allowed; a string is validated as text, a number as its decimal text; any
   * other JSON value is rejected.
   */
  function ValidateField(rule: TextRule, data: map<string, Json>, name: string, partial: bool): (o: FieldOutcome)
    ensures name !in data ==> o == if partial || !rule.required then Skipped else Rejected(RequiredMsg)
    ensures name in data && data[name].JStr? ==> o == ValidateText(rule, data[name].s)
    ensures name in data && data[name].JNum? ==> o == ValidateText(rule, IntToDecimal(data[name].n))
    ensures name in data && data[name].JNull? ==> o == if rule.allowNull then Accepted(None) else Rejected(NullMsg)
    ensures name in data && (data[name].JBool? || data[name].JObj? || data[name].JArr?) ==> o == Rejected(NotStringMsg)
    ensures o.Accepted? && o.value.Some? ==>
      && o.value.value == Text.Trim(o.value.value)
      && '\0' !in o.value.value
      && (o.value.value != [] ==> FitsLength(rule, o.value.value))
      && (!rule.allowBlank ==> o.value.value != [])
    ensures o.Accepted? && o.value.None? ==> rule.allowNull
    ensures rule.required && !partial ==> !o.Skipped?
  {
    if name !in data then
      if partial || !rule.required then Skipped else Rejected(RequiredMsg)
    else
      match data[name]
      case JNull => if rule.allowNull then Accepted(None) else Rejected(NullMsg)
      case JStr(s) => TrimmedOutcome(rule, s)
      case JNum(n) => TrimmedOutcome(rule, IntToDecimal(n))
      case _ => Rejected(NotStringMsg)
  }

  /** `ValidateText`, with the fact that an accepted value is its own trimmed form. */
  function TrimmedOutcome(rule: TextRule, s: string): (o: FieldOutcome)
    ensures o == ValidateText(rule, s)
    ensures o.Accepted? ==> o.value.Some? && o.value.value == Text.Trim(o.value.value)
  {
    var o := ValidateText(rule, s);
    if o.Accepted? then
      TrimIdempotent(s);
      o
    else o
  }

  lemma TrimIdempotent(s: string)
    ensures Text.Trim(Text.Trim(s)) == Text.Trim(s)
  {
    var t := Text.Trim(s);
    Text.TrimTrimmed(t);
  }

  /** `errors` with the message of field `name` added when its outcome is a rejection. */
  function AddError(errors: map<string, string>, name: string, o: FieldOutcome): (e: map<string, string>)
    ensures e.Keys <= errors.Keys + {name}
    ensures o.Rejected? ==> name in e && e[name] == o.message
    ensures !o.Rejected? ==> e == errors
    ensures forall k :: k in errors && k != name ==> k in e && e[k] == errors[k]
  {
    if o.Rejected? then errors[name := o.message] else errors
  }

  /** The supplied value of a non-null field, if any. */
  function TextOf(o: FieldOutcome): Option<string>
  {
    if o.Accepted? && o.value.Some? then Some(o.value.value) else None
  }

  // ---------------------------------------------------------------- recipes

  /** The fields of the recipe representation, and those the client cannot write. */
  const RecipeFieldNames: set<string> :=
    {"id", "title", "description", "ingredients", "steps", "image_url", "author", "created_at", "updated_at"}
  const RecipeReadOnly: set<string> := {"id", "author", "created_at", "updated_at"}

  const TitleRule := TextRule(true, false, false, 0, Some(TitleMaxLength))
  const DescriptionRule := TextRule(false, true, false, 0, None)
  const IngredientsRule := TextRule(true, false, false, 0, None)
  const StepsRule := TextRule(true, false, false, 0, None)
  const ImageUrlRule := TextRule(false, true, true, 0, Some(UrlMaxLength))

  /**
   * The validated writable fields of a recipe request; `None` means "not supplied".
   * For the image URL, `Some(None)` is an explicit null.
   */
  datatype RecipeInput = RecipeInput(
    title: Option<string>,
    description: Option<string>,
    ingredients: Option<string>,
    steps: Option<string>,
    imageUrl: Option<Option<string>>)

  /** What every accepted recipe input satisfies. */
  predicate InputOk(p: RecipeInput)
  {
    && (p.title.Some? ==> 0 < |p.title.value| <= TitleMaxLength)
    && (p.ingredients.Some? ==> p.ingredients.value != [])
    && (p.steps.Some? ==> p.steps.value != [])
    && (p.imageUrl.Some? && p.imageUrl.value.Some? ==> |p.imageUrl.value.value| <= UrlMaxLength)
  }

  /** An input that carries every field a new recipe needs. */
  predicate Complete(p: RecipeInput)
  {
    p.title.Some? && p.ingredients.Some? && p.steps.Some?
  }

  /**
   * `RecipeSerializer` validation of a request body: each writable field by its rule,
   * every error collected; keys outside the writable fields are ignored.
   */
  function ValidateRecipe(data: map<string, Json>, partial: bool): (r: Result<RecipeInput, map<string, string>>)
    ensures r.Success? ==> InputOk(r.value)
    ensures r.Success? && !partial ==> Complete(r.value)
    ensures r.Failure? ==>
      || "title" in r.error || "description" in r.error || "ingredients" in r.error
      || "steps" in r.error || "image_url" in r.error
  {
    Combine(
      ValidateField(TitleRule, data, "title", partial),
      ValidateField(DescriptionRule, data, "description", partial),
      ValidateField(IngredientsRule, data, "ingredients", partial),
      ValidateField(StepsRule, data, "steps", partial),
      ValidateField(ImageUrlRule, data, "image_url", partial))
  }

  /** The validated input from the five field outcomes, or every field error. */
  function Combine(title: FieldOutcome, description: FieldOutcome, ingredients: FieldOutcome,
                   steps: FieldOutcome, imageUrl: FieldOutcome): (r: Result<RecipeInput, map<string, string>>)
    ensures title.Rejected? ==> r.Failure? && "title" in r.error && r.error["title"] == title.message
  {
    if !title.Rejected? && !description.Rejected? && !ingredients.Rejected? && !steps.Rejected? && !imageUrl.Rejected? then
      Success(RecipeInput(
        TextOf(title), TextOf(description), TextOf(ingredients), TextOf(steps),
        if imageUrl.Accepted? then Some(imageUrl.value) else None))
    else
      var e1 := AddError(map[], "image_url", imageUrl);
      var e2 := AddError(e1, "description", description);
      var e3 := AddError(e2, "ingredients", ingredients);
      var e4 := AddError(e3, "steps", steps);
      Failure(AddError(e4, "title", title))
  }

  /** A field's outcome depends only on the entry under its own name. */
  lemma FieldUsesOwnEntry(rule: TextRule, d1: map<string, Json>, d2: map<string, Json>, name: string, partial: bool)
    requires name in d1 <==> name in d2
    requires name in d1 ==> d1[name] == d2[name]
    ensures ValidateField(rule, d1, name, partial) == ValidateField(rule, d2, name, partial)
  {
  }

  /** Client-supplied values for the read-only fields (and unknown keys) make no difference to validation. */
  lemma ReadOnlyFieldsIgnored(data: map<string, Json>, partial: bool)
    ensures ValidateRecipe(data, partial) == ValidateRecipe(data - RecipeReadOnly, partial)
  {
    var d := data - RecipeReadOnly;
    assert "title" !in RecipeReadOnly && "description" !in RecipeReadOnly && "ingredients" !in RecipeReadOnly;
    assert "steps" !in RecipeReadOnly && "image_url" !in RecipeReadOnly;
    FieldUsesOwnEntry(TitleRule, data, d, "title", partial);
    FieldUsesOwnEntry(DescriptionRule, data, d, "description", partial);
    FieldUsesOwnEntry(IngredientsRule, data, d, "ingredients", partial);
    FieldUsesOwnEntry(StepsRule, data, d, "steps", partial);
    FieldUsesOwnEntry(ImageUrlRule, data, d, "image_url", partial);
  }

  /**
   * A body is accepted exactly when no writable field is rejected, and the accepted
   * input carries each field's validated value: a supplied field its trimmed text,
   * an absent one nothing (and the image URL also an explicit null).
   */
  lemma ValidateRecipeSpec(data: map<string, Json>, partial: bool)
    ensures var r := ValidateRecipe(data, partial);
      && (r.Success? <==>
        && !ValidateField(TitleRule, data, "title", partial).Rejected?
        && !ValidateField(DescriptionRule, data, "description", partial).Rejected?
        && !ValidateField(IngredientsRule, data, "ingredients", partial).Rejected?
        && !ValidateField(StepsRule, data, "steps", partial).Rejected?
        && !ValidateField(ImageUrlRule, data, "image_url", partial).Rejected?)
      && (r.Success? ==>
        && r.value.title == TextOf(ValidateField(TitleRule, data, "title", partial))
        && r.value.description == TextOf(ValidateField(DescriptionRule, data, "description", partial))
        && r.value.ingredients == TextOf(ValidateField(IngredientsRule, data, "ingredients", partial))
        && r.value.steps == TextOf(ValidateField(StepsRule, data, "steps", partial))
        && (r.value.imageUrl.Some? <==> "image_url" in data)
        && ("image_url" in data ==> r.value.imageUrl.value == ValidateField(ImageUrlRule, data, "image_url", partial).value))
  {
  }

  /**
   * A write whose title, ingredients and steps are strings that are non-blank, free
   * of NUL characters and (for the title) at most 200 characters long once trimmed,
   * and whose description and image URL (if sent) pass their own rules, is accepted
   * with exactly those trimmed values and the validated description and image URL.
   */
  lemma WellFormedBodyAccepted(data: map<string, Json>, partial: bool, title: string, ingredients: string, steps: string)
    requires "title" in data && data["title"] == JStr(title)
    requires "ingredients" in data && data["ingredients"] == JStr(ingredients)
    requires "steps" in data && data["steps"] == JStr(steps)
    requires !ValidateField(DescriptionRule, data, "description", partial).Rejected?
    requires !ValidateField(ImageUrlRule, data, "image_url", partial).Rejected?
    requires 0 < |Text.Trim(title)| <= TitleMaxLength && '\0' !in Text.Trim(title)
    requires Text.Trim(ingredients) != [] && '\0' !in Text.Trim(ingredients)
    requires Text.Trim(steps) != [] && '\0' !in Text.Trim(steps)
    ensures var description := ValidateField(DescriptionRule, data, "description", partial);
      var imageUrl := ValidateField(ImageUrlRule, data, "image_url", partial);
      ValidateRecipe(data, partial) ==
        Success(RecipeInput(
          Some(Text.Trim(title)), TextOf(description), Some(Text.Trim(ingredients)), Some(Text.Trim(steps)),
          if "image_url" in data then Some(imageUrl.value) else None))
  {
    assert ValidateField(TitleRule, data, "title", partial) == Accepted(Some(Text.Trim(title)));
    assert ValidateField(IngredientsRule, data, "ingredients", partial) == Accepted(Some(Text.Trim(ingredients)));
    assert ValidateField(StepsRule, data, "steps", partial) == Accepted(Some(Text.Trim(steps)));
  }

  /** A title longer than 200 characters after trimming is rejected. */
  lemma LongTitleRejected(data: map<string, Json>, partial: bool, s: string)
    requires "title" in data && data["title"] == JStr(s) && |Text.Trim(s)| > TitleMaxLength
    ensures ValidateRecipe(data, partial).Failure?
    ensures ValidateRecipe(data, partial).error["title"] == TooLongMsg(TitleMaxLength)
  {
    TooLongRejected(TitleRule, s);
    assert ValidateField(TitleRule, data, "title", partial) == Rejected(TooLongMsg(TitleMaxLength));
  }

  /** A supplied text longer than the rule's maximum after trimming is rejected as too long. */
  lemma TooLongRejected(rule: TextRule, s: string)
    requires rule.maxLength.Some? && |Text.Trim(s)| > rule.maxLength.value
    ensures ValidateText(rule, s) == Rejected(TooLongMsg(rule.maxLength.value))
  {
  }

  /** A blank or whitespace-only title is rejected. */
  lemma BlankTitleRejected(data: map<string, Json>, partial: bool, s: string)
    requires "title" in data && data["title"] == JStr(s) && IsBlank(s)
    ensures ValidateRecipe(data, partial).Failure?
    ensures ValidateRecipe(data, partial).error["title"] == BlankMsg
  {
    assert ValidateField(TitleRule, data, "title", partial) == Rejected(BlankMsg);
  }

  /** The description may be blank: an empty description is accepted as the empty text. */
  lemma BlankDescriptionAccepted(data: map<string, Json>, partial: bool)
    requires "description" in data && data["description"] == JStr("")
    ensures ValidateField(DescriptionRule, data, "description", partial) == Accepted(Some(""))
  {
    assert Text.Trim("") == "";
  }

  /** The image URL may be null or blank. */
  lemma ImageUrlNullOrBlankAccepted(data: map<string, Json>, partial: bool)
    requires "image_url" in data && (data["image_url"] == JNull || data["image_url"] == JStr(""))
    ensures ValidateField(ImageUrlRule, data, "image_url", partial).Accepted?
    ensures data["image_url"] == JNull ==> ValidateField(ImageUrlRule, data, "image_url", partial).value == None
  {
    assert Text.Trim("") == "";
  }

  /** A full write must supply a title; a partial write may leave it out. */
  lemma TitleRequiredOnFullWrite(data: map<string, Json>)
    requires "title" !in data
    ensures ValidateRecipe(data, false).Failure?
    ensures ValidateRecipe(data, false).error["title"] == RequiredMsg
    ensures ValidateRecipe(data, true).Success? ==> ValidateRecipe(data, true).value.title.None?
  {
  }

  // ---------------------------------------------------------------- users

  /** The public user representation: id and username only. */
  function UserRepr(u: User): (j: Json)
    ensures j.JObj? && j.fields.Keys == {"id", "username"}
    ensures j.fields["id"] == JNum(u.id) && j.fields["username"] == JStr(u.username)
  {
    JObj(map["id" := JNum(u.id), "username" := JStr(u.username)])
  }

  /** The fields of the registration serializer, and the write-only ones among them. */
  const RegisterFieldNames: set<string> := {"id", "username", "email", "password"}
  const RegisterWriteOnly: set<string> := {"password"}

  /** The fields a serializer writes into its output: all but the write-only ones. */
  function OutputFields(fields: set<string>, writeOnly: set<string>): (out: set<string>)
    ensures out <= fields && out !! writeOnly
    ensures forall f :: f in fields && f !in writeOnly ==> f in out
  {
    fields - writeOnly
  }

  /** The password is never part of the registration serializer's output. */
  lemma PasswordWriteOnly()
    ensures "password" !in OutputFields(RegisterFieldNames, RegisterWriteOnly)
    ensures OutputFields(RegisterFieldNames, RegisterWriteOnly) == {"id", "username", "email"}
  {
  }

  /** The register and login response body: the public user and the token key. */
  function AuthResponse(u: User, key: string): (j: Json)
    ensures j.JObj? && j.fields.Keys == {"user", "token"}
    ensures j.fields["user"] == UserRepr(u) && j.fields["token"] == JStr(key)
  {
    JObj(map["user" := UserRepr(u), "token" := JStr(key)])
  }

  /** Neither level of the auth response carries a password. */
  lemma AuthResponseHidesPassword(u: User, key: string)
    ensures "password" !in AuthResponse(u, key).fields
    ensures "password" !in AuthResponse(u, key).fields["user"].fields
  {
  }

  const UsernameRule := TextRule(true, false, false, 0, None)
  const EmailRule := TextRule(false, true, false, 0, None)
  const PasswordMinLength: nat := 8
  const PasswordRule := TextRule(true, false, false, PasswordMinLength, None)
  const DuplicateUsernameMsg := "A user with that username already exists."

  /** A validated registration: what `UserRegisterSerializer.create` hands to the user manager. */
  datatype Registration = Registration(username: string, email: Option<string>, password: string)

  /**
   * `UserRegisterSerializer` validation: username required, non-blank and not already
   * taken (exact match against `taken`); email optional; password required and at
   * least 8 characters. A missing email becomes `None`.
   */
  function ValidateRegistration(data: map<string, Json>, taken: set<string>): (r: Result<Registration, map<string, string>>)
    ensures r.Success? ==> |r.value.password| >= PasswordMinLength
    ensures r.Success? ==> r.value.username != [] && r.value.username !in taken
    ensures r.Success? && "email" !in data ==> r.value.email.None?
    ensures r.Failure? ==> "username" in r.error || "email" in r.error || "password" in r.error
    ensures var u := ValidateField(UsernameRule, data, "username", false);
      var e := ValidateField(EmailRule, data, "email", false);
      var p := ValidateField(PasswordRule, data, "password", false);
      && (r.Success? <==> u.Accepted? && u.value.value !in taken && !e.Rejected? && p.Accepted?)
      && (r.Success? ==> r.value == Registration(u.value.value, TextOf(e), p.value.value))
      && (r.Failure? && e.Rejected? ==> "email" in r.error && r.error["email"] == e.message)
      && (r.Failure? && p.Rejected? ==> "password" in r.error && r.error["password"] == p.message)
  {
    var username := ValidateField(UsernameRule, data, "username", false);
    var email := ValidateField(EmailRule, data, "email", false);
    var password := ValidateField(PasswordRule, data, "password", false);
    var username' :=
      if username.Accepted? && username.value.Some? && username.value.value in taken
      then Rejected(DuplicateUsernameMsg) else username;
    if username'.Rejected? || email.Rejected? || password.Rejected? then
      var e1 := AddError(map[], "email", email);
      var e2 := AddError(e1, "password", password);
      Failure(AddError(e2, "username", username'))
    else
      Success(Registration(username'.value.value, TextOf(email), password.value.value))
  }

  /** A password shorter than 8 characters (after trimming) rejects the registration. */
  lemma ShortPasswordRejected(data: map<string, Json>, taken: set<string>, pw: string)
    requires "password" in data && data["password"] == JStr(pw) && |Text.Trim(pw)| < PasswordMinLength
    ensures ValidateRegistration(data, taken).Failure?
    ensures "password" in ValidateRegistration(data, taken).error
  {
  }

  /**
   * An accepted registration carries exactly the supplied username and password (with
   * surrounding whitespace trimmed), and a missing email becomes `None`.
   */
  lemma RegistrationKeepsFields(data: map<string, Json>, taken: set<string>, name: string, pw: string)
    requires "username" in data && data["username"] == JStr(name)
    requires "password" in data && data["password"] == JStr(pw)
    requires ValidateRegistration(data, taken).Success?
    ensures ValidateRegistration(data, taken).value.username == Text.Trim(name)
    ensures ValidateRegistration(data, taken).value.password == Text.Trim(pw)
    ensures "email" !in data ==> ValidateRegistration(data, taken).value.email == None
  {
  }

  /** A username already in use (and otherwise well-formed) rejects the registration. */
  lemma TakenUsernameRejected(data: map<string, Json>, taken: set<string>, name: string)
    requires "username" in data && data["username"] == JStr(name)
    requires Text.Trim(name) != [] && '\0' !in Text.Trim(name) && Text.Trim(name) in taken
    ensures ValidateRegistration(data, taken).Failure?
    ensures ValidateRegistration(data, taken).error["username"] == DuplicateUsernameMsg
  {
    var u := ValidateField(UsernameRule, data, "username", false);
    assert u.Accepted? ==> u.value == Some(Text.Trim(name));
  }

  // ---------------------------------------------------------------- login

  const InvalidCredentialsMsg := "Invalid username or password."

  /** The submitted login fields. */
  datatype Credentials = Credentials(username: string, password: string)

  /** Validated login data: the submitted fields plus the authenticated user. */
  datatype LoginData = LoginData(username: string, password: string, user: UserId)

  /** The login password: a plain required text field (no minimum length). */
  const LoginPasswordRule := TextRule(true, false, false, 0, None)

  /**
   * `LoginSerializer`: both fields required and non-blank; then `validate` asks the
   * credential check (a parameter: the framework's `authenticate`) and fails with one
   * fixed message when it finds no user. Field errors are reported before the
   * credentials are checked.
   */
  function ValidateLogin(data: map<string, Json>, check: (string, string) -> Option<UserId>): (r: Result<LoginData, map<string, string>>)
    ensures var u := ValidateField(UsernameRule, data, "username", false);
      var p := ValidateField(LoginPasswordRule, data, "password", false);
      && (r.Success? <==> u.Accepted? && p.Accepted? && check(u.value.value, p.value.value).Some?)
      && (r.Success? ==> r.value == LoginData(u.value.value, p.value.value, check(u.value.value, p.value.value).value))
      && (u.Rejected? ==> r.Failure? && "username" in r.error && r.error["username"] == u.message)
      && (p.Rejected? ==> r.Failure? && "password" in r.error && r.error["password"] == p.message)
    ensures r.Success? && data["username"].JStr? ==> r.value.username == Text.Trim(data["username"].s)
    ensures r.Success? && data["password"].JStr? ==> r.value.password == Text.Trim(data["password"].s)
    ensures r.Success? ==> check(r.value.username, r.value.password) == Some(r.value.user)
    ensures r.Failure? ==> "username" in r.error || "password" in r.error || "non_field_errors" in r.error
  {
    var username := ValidateField(UsernameRule, data, "username", false);
    var password := ValidateField(LoginPasswordRule, data, "password", false);
    if username.Rejected? || password.Rejected? then
      Failure(AddError(AddError(map[], "username", username), "password", password))
    else
      CheckCredentials(Credentials(username.value.value, password.value.value), check)
  }

  /** `LoginSerializer.validate` on well-formed fields. */
  function CheckCredentials(attrs: Credentials, check: (string, string) -> Option<UserId>): (r: Result<LoginData, map<string, string>>)
    ensures r.Success? <==> check(attrs.username, attrs.password).Some?
    ensures r.Success? ==> r.value == LoginData(attrs.username, attrs.password, check(attrs.username, attrs.password).value)
    ensures r.Failure? ==> r.error == map["non_field_errors" := InvalidCredentialsMsg]
  {
    match check(attrs.username, attrs.password)
    case None => Failure(map["non_field_errors" := InvalidCredentialsMsg])
    case Some(u) => Success(LoginData(attrs.username, attrs.password, u))
  }

  /**
   * A failed credential check gives the same error whatever was submitted, so the
   * response does not tell an unknown username from a wrong password.
   */
  lemma LoginFailureIsUniform(a1: Credentials, a2: Credentials, check: (string, string) -> Option<UserId>)
    requires check(a1.username, a1.password).None? && check(a2.username, a2.password).None?
    ensures CheckCredentials(a1, check) == CheckCredentials(a2, check)
  {
  }

  // ---------------------------------------------------------------- recipe output

  function OptionalText(v: Option<string>): Json
  {
    if v.Some? then JStr(v.value) else JNull
  }

  /** The recipe representation, with the author nested in its public form. */
  function RecipeRepr(r: Recipe, author: User): (j: Json)
    requires author.id == r.authorId
    ensures j.JObj? && j.fields.Keys == RecipeFieldNames
    ensures j.fields["author"] == UserRepr(author)
    ensures j.fields["title"] == JStr(r.title) && j.fields["id"] == JNum(r.id)
    ensures j.fields["description"] == JStr(r.description)
    ensures j.fields["ingredients"] == JStr(r.ingredients) && j.fields["steps"] == JStr(r.steps)
    ensures j.fields["image_url"] == (if r.imageUrl.Some? then JStr(r.imageUrl.value) else JNull)
    ensures j.fields["created_at"] == JNum(r.createdAt) && j.fields["updated_at"] == JNum(r.updatedAt)
  {
    JObj(map[
      "id" := JNum(r.id),
      "title" := JStr(r.title),
      "description" := JStr(r.description),
      "ingredients" := JStr(r.ingredients),
      "steps" := JStr(r.steps),
      "image_url" := OptionalText(r.imageUrl),
      "author" := UserRepr(author),
      "created_at" := JNum(r.createdAt),
      "updated_at" := JNum(r.updatedAt)])
  }
}
