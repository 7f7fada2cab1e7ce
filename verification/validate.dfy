/** The two Joi schemas of the request-validation middleware.

    Joi validates the keys of an object in schema order and, with its
    default `abortEarly`, reports only the first failure. For a string field
    it checks presence (`any.required`), then rejects the empty string
    (`string.empty`), then runs the rules in the order they were chained.
    Messages the schema overrides are reproduced; the others are Joi's
    defaults. Joi's own e-mail grammar is not modelled: it is the
    caller-supplied predicate `joiEmail`. */
module Validate {
  import opened Common
  import opened Text

  /** A registration body; an absent JSON key is `None`. */
  datatype RegisterBody = RegisterBody(username: Option<string>, email: Option<string>, password: Option<string>)

  /** A body checked against `tutorialSchema`. */
  datatype TutorialBody = TutorialBody(title: Option<string>, content: Option<string>, tags: Option<seq<string>>)

  const UsernameTooShort := "Username must be at least 3 characters"
  const UsernameTooLong := "Username must be less than 30 characters"
  const UsernameBadChars := "Username can only contain letters, numbers, underscores and hyphens"
  const EmailInvalid := "Please enter a valid email address"
  const PasswordTooShort := "Password must be at least 6 characters"
  const TitleTooShort := "Title must be at least 5 characters"
  const TitleTooLong := "Title must be less than 100 characters"
  const ContentTooShort := "Content must be at least 10 characters"

  function Label(field: string): string { "\"" + field + "\"" }
  function RequiredMessage(field: string): string { Label(field) + " is required" }
  function EmptyMessage(field: string): string { Label(field) + " is not allowed to be empty" }
  function MaxMessage(field: string, limit: nat): string {
    Label(field) + " length must be less than or equal to " + NatToString(limit) + " characters long"
  }

  /** The character class `[a-zA-Z0-9_-]`. */
  predicate IsUsernameChar(c: char) {
    ('a' <= c <= 'z') || ('A' <= c <= 'Z') || ('0' <= c <= '9') || c == '_' || c == '-'
  }

  /** What the username rules accept: 3 to 30 characters, all from the class. */
  predicate ValidUsername(u: string) {
    3 <= |u| <= 30 && forall i :: 0 <= i < |u| ==> IsUsernameChar(u[i])
  }

  /** What the password rules accept: 6 to 100 characters. */
  predicate ValidPassword(p: string) {
    6 <= |p| <= 100
  }

  /** Everything `userSchema` demands of a body: all three fields present
      and each one acceptable. */
  predicate UserSchemaAccepts(b: RegisterBody, joiEmail: string -> bool) {
    && b.username.Some? && ValidUsername(b.username.value)
    && b.email.Some? && b.email.value != "" && joiEmail(b.email.value)
    && b.password.Some? && ValidPassword(b.password.value)
  }

  function UsernameError(u: Option<string>): Option<string> {
    match u
    case None => Some(RequiredMessage("username"))
    case Some(s) =>
      if s == "" then Some(EmptyMessage("username"))
      else if |s| < 3 then Some(UsernameTooShort)
      else if |s| > 30 then Some(UsernameTooLong)
      else if exists i :: 0 <= i < |s| && !IsUsernameChar(s[i]) then Some(UsernameBadChars)
      else None
  }

  function EmailError(e: Option<string>, joiEmail: string -> bool): Option<string> {
    match e
    case None => Some(RequiredMessage("email"))
    case Some(s) =>
      if s == "" then Some(EmptyMessage("email"))
      else if !joiEmail(s) then Some(EmailInvalid)
      else None
  }

  function PasswordError(p: Option<string>): Option<string> {
    match p
    case None => Some(RequiredMessage("password"))
    case Some(s) =>
      if s == "" then Some(EmptyMessage("password"))
      else if |s| < 6 then Some(PasswordTooShort)
      else if |s| > 100 then Some(MaxMessage("password", 100))
      else None
  }

  /** `userSchema.validate(body).error.details[0].message`, or `None` when
      the body passes. */
  function UserSchemaError(b: RegisterBody, joiEmail: string -> bool): (r: Option<string>)
    ensures r.None? <==> UserSchemaAccepts(b, joiEmail)
    ensures b.username.None? ==> r == Some(RequiredMessage("username"))
    ensures b.username.Some? && ValidUsername(b.username.value) && b.email.None?
            ==> r == Some(RequiredMessage("email"))
    ensures UsernameError(b.username).None? && EmailError(b.email, joiEmail).None? && b.password.None?
            ==> r == Some(RequiredMessage("password"))
  {
    match UsernameError(b.username)
    case Some(m) => Some(m)
    case None =>
      match EmailError(b.email, joiEmail)
      case Some(m) => Some(m)
      case None => PasswordError(b.password)
  }

  /** Everything `tutorialSchema` demands: a title of 5 to 100 characters,
      content of at least 10, and, when tags are given, each one a
      non-empty string of at most 20 characters. */
  predicate TutorialSchemaAccepts(b: TutorialBody) {
    && b.title.Some? && 5 <= |b.title.value| <= 100
    && b.content.Some? && |b.content.value| >= 10
    && (b.tags.Some? ==> forall i :: 0 <= i < |b.tags.value| ==> 1 <= |b.tags.value[i]| <= 20)
  }

  /** The first failing tag, reported with Joi's `tags[i]` label. */
  function TagsError(tags: seq<string>, from: nat): (r: Option<string>)
    requires from <= |tags|
    ensures r.None? <==> forall i :: from <= i < |tags| ==> 1 <= |tags[i]| <= 20
    decreases |tags| - from
  {
    if from == |tags| then None
    else if tags[from] == "" then Some(EmptyMessage("tags[" + NatToString(from) + "]"))
    else if |tags[from]| > 20 then Some(MaxMessage("tags[" + NatToString(from) + "]", 20))
    else TagsError(tags, from + 1)
  }

  /** `tutorialSchema.validate(body)`'s first message, or `None`. */
  function TutorialSchemaError(b: TutorialBody): (r: Option<string>)
    ensures r.None? <==> TutorialSchemaAccepts(b)
    ensures b.title.None? ==> r == Some(RequiredMessage("title"))
  {
    match b.title
    case None => Some(RequiredMessage("title"))
    case Some(t) =>
      if t == "" then Some(EmptyMessage("title"))
      else if |t| < 5 then Some(TitleTooShort)
      else if |t| > 100 then Some(TitleTooLong)
      else match b.content
        case None => Some(RequiredMessage("content"))
        case Some(c) =>
          if c == "" then Some(EmptyMessage("content"))
          else if |c| < 10 then Some(ContentTooShort)
          else match b.tags
            case None => None
            case Some(ts) => TagsError(ts, 0)
  }
}
