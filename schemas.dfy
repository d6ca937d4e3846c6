/** The request and response shapes of the notes API (the pydantic models),
    and the field checks pydantic applies to a request body before a
    handler runs. A rejected body is answered with HTTP 422. */
module Schemas {
  import opened Wrappers

  /** Minimum number of characters of a password at registration. */
  const MinPasswordLength: nat := 6

  type Password = s: string | |s| >= MinPasswordLength witness "secret"

  /** Registration request. */
  datatype UserCreate = UserCreate(email: string, password: Password)

  /** Login request schema. It demands the same password length as
      registration, but the login route reads an OAuth2 password form
      instead (`Routes.LoginForm`), so this rule is never applied at login. */
  datatype UserLogin = UserLogin(email: string, password: Password)

  /** The user as shown to clients: no password, no hash. */
  datatype UserOut = UserOut(id: int, email: string)

  datatype NoteCreate = NoteCreate(title: string, content: string)

  /** Partial update: each field is optional and absent by default. */
  datatype NoteUpdate = NoteUpdate(title: Option<string>, content: Option<string>)

  /** The note as shown to clients; timestamps are ticks of the database clock. */
  datatype NoteOut = NoteOut(id: int, title: string, content: string, userId: int,
                             createdAt: int, updatedAt: int)

  /** A JSON request body, reduced to its string-valued fields. */
  type Body = map<string, string>

  /** One entry of the per-field error description of a rejected body. */
  datatype FieldError = Missing(field: string) | NotAnEmail(field: string) | TooShort(field: string, minLength: nat)

  datatype Parsed<+T> = Parsed(value: T) | Rejected(errors: seq<FieldError>)

  function EmailErrors(body: Body, isEmail: string -> bool): seq<FieldError>
  {
    if "email" !in body then [Missing("email")]
    else if !isEmail(body["email"]) then [NotAnEmail("email")]
    else []
  }

  function PasswordErrors(body: Body): seq<FieldError>
  {
    if "password" !in body then [Missing("password")]
    else if |body["password"]| < MinPasswordLength then [TooShort("password", MinPasswordLength)]
    else []
  }

  /** Validates a registration body. `isEmail` stands for the e-mail syntax
      check of the validation library, which this model leaves opaque. */
  function ParseUserCreate(body: Body, isEmail: string -> bool): (r: Parsed<UserCreate>)
    ensures r.Parsed? <==>
      && "email" in body && isEmail(body["email"])
      && "password" in body && |body["password"]| >= MinPasswordLength
    ensures r.Parsed? ==> r.value.email == body["email"] && r.value.password == body["password"]
    ensures r.Rejected? ==> |r.errors| > 0
    ensures r.Rejected? ==> (Missing("email") in r.errors <==> "email" !in body)
    ensures r.Rejected? ==>
      (NotAnEmail("email") in r.errors <==> "email" in body && !isEmail(body["email"]))
    ensures r.Rejected? ==> (Missing("password") in r.errors <==> "password" !in body)
    ensures r.Rejected? ==>
      (TooShort("password", MinPasswordLength) in r.errors <==>
         "password" in body && |body["password"]| < MinPasswordLength)
  {
    var errors := EmailErrors(body, isEmail) + PasswordErrors(body);
    if errors == [] then Parsed(UserCreate(body["email"], body["password"]))
    else Rejected(errors)
  }

  /** Validates a note-creation body: both fields are required, and nothing
      else is demanded of them (an empty title is accepted). */
  function ParseNoteCreate(body: Body): (r: Parsed<NoteCreate>)
    ensures r.Parsed? <==> "title" in body && "content" in body
    ensures r.Parsed? ==> r.value == NoteCreate(body["title"], body["content"])
    ensures r.Rejected? ==> (Missing("title") in r.errors <==> "title" !in body)
    ensures r.Rejected? ==> (Missing("content") in r.errors <==> "content" !in body)
  {
    var errors := (if "title" in body then [] else [Missing("title")])
                + (if "content" in body then [] else [Missing("content")]);
    if errors == [] then Parsed(NoteCreate(body["title"], body["content"]))
    else Rejected(errors)
  }

  /** Validates an update body: never rejected; an absent field is `None`. */
  function ParseNoteUpdate(body: Body): (r: NoteUpdate)
    ensures r.title.Some? <==> "title" in body
    ensures r.content.Some? <==> "content" in body
    ensures r.title.Some? ==> r.title.value == body["title"]
    ensures r.content.Some? ==> r.content.value == body["content"]
  {
    NoteUpdate(if "title" in body then Some(body["title"]) else None,
               if "content" in body then Some(body["content"]) else None)
  }
}
