/** The route handlers of the notes API over an in-memory stand-in for the
    committed database: the two tables, the generated-key counters and the
    database clock. Each handler runs atomically. Handlers that write
    (register, create, update, delete) are methods; handlers that only read
    (login, current-user resolution, list, get) are functions of the state. */
module Routes {
  import opened Wrappers
  import opened Schemas
  import opened Auth
  import opened Tables

  const EmailTaken := HttpError(409, "Email already registered")
  const BadCredentials := HttpError(401, "Incorrect email or password")
  /** Raised by the bearer-token extractor when no token is presented. */
  const NotAuthenticated := HttpError(401, "Not authenticated")
  const InvalidCredentials := HttpError(401, "Could not validate credentials")
  const UserNotFound := HttpError(404, "User not found")
  const NoteNotFound := HttpError(404, "Note not found")
  /** An exception no handler catches. */
  const ServerError := HttpError(500, "Internal Server Error")

  /** The OAuth2 password form read by login: no length rule applies. */
  datatype LoginForm = LoginForm(username: string, password: string)

  datatype TokenResponse = TokenResponse(accessToken: Token, tokenType: string)

  class NoteStore {
    var users: Users
    var notes: Notes
    /** Keys the database will generate next. */
    var nextUserId: int
    var nextNoteId: int
    /** The database clock (`now()` at the server), advanced by each note create and each successful update. */
    var clock: int
    const hasher: Hasher

    ghost predicate Valid()
      reads this
    {
      hasher.Sound() && Consistent(users, notes, nextUserId, nextNoteId, clock)
    }

    constructor (hasher: Hasher)
      requires hasher.Sound()
      ensures Valid()
      ensures this.hasher == hasher && users == map[] && notes == map[]
      ensures nextUserId == 1 && nextNoteId == 1 && clock == 0
    {
      this.hasher := hasher;
      users, notes := map[], map[];
      nextUserId, nextNoteId, clock := 1, 1, 0;
    }

    /** POST /auth/register. */
    method RegisterUser(user: UserCreate) returns (r: Result<UserOut>)
      requires Valid()
      modifies this
      ensures Valid()
      ensures notes == old(notes) && clock == old(clock) && nextNoteId == old(nextNoteId)
      ensures (exists id :: id in old(users) && old(users)[id].email == user.email) ==>
        && r == Failure(EmailTaken)
        && users == old(users) && nextUserId == old(nextUserId)
      ensures (forall id :: id in old(users) ==> old(users)[id].email != user.email) ==>
        && r == Success(UserOut(old(nextUserId), user.email))
        && old(nextUserId) !in old(users)
        && users == old(users)[old(nextUserId) := UserRow(user.email, hasher.hash(user.password))]
        && nextUserId == old(nextUserId) + 1
    {
      var existing := FindUserByEmail(users, user.email, 1, nextUserId);
      if existing.Some? {
        return Failure(EmailTaken);
      }
      var hashed := hasher.hash(user.password);
      var id := nextUserId;
      users := users[id := UserRow(user.email, hashed)];
      nextUserId := nextUserId + 1;
      r := Success(UserOut(id, user.email));
    }

    /** POST /auth/token, at application time `now`. */
    function Login(form: LoginForm, now: int): (r: Result<TokenResponse>)
      reads this
      requires Valid()
      ensures r.Failure? ==> r.error == BadCredentials
      ensures r.Success? <==>
        exists id :: id in users && users[id].email == form.username
                     && hasher.verify(form.password, users[id].hashedPassword)
      ensures r.Success? ==>
        exists id :: id in users && users[id].email == form.username
                     && r.value == TokenResponse(CreateAccessToken(ShowInt(id), now), "bearer")
    {
      match FindUserByEmail(users, form.username, 1, nextUserId)
      case None => Failure(BadCredentials)
      case Some(id) =>
        if !hasher.verify(form.password, users[id].hashedPassword) then Failure(BadCredentials)
        else Success(TokenResponse(CreateAccessToken(ShowInt(id), now), "bearer"))
    }

    /** The current-user dependency of every notes route: the bearer token
        (absent when the request has none) decoded at application time `now`,
        then the user with the decoded id. */
    function CurrentUser(header: Option<Token>, now: int): (r: Result<int>)
      reads this
      ensures r.Success? ==>
        && header.Some? && DecodeAccessToken(header.value, now) == Subject(r.value)
        && r.value != 0 && r.value in users
      ensures r.Success? <==>
        && header.Some? && DecodeAccessToken(header.value, now).Subject?
        && DecodeAccessToken(header.value, now).id != 0
        && DecodeAccessToken(header.value, now).id in users
      ensures r.Failure? ==> r.error in {NotAuthenticated, InvalidCredentials, ServerError, UserNotFound}
      ensures r == Failure(NotAuthenticated) <==> header.None?
      ensures r == Failure(InvalidCredentials) <==>
        header.Some? && DecodeAccessToken(header.value, now) in {NoSubject, Subject(0)}
      ensures r == Failure(ServerError) <==>
        header.Some? && DecodeAccessToken(header.value, now).Raised?
      ensures r == Failure(UserNotFound) <==>
        && header.Some? && DecodeAccessToken(header.value, now).Subject?
        && DecodeAccessToken(header.value, now).id != 0
        && DecodeAccessToken(header.value, now).id !in users
    {
      match header
      case None => Failure(NotAuthenticated)
      case Some(token) =>
        match DecodeAccessToken(token, now)
        case Raised => Failure(ServerError)
        case NoSubject => Failure(InvalidCredentials)
        case Subject(id) =>
          if id == 0 then Failure(InvalidCredentials)
          else if id !in users then Failure(UserNotFound)
          else Success(id)
    }

    /** POST /notes for the current user `uid`. */
    method CreateNote(uid: int, note: NoteCreate) returns (r: NoteOut)
      requires Valid() && uid in users
      modifies this
      ensures Valid()
      ensures users == old(users) && nextUserId == old(nextUserId)
      ensures old(nextNoteId) !in old(notes)
      ensures clock == old(clock) + 1 && nextNoteId == old(nextNoteId) + 1
      ensures notes == old(notes)[old(nextNoteId) := NoteRow(note.title, note.content, uid, clock, clock)]
      ensures forall id :: id in old(notes) ==> id in notes && notes[id] == old(notes)[id]
      ensures |notes| == |old(notes)| + 1
      ensures r == View(old(nextNoteId), notes[old(nextNoteId)])
    {
      var id := nextNoteId;
      clock := clock + 1;
      notes := notes[id := NoteRow(note.title, note.content, uid, clock, clock)];
      nextNoteId := nextNoteId + 1;
      r := View(id, notes[id]);
    }

    /** GET /notes for the current user `uid`: exactly that user's notes,
        each once, newest first. */
    function ListNotes(uid: int): (r: seq<NoteOut>)
      reads this
      requires Valid()
      ensures forall n :: n in r ==>
        n.id in notes && notes[n.id].userId == uid && n == View(n.id, notes[n.id])
      ensures forall id :: id in notes && notes[id].userId == uid ==> View(id, notes[id]) in r
      ensures IdsDescending(r)
      ensures NewestFirst(r)
    {
      OwnedDescendingSound(notes, uid, nextNoteId);
      OwnedDescendingComplete(notes, uid, nextNoteId);
      OwnedDescendingNewestFirst(notes, uid, nextNoteId);
      OwnedDescending(notes, uid, nextNoteId)
    }

    /** GET /notes/{noteId} for the current user `uid`. */
    function GetNote(uid: int, noteId: int): (r: Result<NoteOut>)
      reads this
      ensures r.Success? <==> noteId in notes && notes[noteId].userId == uid
      ensures r.Success? ==> r.value == View(noteId, notes[noteId])
      ensures r.Failure? ==> r.error == NoteNotFound
    {
      match OwnedNote(notes, uid, noteId)
      case None => Failure(NoteNotFound)
      case Some(row) => Success(View(noteId, row))
    }

    /** PUT /notes/{noteId} for the current user `uid`. */
    method UpdateNote(uid: int, noteId: int, patch: NoteUpdate) returns (r: Result<NoteOut>)
      requires Valid()
      modifies this
      ensures Valid()
      ensures users == old(users) && nextUserId == old(nextUserId) && nextNoteId == old(nextNoteId)
      ensures OwnedNote(old(notes), uid, noteId).None? ==>
        r == Failure(NoteNotFound) && notes == old(notes) && clock == old(clock)
      ensures OwnedNote(old(notes), uid, noteId).Some? ==>
        && clock == old(clock) + 1
        && notes == old(notes)[noteId := ApplyUpdate(old(notes)[noteId], patch, clock)]
        && r == Success(View(noteId, notes[noteId]))
      ensures forall id :: id in old(notes) && id != noteId ==> id in notes && notes[id] == old(notes)[id]
      ensures forall id :: id in old(notes) && old(notes)[id].userId != uid ==>
        id in notes && notes[id] == old(notes)[id]
    {
      var found := OwnedNote(notes, uid, noteId);
      if found.None? {
        return Failure(NoteNotFound);
      }
      var row := found.value;
      var written := false;
      if Truthy(patch.title) {
        row := row.(title := patch.title.value);
        written := true;
      }
      if Truthy(patch.content) {
        row := row.(content := patch.content.value);
        written := true;
      }
      clock := clock + 1;
      if written {
        row := row.(updatedAt := clock);
      }
      notes := notes[noteId := row];
      r := Success(View(noteId, row));
    }

    /** DELETE /notes/{noteId} for the current user `uid`; `Success(true)`
        stands for the body `{"ok": true}`. */
    method DeleteNote(uid: int, noteId: int) returns (r: Result<bool>)
      requires Valid()
      modifies this
      ensures Valid()
      ensures users == old(users) && clock == old(clock)
      ensures nextUserId == old(nextUserId) && nextNoteId == old(nextNoteId)
      ensures OwnedNote(old(notes), uid, noteId).None? ==>
        r == Failure(NoteNotFound) && notes == old(notes)
      ensures OwnedNote(old(notes), uid, noteId).Some? ==>
        && r == Success(true)
        && notes == old(notes) - {noteId}
        && |notes| == |old(notes)| - 1
      ensures forall id :: id in old(notes) && id != noteId ==> id in notes && notes[id] == old(notes)[id]
      ensures forall id :: id in old(notes) && old(notes)[id].userId != uid ==>
        id in notes && notes[id] == old(notes)[id]
      ensures GetNote(uid, noteId) == Failure(NoteNotFound)
    {
      var found := OwnedNote(notes, uid, noteId);
      if found.None? {
        return Failure(NoteNotFound);
      }
      notes := notes - {noteId};
      r := Success(true);
    }

    /** Deleting a user row: the owner relationship cascades the delete to
        every note that user owns. No route deletes users. */
    method DeleteUser(uid: int)
      requires Valid()
      modifies this
      ensures Valid()
      ensures users == old(users) - {uid}
      ensures notes == WithoutOwner(old(notes), uid)
      ensures forall id :: id in notes ==> notes[id].userId != uid
      ensures nextUserId == old(nextUserId) && nextNoteId == old(nextNoteId) && clock == old(clock)
    {
      CascadeLeavesNoOrphans(users, notes, uid);
      notes := WithoutOwner(notes, uid);
      users := users - {uid};
    }

    // -------------------------------------------------------------------
    // Properties relating several handlers

    /** An unknown e-mail and a wrong password give the same answer. */
    lemma LoginFailureUniform(unknown: LoginForm, wrong: LoginForm, now: int)
      requires Valid()
      requires forall id :: id in users ==> users[id].email != unknown.username
      requires exists id :: id in users && users[id].email == wrong.username
                            && !hasher.verify(wrong.password, users[id].hashedPassword)
      ensures Login(unknown, now) == Login(wrong, now) == Failure(BadCredentials)
    {
    }

    /** A user stored by registration with `password` can log in with it, and
        the token issued resolves back to that user until it expires. */
    lemma RegisteredUserLogsIn(id: int, password: string, now: int, later: int)
      requires Valid()
      requires id in users && users[id].hashedPassword == hasher.hash(password)
      requires now <= later <= now + AccessTokenLifetime
      ensures Login(LoginForm(users[id].email, password), now).Success?
      ensures CurrentUser(Some(Login(LoginForm(users[id].email, password), now).value.accessToken), later)
              == Success(id)
    {
      var form := LoginForm(users[id].email, password);
      assert hasher.verify(password, hasher.hash(password));
      var r := Login(form, now);
      var who :| who in users && users[who].email == form.username
                 && r.value == TokenResponse(CreateAccessToken(ShowInt(who), now), "bearer");
      assert who == id;
      DecodeIssued(id, now, later);
    }

    /** A token from a successful login resolves to the user with the login
        e-mail for as long as the token lives and the user exists. */
    lemma LoginTokenResolves(form: LoginForm, now: int, later: int)
      requires Valid()
      requires Login(form, now).Success?
      requires now <= later <= now + AccessTokenLifetime
      ensures var u := CurrentUser(Some(Login(form, now).value.accessToken), later);
        u.Success? && users[u.value].email == form.username
    {
      var r := Login(form, now);
      var who :| who in users && users[who].email == form.username
                 && r.value == TokenResponse(CreateAccessToken(ShowInt(who), now), "bearer");
      DecodeIssued(who, now, later);
    }
  }

  /** An example session, as a client sees it through the handlers'
      contracts alone: register, log in, list, create, and a second
      user asking for the first user's note. */
  method ExampleSession(hasher: Hasher, now: int)
    requires hasher.Sound()
  {
    var store := new NoteStore(hasher);
    var a := store.RegisterUser(UserCreate("a@x.com", "secret1"));
    assert a == Success(UserOut(1, "a@x.com"));
    store.RegisteredUserLogsIn(1, "secret1", now, now);
    var login := store.Login(LoginForm("a@x.com", "secret1"), now);
    assert login.value.tokenType == "bearer";
    var me := store.CurrentUser(Some(login.value.accessToken), now);
    assert me == Success(1);
    var listed := store.ListNotes(1);
    assert listed == [];
    var n := store.CreateNote(1, NoteCreate("t", "c"));
    assert n == NoteOut(1, "t", "c", 1, 1, 1);
    var b := store.RegisterUser(UserCreate("b@x.com", "secret2"));
    assert b == Success(UserOut(2, "b@x.com"));
    assert store.GetNote(2, 1) == Failure(NoteNotFound);
    assert store.GetNote(1, 1) == Success(n);
  }
}
