# Notes backend: accounts and note ownership

A Dafny model of the account-and-ownership store behind a small notes API.
Users register with an e-mail and a password and log in for a bearer token.
With that token they create, list, read, update and delete notes, and every
note access is filtered by the owner.

The store is a class, `Routes.NoteStore`, holding:

- the `users` table (id to e-mail and password hash);
- the `notes` table (id to title, content, owner id, `created_at` and `updated_at`);
- two counters that stand in for the database's generated keys;
- an integer clock that stands in for the database's `now()`.

Its invariant `Valid()` holds the table constraints of the schema:

- keys are unique and below the counters;
- e-mails are unique;
- every note's owner exists;
- `created_at <= updated_at <= clock`;
- notes are created in id order.

Handlers that write (register, create, update, delete) are methods whose
contracts give the whole new state. Handlers that only read (login,
current-user resolution, list, get) are functions of the state.

Files:

- `wrappers.dfy`: `Option`, the HTTP error type and `Result`.
- `schemas.dfy`: the request and response shapes, the 6-character password
  rule as a subset type, and the field checks applied to a request body.
- `auth.dfy`: password hashing as an assumed `Hasher`, tokens as signed
  claim sets, decoding, and `str`/`int` on ids.
- `tables.dfy`: rows, table constraints and the queries the handlers run:
  lookup by e-mail, the owner-filtered note lookup and listing, the row
  update and the cascade.
- `routes.dfy`: the store class and the handlers, plus lemmas that relate
  several handlers.

Stated assumptions about code that is not modelled:

- The password-hash library satisfies `verify(p, hash(p))` (`Auth.Hasher.Sound`).
- A token that does not pass signature verification is a value the server
  never issued (`Auth.Token.Unverifiable`). It decodes to no subject.

Three behaviours of the code that a reader may not expect, which the model keeps:

- Creating a note accepts an empty title.
- An update that assigns no field leaves `updated_at` as it was, because no
  UPDATE statement is issued.
- A signed token whose subject is absent or not numeric makes decoding raise
  an uncaught error (HTTP 500). Only token errors are turned into "no
  subject".

## Model

| member | source | states |
|---|---|---|
| `Routes.NoteStore.constructor` | notes_backend/src/api/db.py:44-46 | the store starts with empty tables, and the table invariant holds |
| `Routes.NoteStore.RegisterUser` | notes_backend/src/api/routes.py:21-32 | a taken e-mail gives 409 and changes nothing; otherwise exactly one user is added under a fresh id, storing `hash(password)`; the result is only `{id, email}`; notes are untouched and the invariant is kept |
| `Routes.NoteStore.Login` | notes_backend/src/api/routes.py:35-42 | succeeds iff a user with that e-mail exists and the password verifies against its stored hash; every failure is the same 401 "Incorrect email or password"; success is a token with subject `str(id)` and type "bearer"; no password-length rule applies |
| `Routes.NoteStore.CurrentUser` | notes_backend/src/api/routes.py:44-51 | succeeds iff a token is present and decodes to a non-zero id of an existing user, and then returns that id; otherwise exactly one of four errors: no token gives 401 "Not authenticated", a decoded id that is absent or 0 gives 401 "Could not validate credentials", a non-numeric subject gives 500, a non-zero id with no user gives 404 |
| `Routes.NoteStore.CreateNote` | notes_backend/src/api/routes.py:56-63 | adds exactly one note under a fresh id, with the given title and content, owner = current user and `created_at = updated_at =` the new clock; no existing note changes |
| `Routes.NoteStore.ListNotes` | notes_backend/src/api/routes.py:66-69 | the result is exactly the current user's notes as stored, each once, with `created_at` non-increasing |
| `Routes.NoteStore.GetNote` | notes_backend/src/api/routes.py:72-78 | succeeds iff the note exists and is owned by the current user, and then returns it as stored; otherwise the same 404 "Note not found" |
| `Routes.NoteStore.UpdateNote` | notes_backend/src/api/routes.py:81-93 | a missing or foreign note gives 404 and changes nothing; otherwise only that note becomes `ApplyUpdate` of it at the new clock; every other note, and every note of another user, is unchanged |
| `Routes.NoteStore.DeleteNote` | notes_backend/src/api/routes.py:96-104 | a missing or foreign note gives 404 and changes nothing; otherwise exactly that one row is removed; afterwards a get of that id is 404; every other note is unchanged |
| `Routes.NoteStore.DeleteUser` | notes_backend/src/api/db.py:28 | removing a user also removes exactly the notes that user owns; the invariant (no orphan notes) is kept |
| `Routes.NoteStore.LoginFailureUniform` | notes_backend/src/api/routes.py:38-40 | an unknown e-mail and a wrong password produce the identical result |
| `Routes.NoteStore.RegisteredUserLogsIn` | notes_backend/src/api/routes.py:27-42 | a user stored with `hash(p)` logs in with `p`, and the issued token resolves to that user until it expires |
| `Routes.NoteStore.LoginTokenResolves` | notes_backend/src/api/routes.py:41-51 | a token from a successful login resolves, while unexpired, to the user with the login e-mail |
| `Tables.Consistent` | notes_backend/src/api/db.py:24-39 | the table constraints: keys unique and below the key counters, e-mail unique, every note's owner an existing user, `created_at <= updated_at <= clock`, creation in key order; consequences stated: the next generated keys are free, and every owner id is a generated user key |
| `Tables.FindUserByEmail` | notes_backend/src/api/routes.py:24 | returns the first key in the range whose user has the e-mail, and none exactly when no such user exists |
| `Tables.OwnedNote` | notes_backend/src/api/routes.py:75 | the shared query of get, update and delete: a row exactly when the note exists and its owner is the current user |
| `Tables.OwnedDescending` | notes_backend/src/api/routes.py:69 | the listing query: only notes of that user, at most `k` entries; distinct keys, completeness and order are the three lemmas below |
| `Tables.OwnedDescendingSound` | notes_backend/src/api/routes.py:69 | every listed entry is a note of that user, shown as stored, and keys strictly decrease, so there are no duplicates |
| `Tables.OwnedDescendingComplete` | notes_backend/src/api/routes.py:69 | every note of that user is listed |
| `Tables.OwnedDescendingNewestFirst` | notes_backend/src/api/routes.py:69 | when notes are created in id order, the listing has `created_at` non-increasing (the `created_at desc` order) |
| `Tables.IsolatedByOwner` | notes_backend/src/api/routes.py:69-75 | what a user can list or get depends only on that user's own rows |
| `Tables.ForeignNoteLooksMissing` | notes_backend/src/api/routes.py:75-77 | another user's note looks exactly as if it did not exist, to lookup and to listing |
| `Tables.ApplyUpdate` | notes_backend/src/api/routes.py:87-90 | a field changes only when the patch gives it a non-empty value, and then takes that value; owner and `created_at` never change; `updated_at` moves to the clock only when a field was assigned |
| `Tables.View` | notes_backend/src/api/models.py:52-57 | the note view carries the key and every column of the row (title, content, owner id, both timestamps), so the row can be read back from it |
| `Tables.WithoutOwner` | notes_backend/src/api/db.py:28 | the cascade keeps exactly the notes of other owners, unchanged |
| `Tables.CascadeLeavesNoOrphans` | notes_backend/src/api/db.py:28 | after the cascade, every remaining note's owner still exists |
| `Schemas.ParseUserCreate` | notes_backend/src/api/models.py:8-11 | a registration body is accepted iff the e-mail is present and well formed and the password is present with at least 6 characters; each failing field is reported |
| `Schemas.ParseNoteCreate` | notes_backend/src/api/models.py:32-41 | a note body is accepted iff both title and content are present, with no other constraint |
| `Schemas.ParseNoteUpdate` | notes_backend/src/api/models.py:45-48 | an update body is never rejected; each field is absent unless given |
| `Auth.DecodeAccessToken` | notes_backend/src/api/auth.py:43-50 | a subject is returned iff the token is signed, unexpired and has a numeric subject; an absent or non-numeric subject on a valid token raises |
| `Auth.CreateAccessToken` | notes_backend/src/api/auth.py:31-40 | the token carries the given subject and is accepted for exactly the 60-minute lifetime after issue, and rejected afterwards |
| `Auth.DecodeIssued` | notes_backend/src/api/auth.py:31-50 | a token issued for `str(id)` decodes to `id` until its 60-minute lifetime ends, and to no subject afterwards |
| `Auth.ShowInt` | notes_backend/src/api/routes.py:41 | `str(n)`: non-empty; all digits for `n >= 0`; a minus sign followed by digits for `n < 0` |
| `Auth.ParseInt` | notes_backend/src/api/auth.py:47 | `int(s)` on an optional sign and digits: a digit string gives its value, `-` and `+` followed by digits give the negated and the plain value (leading zeros allowed); any non-digit after the first character is rejected; a negative result needs a leading minus |
| `Auth.ParseShowInt` | notes_backend/src/api/auth.py:47 | `int(str(n)) == n` for every integer `n` |

## Left out

- Password hashing: bcrypt, its salt and its cost are not modelled. `Hasher` is any pair of functions satisfying `verify(p, hash(p))`. Nothing is assumed about hashes being distinct from passwords.
- Token cryptography: HS256 signing, the signing key and its insecure default are not modelled. A token is its claim set; a badly signed or malformed one is `Unverifiable`.
- The token lifetime is fixed at its default of 60 minutes; overriding it from the environment is not modelled.
- Token expiry: a token counts as expired once the application clock `now` is past `exp`, with no leeway. The application clock is a parameter, separate from the database clock.
- `Auth.ParseInt` accepts an optional sign followed by ASCII digits. Python's `int` also accepts surrounding whitespace, underscores and non-ASCII digits. This matters only for signed tokens whose subject the server did not write as `str(id)`.
- E-mail syntax is an opaque predicate `isEmail`. The library's normalisation of the address is not modelled: the stored e-mail is the submitted one, and uniqueness is exact, case-sensitive equality.
- Request bodies are reduced to their string-valued fields. Type coercion, `null` values and extra fields are not modelled. Login's form fields other than username and password are ignored.
- Generated keys come from counters that never reuse a key. A database that reuses the highest key after it is deleted (SQLite without AUTOINCREMENT) is not modelled.
- The database clock advances by one on each note create and each successful update (deletes leave it alone). Real `now()` can give two transactions the same time; among equal `created_at` values the database's order is unspecified, and the model lists by key.
- `Routes.NoteStore.UpdateNote`: `updated_at` is refreshed whenever a field is assigned, even when the assigned value equals the stored one. The ORM would skip the UPDATE in that case.
- There is no route that deletes a user. `DeleteUser` models only the cascade the schema declares.
- The per-request session (`get_db`), `commit`/`refresh`, engine creation, table creation, environment reads, the application wiring, CORS and the health check are I/O and configuration. The store's state stands for the committed database.
- Requests run one at a time; concurrent requests are not modelled.
- `Schemas.UserLogin` is declared as in the schema module but used by no handler, as in the code.
