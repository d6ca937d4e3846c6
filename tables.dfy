/** The two tables of the database: users and notes, keyed by integer id,
    with the constraints their schema declares, and the queries and row
    updates the routes perform on them. */
module Tables {
  import opened Wrappers
  import opened Schemas

  /** A row of `users`. Both columns are non-null strings. */
  datatype UserRow = UserRow(email: string, hashedPassword: string)

  /** A row of `notes`. `userId` is the owner (foreign key to `users`);
      timestamps are ticks of the database clock. */
  datatype NoteRow = NoteRow(title: string, content: string, userId: int,
                             createdAt: int, updatedAt: int)

  type Users = map<int, UserRow>
  type Notes = map<int, NoteRow>

  /** `email` is unique. */
  ghost predicate EmailsUnique(users: Users)
  {
    forall a, b :: a in users && b in users && users[a].email == users[b].email ==> a == b
  }

  /** Every note's owner exists. */
  ghost predicate OwnersExist(users: Users, notes: Notes)
  {
    forall id :: id in notes ==> notes[id].userId in users
  }

  /** Both timestamps are set on insert and only `updatedAt` moves later, so
      neither is ahead of the clock and `createdAt <= updatedAt`. */
  ghost predicate TimestampsOrdered(notes: Notes, clock: int)
  {
    forall id :: id in notes ==> notes[id].createdAt <= notes[id].updatedAt <= clock
  }

  /** Notes are created in id order, so a later id was created no earlier. */
  ghost predicate CreatedInIdOrder(notes: Notes)
  {
    forall a, b :: a in notes && b in notes && a < b ==> notes[a].createdAt <= notes[b].createdAt
  }

  /** Every key lies below the next key the table will generate. */
  ghost predicate KeysBelow<R>(table: map<int, R>, next: int)
  {
    forall id :: id in table ==> 1 <= id < next
  }

  /** All table constraints, for the generated-key counters and the clock. */
  ghost predicate Consistent(users: Users, notes: Notes, nextUserId: int, nextNoteId: int, clock: int)
    ensures Consistent(users, notes, nextUserId, nextNoteId, clock) ==>
      nextUserId !in users && nextNoteId !in notes
    ensures Consistent(users, notes, nextUserId, nextNoteId, clock) ==>
      forall id :: id in notes ==> 1 <= notes[id].userId < nextUserId
    ensures Consistent(users, notes, nextUserId, nextNoteId, clock) ==>
      forall id :: id in notes ==> notes[id].createdAt <= clock
  {
    && 1 <= nextUserId && 1 <= nextNoteId
    && KeysBelow(users, nextUserId) && KeysBelow(notes, nextNoteId)
    && EmailsUnique(users)
    && OwnersExist(users, notes)
    && TimestampsOrdered(notes, clock)
    && CreatedInIdOrder(notes)
  }

  // ---------------------------------------------------------------------
  // Queries

  /** `query(User).filter(User.email == email).first()` over the keys in
      `[lo, hi)`, scanned in ascending key order. */
  function FindUserByEmail(users: Users, email: string, lo: int, hi: int): (r: Option<int>)
    decreases hi - lo
    ensures r.Some? ==> lo <= r.value < hi && r.value in users && users[r.value].email == email
    ensures r.Some? ==> forall id :: lo <= id < r.value && id in users ==> users[id].email != email
    ensures r.None? <==> forall id :: lo <= id < hi && id in users ==> users[id].email != email
  {
    if lo >= hi then None
    else if lo in users && users[lo].email == email then Some(lo)
    else FindUserByEmail(users, email, lo + 1, hi)
  }

  /** The stored row a client view shows. */
  function RowOf(n: NoteOut): NoteRow
  {
    NoteRow(n.title, n.content, n.userId, n.createdAt, n.updatedAt)
  }

  /** A note row as a client sees it: the key and every column of the row. */
  function View(id: int, row: NoteRow): (r: NoteOut)
    ensures r.id == id && RowOf(r) == row
  {
    NoteOut(id, row.title, row.content, row.userId, row.createdAt, row.updatedAt)
  }

  /** `query(Note).filter(Note.id == noteId, Note.user_id == uid).first()`:
      the note only when it exists AND belongs to `uid`. */
  function OwnedNote(notes: Notes, uid: int, noteId: int): (r: Option<NoteRow>)
    ensures r.Some? <==> noteId in notes && notes[noteId].userId == uid
    ensures r.Some? ==> r.value == notes[noteId]
  {
    if noteId in notes && notes[noteId].userId == uid then Some(notes[noteId]) else None
  }

  /** The notes of `uid` with keys in `[0, k)`, highest key first. */
  function OwnedDescending(notes: Notes, uid: int, k: int): (r: seq<NoteOut>)
    ensures |r| <= if k <= 0 then 0 else k
    ensures forall n :: n in r ==> n.userId == uid
    decreases k
  {
    if k <= 0 then []
    else
      var rest := OwnedDescending(notes, uid, k - 1);
      if k - 1 in notes && notes[k - 1].userId == uid then [View(k - 1, notes[k - 1])] + rest
      else rest
  }

  /** Keys strictly decrease along the listing. */
  predicate IdsDescending(r: seq<NoteOut>)
  {
    forall i, j :: 0 <= i < j < |r| ==> r[i].id > r[j].id
  }

  /** `created_at` never increases along the listing. */
  predicate NewestFirst(r: seq<NoteOut>)
  {
    forall i, j :: 0 <= i < j < |r| ==> r[i].createdAt >= r[j].createdAt
  }

  /** Everything listed is a note of `uid`, shown as stored, with keys
      strictly decreasing (so no note appears twice). */
  lemma {:induction false} OwnedDescendingSound(notes: Notes, uid: int, k: int)
    ensures forall n :: n in OwnedDescending(notes, uid, k) ==>
      0 <= n.id < k && n.id in notes && notes[n.id].userId == uid && n == View(n.id, notes[n.id])
    ensures IdsDescending(OwnedDescending(notes, uid, k))
    decreases k
  {
    if k > 0 {
      OwnedDescendingSound(notes, uid, k - 1);
      var rest := OwnedDescending(notes, uid, k - 1);
      forall j | 0 <= j < |rest| ensures rest[j].id < k - 1 {
        assert rest[j] in rest;
      }
      var r := OwnedDescending(notes, uid, k);
      if k - 1 in notes && notes[k - 1].userId == uid {
        assert r == [View(k - 1, notes[k - 1])] + rest;
        forall i, j | 0 <= i < j < |r| ensures r[i].id > r[j].id {
          assert r[j] == rest[j - 1];
          if i > 0 {
            assert r[i] == rest[i - 1];
          } else {
            assert r[i].id == k - 1;
          }
        }
      } else {
        assert r == rest;
      }
    }
  }

  /** Every note of `uid` with key in `[0, k)` is listed. */
  lemma {:induction false} OwnedDescendingComplete(notes: Notes, uid: int, k: int)
    ensures forall id :: 0 <= id < k && id in notes && notes[id].userId == uid ==>
      View(id, notes[id]) in OwnedDescending(notes, uid, k)
    decreases k
  {
    if k > 0 {
      OwnedDescendingComplete(notes, uid, k - 1);
    }
  }

  /** In a table created in id order, the listing is newest first. */
  lemma OwnedDescendingNewestFirst(notes: Notes, uid: int, k: int)
    requires CreatedInIdOrder(notes)
    ensures NewestFirst(OwnedDescending(notes, uid, k))
  {
    OwnedDescendingSound(notes, uid, k);
    var r := OwnedDescending(notes, uid, k);
    forall i, j | 0 <= i < j < |r| ensures r[i].createdAt >= r[j].createdAt {
      assert r[i] in r && r[j] in r;
      assert r[i] == View(r[i].id, notes[r[i].id]) && r[j] == View(r[j].id, notes[r[j].id]);
      assert notes[r[j].id].createdAt <= notes[r[i].id].createdAt;
    }
  }

  /** The rows of `uid`. */
  function RowsOf(notes: Notes, uid: int): (m: Notes)
    ensures forall id :: id in m <==> id in notes && notes[id].userId == uid
  {
    map id | id in notes && notes[id].userId == uid :: notes[id]
  }

  /** What a user can see depends only on that user's own rows: two tables
      that agree on them give the same single-note lookups and the same
      listing, whatever other users own. */
  lemma {:induction false} IsolatedByOwner(n1: Notes, n2: Notes, uid: int, k: int)
    requires RowsOf(n1, uid) == RowsOf(n2, uid)
    ensures forall id :: OwnedNote(n1, uid, id) == OwnedNote(n2, uid, id)
    ensures OwnedDescending(n1, uid, k) == OwnedDescending(n2, uid, k)
    decreases k
  {
    forall id ensures OwnedNote(n1, uid, id) == OwnedNote(n2, uid, id) {
      if id in n1 && n1[id].userId == uid {
        assert id in RowsOf(n1, uid);
      }
      if id in n2 && n2[id].userId == uid {
        assert id in RowsOf(n2, uid);
      }
    }
    if k > 0 {
      IsolatedByOwner(n1, n2, uid, k - 1);
      assert OwnedNote(n1, uid, k - 1) == OwnedNote(n2, uid, k - 1);
    }
  }

  /** A note of another user is indistinguishable from a missing one. */
  lemma ForeignNoteLooksMissing(notes: Notes, uid: int, noteId: int, k: int)
    requires noteId in notes && notes[noteId].userId != uid
    ensures OwnedNote(notes, uid, noteId) == OwnedNote(notes - {noteId}, uid, noteId) == None
    ensures OwnedDescending(notes, uid, k) == OwnedDescending(notes - {noteId}, uid, k)
  {
    assert RowsOf(notes, uid) == RowsOf(notes - {noteId}, uid);
    IsolatedByOwner(notes, notes - {noteId}, uid, k);
  }

  // ---------------------------------------------------------------------
  // Row updates

  /** A field of an update is applied only when it is present and non-empty. */
  predicate Truthy(field: Option<string>)
  {
    field.Some? && field.value != ""
  }

  /** The row after the update handler has assigned the patched fields and
      the database has refreshed `updatedAt` to `now` (only when a field was
      assigned: with nothing assigned no UPDATE is issued). */
  function ApplyUpdate(row: NoteRow, patch: NoteUpdate, now: int): (r: NoteRow)
    ensures r.userId == row.userId && r.createdAt == row.createdAt
    ensures !Truthy(patch.title) ==> r.title == row.title
    ensures Truthy(patch.title) ==> r.title == patch.title.value
    ensures !Truthy(patch.content) ==> r.content == row.content
    ensures Truthy(patch.content) ==> r.content == patch.content.value
    ensures Truthy(patch.title) || Truthy(patch.content) ==> r.updatedAt == now
    ensures !Truthy(patch.title) && !Truthy(patch.content) ==> r == row
  {
    var title := if Truthy(patch.title) then patch.title.value else row.title;
    var content := if Truthy(patch.content) then patch.content.value else row.content;
    if Truthy(patch.title) || Truthy(patch.content) then
      row.(title := title, content := content, updatedAt := now)
    else row
  }

  /** The notes that survive deleting user `uid`: the relationship cascades
      the delete to every note that user owns. */
  function WithoutOwner(notes: Notes, uid: int): (r: Notes)
    ensures forall id :: id in r <==> id in notes && notes[id].userId != uid
    ensures forall id :: id in r ==> r[id] == notes[id]
  {
    map id | id in notes && notes[id].userId != uid :: notes[id]
  }

  /** The cascade leaves no orphan: every remaining note's owner remains. */
  lemma CascadeLeavesNoOrphans(users: Users, notes: Notes, uid: int)
    requires OwnersExist(users, notes)
    ensures OwnersExist(users - {uid}, WithoutOwner(notes, uid))
  {
  }
}
