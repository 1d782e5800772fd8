/** Notes: owner-gated reads and writes over the note table. */
module NoteService {
  import opened Common

  const NoteNotFound := "Note not found"
  const AccessDenied := "Access denied"

  /** A note row (timestamps are not modelled). */
  datatype Note = Note(id: Id, title: Option<string>, content: string, userId: Id)

  /** The body of `createNote`: an optional title and the content. */
  datatype CreateNoteRequest = CreateNoteRequest(title: Option<string>, content: string)

  /** The body of `updateNote`; `None` is an absent property. The route schema
      names `title` and `content` but does not forbid other properties, and the
      body reaches the store as it is, so a client may also send `userId`. */
  datatype UpdateNoteRequest = UpdateNoteRequest(title: Option<string>, content: Option<string>, userId: Option<Id>)

  /** `n` with the properties present in `data` overwritten. */
  function Applied(n: Note, data: UpdateNoteRequest): (m: Note)
    ensures m.id == n.id
    ensures m.title == (if data.title.Some? then data.title else n.title)
    ensures m.content == (if data.content.Some? then data.content.value else n.content)
    ensures m.userId == (if data.userId.Some? then data.userId.value else n.userId)
  {
    n.(title := if data.title.Some? then data.title else n.title,
       content := if data.content.Some? then data.content.value else n.content,
       userId := if data.userId.Some? then data.userId.value else n.userId)
  }

  ghost predicate Keyed(rows: map<Id, Note>) {
    forall id :: id in rows ==> rows[id].id == id
  }

  /** The note table. */
  class NoteStore {
    var rows: map<Id, Note>
    var nextId: Id

    ghost predicate Valid()
      reads this
    {
      Keyed(rows) && forall id :: id in rows ==> id < nextId
    }

    constructor ()
      ensures Valid() && rows == map[]
    {
      rows := map[];
      nextId := 0;
    }

    /** `create`: one new row. */
    method Create(title: Option<string>, content: string, userId: Id) returns (n: Note)
      requires Valid()
      modifies this
      ensures Valid()
      ensures n == Note(n.id, title, content, userId) && n.id !in old(rows)
      ensures rows == old(rows)[n.id := n]
    {
      n := Note(nextId, title, content, userId);
      rows := rows[nextId := n];
      nextId := nextId + 1;
    }

    /** `findAllByUserId`: exactly the notes of `userId`, each once. */
    method FindAllByUserId(userId: Id) returns (found: seq<Note>)
      requires Valid()
      ensures forall n :: n in found <==> n in rows.Values && n.userId == userId
      ensures forall i, j :: 0 <= i < j < |found| ==> found[i].id != found[j].id
    {
      var table := rows;
      var ids := MatchingKeys(table, (n: Note) => n.userId == userId);
      found := seq(|ids|, i requires 0 <= i < |ids| => table[ids[i]]);
      assert forall i :: 0 <= i < |found| ==> found[i] == table[ids[i]] && found[i].id == ids[i];
      forall n | n in table.Values && n.userId == userId
        ensures n in found
      {
        var k :| k in table && table[k] == n;
        assert k in ids;
        var i :| 0 <= i < |ids| && ids[i] == k;
        assert found[i] == n;
      }
    }

    /** `update`: the present properties of row `id`; a missing row is an error. */
    method Update(id: Id, data: UpdateNoteRequest) returns (r: Result<Note>)
      requires Valid()
      modifies this
      ensures Valid()
      ensures id !in old(rows) ==> r == Err(Rethrown(RecordNotFound)) && rows == old(rows)
      ensures id in old(rows) ==> r == Ok(Applied(old(rows)[id], data)) && rows == old(rows)[id := r.value]
    {
      if id !in rows {
        return Err(Rethrown(RecordNotFound));
      }
      r := Ok(Applied(rows[id], data));
      rows := rows[id := r.value];
    }

    /** `delete`: removes row `id` and returns it; a missing row is an error. */
    method Delete(id: Id) returns (r: Result<Note>)
      requires Valid()
      modifies this
      ensures Valid()
      ensures id !in old(rows) ==> r == Err(Rethrown(RecordNotFound)) && rows == old(rows)
      ensures id in old(rows) ==> r == Ok(old(rows)[id]) && rows == old(rows) - {id}
    {
      if id !in rows {
        return Err(Rethrown(RecordNotFound));
      }
      r := Ok(rows[id]);
      rows := rows - {id};
    }
  }

  /** `checkOwnership`: the note, when it exists (else 404) and belongs to
      `userId` (else 403). */
  function CheckOwnership(rows: map<Id, Note>, userId: Id, id: Id): (r: Result<Note>)
    requires Keyed(rows)
    ensures r.Ok? <==> id in rows && rows[id].userId == userId
    ensures r.Ok? ==> r.value.id == id && r.value.userId == userId && r.value in rows.Values
    ensures id !in rows ==> r == Err(HttpError(404, NoteNotFound))
    ensures id in rows && rows[id].userId != userId ==> r == Err(HttpError(403, AccessDenied))
  {
    if id !in rows then Err(HttpError(404, NoteNotFound))
    else if rows[id].userId != userId then Err(HttpError(403, AccessDenied))
    else Ok(rows[id])
  }

  /** A note passes the check for its owner only. */
  lemma {:induction false} OwnerIsUnique(rows: map<Id, Note>, u1: Id, u2: Id, id: Id)
    requires Keyed(rows)
    requires CheckOwnership(rows, u1, id).Ok? && CheckOwnership(rows, u2, id).Ok?
    ensures u1 == u2
  {
    assert rows[id].userId == u1 && rows[id].userId == u2;
  }

  /** An owner's update that carries another `userId` hands the note over: the
      caller is refused from then on and the named user passes the check. */
  lemma {:induction false} UpdateCanTransfer(rows: map<Id, Note>, userId: Id, id: Id, data: UpdateNoteRequest)
    requires Keyed(rows)
    requires CheckOwnership(rows, userId, id).Ok?
    requires data.userId.Some? && data.userId.value != userId
    ensures Keyed(rows[id := Applied(rows[id], data)])
    ensures CheckOwnership(rows[id := Applied(rows[id], data)], userId, id) == Err(HttpError(403, AccessDenied))
    ensures CheckOwnership(rows[id := Applied(rows[id], data)], data.userId.value, id).Ok?
  {
    var after := rows[id := Applied(rows[id], data)];
    assert after[id].userId == data.userId.value;
    assert Keyed(after) by {
      forall k | k in after ensures after[k].id == k {
        if k != id { assert after[k] == rows[k]; }
      }
    }
  }

  /** `createNote`: the request's fields, owned by the caller. */
  method CreateNote(notes: NoteStore, userId: Id, data: CreateNoteRequest) returns (n: Note)
    requires notes.Valid()
    modifies notes
    ensures notes.Valid()
    ensures n.userId == userId && n.title == data.title && n.content == data.content
    ensures n.id !in old(notes.rows) && notes.rows == old(notes.rows)[n.id := n]
  {
    n := notes.Create(data.title, data.content, userId);
  }

  /** `getNotes`: exactly the caller's notes. */
  method GetNotes(notes: NoteStore, userId: Id) returns (found: seq<Note>)
    requires notes.Valid()
    ensures forall n :: n in found ==> n.userId == userId && n in notes.rows.Values
    ensures forall id :: id in notes.rows && notes.rows[id].userId == userId ==> notes.rows[id] in found
    ensures forall i, j :: 0 <= i < j < |found| ==> found[i].id != found[j].id
  {
    found := notes.FindAllByUserId(userId);
  }

  /** `getNote`: what `checkOwnership` yields. */
  method GetNote(notes: NoteStore, userId: Id, id: Id) returns (r: Result<Note>)
    requires notes.Valid()
    ensures r == CheckOwnership(notes.rows, userId, id)
    ensures r.Ok? ==> r.value == notes.rows[id]
  {
    r := CheckOwnership(notes.rows, userId, id);
  }

  /** `updateNote`: no write unless the caller owns the note; then only that
      note's present properties change. */
  method UpdateNote(notes: NoteStore, userId: Id, id: Id, data: UpdateNoteRequest) returns (r: Result<Note>)
    requires notes.Valid()
    modifies notes
    ensures notes.Valid()
    ensures CheckOwnership(old(notes.rows), userId, id).Err? ==>
      r == Err(CheckOwnership(old(notes.rows), userId, id).failure) && notes.rows == old(notes.rows)
    ensures CheckOwnership(old(notes.rows), userId, id).Ok? ==>
      && r == Ok(Applied(old(notes.rows)[id], data))
      && notes.rows == old(notes.rows)[id := r.value]
      && r.value.userId == (if data.userId.Some? then data.userId.value else userId)
  {
    var owned := CheckOwnership(notes.rows, userId, id);
    if owned.Err? {
      return Err(owned.failure);
    }
    r := notes.Update(id, data);
  }

  /** `deleteNote`: no write unless the caller owns the note; then only that note goes. */
  method DeleteNote(notes: NoteStore, userId: Id, id: Id) returns (r: Result<Note>)
    requires notes.Valid()
    modifies notes
    ensures notes.Valid()
    ensures CheckOwnership(old(notes.rows), userId, id).Err? ==>
      r == Err(CheckOwnership(old(notes.rows), userId, id).failure) && notes.rows == old(notes.rows)
    ensures CheckOwnership(old(notes.rows), userId, id).Ok? ==>
      r == Ok(old(notes.rows)[id]) && notes.rows == old(notes.rows) - {id}
  {
    var owned := CheckOwnership(notes.rows, userId, id);
    if owned.Err? {
      return Err(owned.failure);
    }
    r := notes.Delete(id);
  }
}
