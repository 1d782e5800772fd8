/** The friendship table: pure queries over its rows and the three writes the
    services use. */
module FriendRepo {
  import opened Common

  datatype Status = Pending | Accepted

  /** A friendship row, directional as created (timestamps are not modelled). */
  datatype Friendship = Friendship(id: Id, requesterId: Id, addresseeId: Id, status: Status)

  /** `f` joins users `a` and `b`, in either orientation. */
  predicate Joins(f: Friendship, a: Id, b: Id) {
    (f.requesterId == a && f.addresseeId == b) || (f.requesterId == b && f.addresseeId == a)
  }

  /** The filter of `findManyFriendships`: `userId` is a party and, when a status
      is given, the row has it. */
  predicate Involves(f: Friendship, userId: Id, status: Option<Status>) {
    (status.None? || f.status == status.value) && (f.requesterId == userId || f.addresseeId == userId)
  }

  ghost predicate Keyed(rows: map<Id, Friendship>) {
    forall id :: id in rows ==> rows[id].id == id
  }

  /** At most one row for any unordered pair of users, whatever its direction. */
  ghost predicate PairUnique(rows: map<Id, Friendship>) {
    forall i, j :: i in rows && j in rows && Joins(rows[i], rows[j].requesterId, rows[j].addresseeId) ==> i == j
  }

  /** No row joins a user to themself. */
  ghost predicate NoSelfRows(rows: map<Id, Friendship>) {
    forall id :: id in rows ==> rows[id].requesterId != rows[id].addresseeId
  }

  /** Some row joins `a` and `b` and, when a status is given, has it. */
  ghost predicate Linked(rows: map<Id, Friendship>, a: Id, b: Id, status: Option<Status>) {
    exists id :: id in rows && Joins(rows[id], a, b) && (status.None? || rows[id].status == status.value)
  }

  lemma JoinsIsSymmetric(f: Friendship, a: Id, b: Id)
    ensures Joins(f, a, b) <==> Joins(f, b, a)
  {
  }

  /** Under the pair invariant, the row `findExistingFriendship` can pick is unique,
      so its answer does not depend on the order of the store's scan. */
  lemma {:induction false} ExistingRowIsUnique(rows: map<Id, Friendship>, a: Id, b: Id, i: Id, j: Id)
    requires PairUnique(rows)
    requires i in rows && j in rows && Joins(rows[i], a, b) && Joins(rows[j], a, b)
    ensures i == j
  {
    assert Joins(rows[i], rows[j].requesterId, rows[j].addresseeId);
  }

  /** Adding a row for a pair that had none keeps the pair invariant. */
  lemma {:induction false} InsertKeepsPairUnique(rows: map<Id, Friendship>, f: Friendship)
    requires PairUnique(rows) && f.id !in rows
    requires !Linked(rows, f.requesterId, f.addresseeId, None)
    ensures PairUnique(rows[f.id := f])
  {
    forall k | k in rows
      ensures !Joins(rows[k], f.requesterId, f.addresseeId) && !Joins(f, rows[k].requesterId, rows[k].addresseeId)
    {
      JoinsIsSymmetric(rows[k], f.requesterId, f.addresseeId);
    }
  }

  /** Changing only the status of a row keeps the pair invariant. */
  lemma {:induction false} RestatusKeepsPairUnique(rows: map<Id, Friendship>, id: Id, s: Status)
    requires PairUnique(rows) && id in rows
    ensures PairUnique(rows[id := rows[id].(status := s)])
  {
    var after := rows[id := rows[id].(status := s)];
    forall i, j | i in after && j in after && Joins(after[i], after[j].requesterId, after[j].addresseeId)
      ensures i == j
    {
      assert Joins(rows[i], rows[j].requesterId, rows[j].addresseeId);
    }
  }

  /** `findFriendshipById`: the row stored under `id`, if any. */
  function FindFriendshipById(rows: map<Id, Friendship>, id: Id): (r: Option<Friendship>)
    requires Keyed(rows)
    ensures r.Some? <==> id in rows
    ensures r.Some? ==> r.value.id == id && r.value in rows.Values
  {
    if id in rows then Some(rows[id]) else None
  }

  /** `findExistingFriendship`: some row between the two users in either
      orientation, or none when there is no such row. */
  method FindExistingFriendship(rows: map<Id, Friendship>, userId1: Id, userId2: Id) returns (r: Option<Friendship>)
    requires Keyed(rows)
    ensures r.Some? ==> r.value.id in rows && rows[r.value.id] == r.value && Joins(r.value, userId1, userId2)
    ensures r.None? <==> !Linked(rows, userId1, userId2, None)
  {
    if id :| id in rows && Joins(rows[id], userId1, userId2) {
      r := Some(rows[id]);
    } else {
      r := None;
    }
  }

  /** `findManyFriendships`: exactly the rows `userId` is a party to (with the
      given status, when one is given), each once, in the store's order. */
  method FindManyFriendships(rows: map<Id, Friendship>, userId: Id, status: Option<Status>)
    returns (found: seq<Friendship>)
    requires Keyed(rows)
    ensures forall f :: f in found <==> f in rows.Values && Involves(f, userId, status)
    ensures forall i, j :: 0 <= i < j < |found| ==> found[i].id != found[j].id
  {
    var ids := MatchingKeys(rows, (f: Friendship) => Involves(f, userId, status));
    found := seq(|ids|, i requires 0 <= i < |ids| => rows[ids[i]]);
    forall f | f in rows.Values && Involves(f, userId, status)
      ensures f in found
    {
      var k :| k in rows && rows[k] == f;
      var i :| 0 <= i < |ids| && ids[i] == k;
      assert found[i] == f;
    }
  }

  class FriendRepository {
    var rows: map<Id, Friendship>
    var nextId: Id

    ghost predicate Valid()
      reads this
    {
      Keyed(rows) && forall id :: id in rows ==> id < nextId
    }

    constructor ()
      ensures Valid() && rows == map[]
    {
      rows := map[];
      nextId := 0;
    }

    /** `createFriendship`: one new row with the given parties and status. The
        store may refuse the insert (a lost race on the pair constraint, a
        connection failure); `fault` is what it throws then. */
    method CreateFriendship(requesterId: Id, addresseeId: Id, status: Status, fault: Option<Thrown>)
      returns (r: Result<Friendship>)
      requires Valid()
      modifies this
      ensures Valid()
      ensures fault.Some? ==> r == Err(Rethrown(fault.value)) && rows == old(rows)
      ensures fault.None? ==>
        && r.Ok?
        && r.value.id !in old(rows)
        && r.value == Friendship(r.value.id, requesterId, addresseeId, status)
        && rows == old(rows)[r.value.id := r.value]
    {
      if fault.Some? {
        return Err(Rethrown(fault.value));
      }
      var row := Friendship(nextId, requesterId, addresseeId, status);
      rows := rows[nextId := row];
      nextId := nextId + 1;
      r := Ok(row);
    }

    /** `updateFriendshipStatus`: only the status of row `id` changes. */
    method UpdateFriendshipStatus(id: Id, status: Status) returns (r: Result<Friendship>)
      requires Valid()
      modifies this
      ensures Valid()
      ensures id !in old(rows) ==> r == Err(Rethrown(RecordNotFound)) && rows == old(rows)
      ensures id in old(rows) ==>
        && r == Ok(old(rows)[id].(status := status))
        && rows == old(rows)[id := r.value]
    {
      if id !in rows {
        return Err(Rethrown(RecordNotFound));
      }
      var row := rows[id].(status := status);
      rows := rows[id := row];
      r := Ok(row);
    }

    /** `deleteFriendship`: only row `id` goes; the deleted row is returned. */
    method DeleteFriendship(id: Id) returns (r: Result<Friendship>)
      requires Valid()
      modifies this
      ensures Valid()
      ensures id !in old(rows) ==> r == Err(Rethrown(RecordNotFound)) && rows == old(rows)
      ensures id in old(rows) ==> r == Ok(old(rows)[id]) && rows == old(rows) - {id}
    {
      if id !in rows {
        return Err(Rethrown(RecordNotFound));
      }
      r := Ok(rows[id]);
      rows := rows - {id};
    }
  }
}
