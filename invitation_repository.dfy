/** The invitation table: insert, lookup by code, and the conditional
    "set `usedAt` only while it is still null" update. */
module InvitationRepo {
  import opened Common

  /** An invitation row (timestamps other than `usedAt`/`expiresAt` are not
      modelled). `expiresAt` is nullable in the schema. */
  datatype Invitation = Invitation(
    id: Id,
    inviterId: Id,
    code: string,
    usedById: Option<Id>,
    usedAt: Option<int>,
    expiresAt: Option<int>)

  ghost predicate Keyed(rows: map<Id, Invitation>) {
    forall id :: id in rows ==> rows[id].id == id
  }

  /** The unique constraint on `code`. */
  ghost predicate CodesUnique(rows: map<Id, Invitation>) {
    forall i, j :: i in rows && j in rows && rows[i].code == rows[j].code ==> i == j
  }

  predicate CodeTaken(rows: map<Id, Invitation>, code: string) {
    exists id :: id in rows && rows[id].code == code
  }

  /** The row carrying `code`. */
  ghost function WithCode(rows: map<Id, Invitation>, code: string): (inv: Invitation)
    requires Keyed(rows) && CodeTaken(rows, code)
    ensures inv.id in rows && rows[inv.id] == inv && inv.code == code
  {
    var id :| id in rows && rows[id].code == code; rows[id]
  }

  /** What the store throws on `createInvitation`, if anything: an injected
      failure (connection loss, a lost race), else the unique constraint on the
      code. */
  function InsertFailure(rows: map<Id, Invitation>, code: string, fault: Option<Thrown>): (e: Option<Thrown>)
    ensures fault.None? ==> (e.Some? <==> CodeTaken(rows, code)) && (e.Some? ==> e.value == UniqueViolation)
    ensures fault.Some? ==> e == fault
  {
    if fault.Some? then fault
    else if CodeTaken(rows, code) then Some(UniqueViolation)
    else None
  }

  /** The outcome of the conditional update: the row it returns (none when no
      row matched) and the table afterwards. */
  datatype Consumed = Consumed(result: Option<Invitation>, rows: map<Id, Invitation>)

  /** `updateMany where { id, usedAt: null }` followed by the row-count check:
      it matches only while the row is unused, then writes `usedById` and
      `usedAt` and nothing else. */
  function ConditionalConsume(rows: map<Id, Invitation>, id: Id, usedById: Id, usedAt: int): (c: Consumed)
    ensures c.result.Some? <==> id in rows && rows[id].usedAt.None?
    ensures c.result.None? ==> c.rows == rows
    ensures c.result.Some? ==>
      && c.rows.Keys == rows.Keys
      && c.rows[id] == c.result.value
      && (forall k :: k in rows && k != id ==> c.rows[k] == rows[k])
      && c.result.value.usedById == Some(usedById)
      && c.result.value.usedAt == Some(usedAt)
      && c.result.value.id == rows[id].id
      && c.result.value.inviterId == rows[id].inviterId
      && c.result.value.code == rows[id].code
      && c.result.value.expiresAt == rows[id].expiresAt
  {
    if id in rows && rows[id].usedAt.None? then
      var row := rows[id].(usedById := Some(usedById), usedAt := Some(usedAt));
      Consumed(Some(row), rows[id := row])
    else
      Consumed(None, rows)
  }

  /** Exactly-once redemption: after any conditional update of `id`, a second
      one on the same id returns null, whoever asks and whenever. */
  lemma SecondConsumeFails(rows: map<Id, Invitation>, id: Id, first: Id, firstAt: int, second: Id, secondAt: int)
    ensures ConditionalConsume(ConditionalConsume(rows, id, first, firstAt).rows, id, second, secondAt).result.None?
  {
  }

  /** The conditional update keeps the code constraint. */
  lemma {:induction false} ConsumeKeepsInvariants(rows: map<Id, Invitation>, id: Id, usedById: Id, usedAt: int)
    requires Keyed(rows) && CodesUnique(rows)
    ensures Keyed(ConditionalConsume(rows, id, usedById, usedAt).rows)
    ensures CodesUnique(ConditionalConsume(rows, id, usedById, usedAt).rows)
  {
    var after := ConditionalConsume(rows, id, usedById, usedAt).rows;
    forall i, j | i in after && j in after && after[i].code == after[j].code
      ensures i == j
    {
      assert after[i].code == rows[i].code && after[j].code == rows[j].code;
    }
  }

  class InvitationRepository {
    var rows: map<Id, Invitation>
    var nextId: Id

    ghost predicate Valid()
      reads this
    {
      Keyed(rows) && CodesUnique(rows) && forall id :: id in rows ==> id < nextId
    }

    constructor ()
      ensures Valid() && rows == map[]
    {
      rows := map[];
      nextId := 0;
    }

    /** `createInvitation`: one unused row with the given inviter, code and expiry. */
    method CreateInvitation(inviterId: Id, code: string, expiresAt: int, fault: Option<Thrown>)
      returns (r: Result<Invitation>)
      requires Valid()
      modifies this
      ensures Valid()
      ensures InsertFailure(old(rows), code, fault).Some? ==>
        r == Err(Rethrown(InsertFailure(old(rows), code, fault).value)) && rows == old(rows)
      ensures InsertFailure(old(rows), code, fault).None? ==>
        && r.Ok?
        && r.value == Invitation(r.value.id, inviterId, code, None, None, Some(expiresAt))
        && r.value.id !in old(rows)
        && rows == old(rows)[r.value.id := r.value]
    {
      var failure := InsertFailure(rows, code, fault);
      if failure.Some? {
        return Err(Rethrown(failure.value));
      }
      var row := Invitation(nextId, inviterId, code, None, None, Some(expiresAt));
      ghost var before := rows;
      assert forall k :: k in before ==> before[k].code != code;
      rows := rows[nextId := row];
      forall i, j | i in rows && j in rows && rows[i].code == rows[j].code
        ensures i == j
      {
        assert i != nextId ==> rows[i] == before[i];
        assert j != nextId ==> rows[j] == before[j];
      }
      nextId := nextId + 1;
      r := Ok(row);
    }

    /** `findInvitationByCode`: the row with that code, or none. */
    method FindInvitationByCode(code: string) returns (r: Option<Invitation>)
      requires Valid()
      ensures r.Some? <==> CodeTaken(rows, code)
      ensures r.Some? ==> r.value == WithCode(rows, code)
    {
      if id :| id in rows && rows[id].code == code {
        r := Some(rows[id]);
        assert rows[WithCode(rows, code).id].code == rows[id].code;
      } else {
        r := None;
      }
    }

    /** `updateInvitationUsed`: an unconditional write of `usedById` and `usedAt`
        (the services do not call it). */
    method UpdateInvitationUsed(id: Id, usedById: Id, usedAt: int) returns (r: Result<Invitation>)
      requires Valid()
      modifies this
      ensures Valid()
      ensures id !in old(rows) ==> r == Err(Rethrown(RecordNotFound)) && rows == old(rows)
      ensures id in old(rows) ==>
        && r == Ok(old(rows)[id].(usedById := Some(usedById), usedAt := Some(usedAt)))
        && rows == old(rows)[id := r.value]
    {
      if id !in rows {
        return Err(Rethrown(RecordNotFound));
      }
      var row := rows[id].(usedById := Some(usedById), usedAt := Some(usedAt));
      ghost var before := rows;
      rows := rows[id := row];
      forall i, j | i in rows && j in rows && rows[i].code == rows[j].code
        ensures i == j
      {
        assert rows[i].code == before[i].code && rows[j].code == before[j].code;
      }
      r := Ok(row);
    }

    /** `consumeInvitationIfAvailable`: the conditional update, in one atomic step. */
    method ConsumeInvitationIfAvailable(id: Id, usedById: Id, usedAt: int) returns (r: Option<Invitation>)
      requires Valid()
      modifies this
      ensures Valid()
      ensures r == ConditionalConsume(old(rows), id, usedById, usedAt).result
      ensures rows == ConditionalConsume(old(rows), id, usedById, usedAt).rows
    {
      ConsumeKeepsInvariants(rows, id, usedById, usedAt);
      var step := ConditionalConsume(rows, id, usedById, usedAt);
      rows := step.rows;
      r := step.result;
    }
  }
}
