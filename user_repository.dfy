/** The user table and the unique constraints the database keeps on it. */
module UserRepo {
  import opened Common

  datatype Provider = Google | Apple

  /** A user row (the notification and consent flags and the timestamps are not modelled). */
  datatype User = User(
    id: Id,
    provider: Provider,
    providerId: string,
    email: Option<string>,
    phoneNumber: Option<string>,
    name: Option<string>,
    profileImage: Option<string>,
    handle: Option<string>,
    handleNormalized: Option<string>)

  /** The columns an update writes; `None` leaves a column as it is. */
  datatype UserPatch = UserPatch(
    name: Option<string>,
    phoneNumber: Option<string>,
    handle: Option<string>,
    handleNormalized: Option<string>)

  const NoChange: UserPatch := UserPatch(None, None, None, None)

  /** `u` with every column the patch carries overwritten. */
  function Patched(u: User, p: UserPatch): (v: User)
    ensures v.id == u.id && v.provider == u.provider && v.providerId == u.providerId && v.email == u.email
    ensures v.profileImage == u.profileImage
    ensures v.name == (if p.name.Some? then p.name else u.name)
    ensures v.phoneNumber == (if p.phoneNumber.Some? then p.phoneNumber else u.phoneNumber)
    ensures v.handle == (if p.handle.Some? then p.handle else u.handle)
    ensures v.handleNormalized == (if p.handleNormalized.Some? then p.handleNormalized else u.handleNormalized)
  {
    u.(name := if p.name.Some? then p.name else u.name,
       phoneNumber := if p.phoneNumber.Some? then p.phoneNumber else u.phoneNumber,
       handle := if p.handle.Some? then p.handle else u.handle,
       handleNormalized := if p.handleNormalized.Some? then p.handleNormalized else u.handleNormalized)
  }

  predicate HasIdentity(u: User, provider: Provider, providerId: string) {
    u.provider == provider && u.providerId == providerId
  }

  ghost predicate Keyed(rows: map<Id, User>) {
    forall id :: id in rows ==> rows[id].id == id
  }

  /** The database's unique constraints: `(provider, providerId)`, `email` when
      present and `handleNormalized` when present each name at most one user. */
  ghost predicate Unique(rows: map<Id, User>) {
    IdentityUnique(rows) && EmailUnique(rows) && HandleUnique(rows)
  }

  ghost predicate IdentityUnique(rows: map<Id, User>) {
    forall i, j :: i in rows && j in rows && HasIdentity(rows[i], rows[j].provider, rows[j].providerId) ==> i == j
  }

  ghost predicate EmailUnique(rows: map<Id, User>) {
    forall i, j :: i in rows && j in rows && rows[i].email.Some? && rows[i].email == rows[j].email ==> i == j
  }

  ghost predicate HandleUnique(rows: map<Id, User>) {
    forall i, j ::
      i in rows && j in rows && rows[i].handleNormalized.Some? && rows[i].handleNormalized == rows[j].handleNormalized
      ==> i == j
  }

  /** What the store throws when a compound unique key is queried with a missing part. */
  const MissingProviderId: Thrown := ObjectValue(Absent, "Argument `providerId` is missing.")

  /** The unique keys `findUnique` accepts. The compound identity key can
      arrive with its `providerId` part missing. */
  datatype UserKey =
    | ById(id: Id)
    | ByEmail(email: string)
    | ByIdentity(provider: Provider, providerId: Option<string>)
    | ByHandle(handleNormalized: string)

  /** Every part of the key is present. */
  predicate Complete(key: UserKey) {
    !(key.ByIdentity? && key.providerId.None?)
  }

  /** User `u` is the one `key` names. */
  predicate Matches(u: User, key: UserKey) {
    match key
    case ById(id) => u.id == id
    case ByEmail(email) => u.email == Some(email)
    case ByIdentity(provider, providerId) => providerId.Some? && HasIdentity(u, provider, providerId.value)
    case ByHandle(h) => u.handleNormalized == Some(h)
  }

  /** Under the unique constraints a key names at most one user, so the row
      `findUnique` returns does not depend on the store's scan order. */
  lemma {:induction false} KeyNamesOneUser(rows: map<Id, User>, key: UserKey, i: Id, j: Id)
    requires Keyed(rows) && Unique(rows)
    requires i in rows && j in rows && Matches(rows[i], key) && Matches(rows[j], key)
    ensures i == j
  {
    match key
    case ById(_) =>
    case ByEmail(_) =>
      assert rows[i].email.Some? && rows[i].email == rows[j].email;
    case ByIdentity(_, _) =>
      assert HasIdentity(rows[i], rows[j].provider, rows[j].providerId);
    case ByHandle(_) =>
      assert rows[i].handleNormalized.Some? && rows[i].handleNormalized == rows[j].handleNormalized;
  }

  /** An insert of this identity and email would break a unique constraint. */
  predicate Conflicts(rows: map<Id, User>, provider: Provider, providerId: string, email: Option<string>) {
    IdentityTaken(rows, provider, providerId) || EmailTaken(rows, email)
  }

  /** Some row already carries the identity `(provider, providerId)`. */
  predicate IdentityTaken(rows: map<Id, User>, provider: Provider, providerId: string) {
    exists id :: id in rows && HasIdentity(rows[id], provider, providerId)
  }

  /** The email is present and some row already carries it. */
  predicate EmailTaken(rows: map<Id, User>, email: Option<string>) {
    email.Some? && exists id :: id in rows && rows[id].email == email
  }

  /** A new row whose identity and email are free, and which has no handle,
      keeps every unique constraint. */
  lemma {:induction false} InsertKeepsUnique(rows: map<Id, User>, u: User)
    requires Unique(rows) && u.id !in rows && u.handleNormalized.None?
    requires !Conflicts(rows, u.provider, u.providerId, u.email)
    ensures Unique(rows[u.id := u])
  {
    var after := rows[u.id := u];
    forall i, j | i in after && j in after && HasIdentity(after[i], after[j].provider, after[j].providerId)
      ensures i == j
    {
      if i != u.id && j != u.id {
        assert after[i] == rows[i] && after[j] == rows[j];
      }
    }
    forall i, j | i in after && j in after && after[i].email.Some? && after[i].email == after[j].email
      ensures i == j
    {
      if i != u.id && j != u.id {
        assert after[i] == rows[i] && after[j] == rows[j];
      }
    }
    forall i, j | i in after && j in after && after[i].handleNormalized.Some?
      && after[i].handleNormalized == after[j].handleNormalized
      ensures i == j
    {
      if i != u.id && j != u.id {
        assert after[i] == rows[i] && after[j] == rows[j];
      }
    }
  }

  class UserRepository {
    var rows: map<Id, User>
    var nextId: Id

    ghost predicate Valid()
      reads this
    {
      Keyed(rows) && Unique(rows) && forall id :: id in rows ==> id < nextId
    }

    constructor ()
      ensures Valid() && rows == map[]
    {
      rows := map[];
      nextId := 0;
    }

    /** `findUnique(where)`: the user the key names, if any. A compound
        identity key with its `providerId` missing is refused by the store. */
    method FindUnique(key: UserKey) returns (r: Result<Option<User>>)
      requires Valid()
      ensures !Complete(key) ==> r == Err(Rethrown(MissingProviderId))
      ensures Complete(key) ==> r.Ok?
      ensures r.Ok? ==> (r.value.Some? <==> exists id :: id in rows && Matches(rows[id], key))
      ensures r.Ok? && r.value.Some? ==>
        && r.value.value.id in rows && rows[r.value.value.id] == r.value.value
        && Matches(r.value.value, key)
    {
      if !Complete(key) {
        return Err(Rethrown(MissingProviderId));
      }
      if id :| id in rows && Matches(rows[id], key) {
        r := Ok(Some(rows[id]));
      } else {
        r := Ok(None);
      }
    }

    /** `create`: a fresh row with no handle, unless a unique constraint refuses it. */
    method Create(provider: Provider, providerId: string, email: Option<string>, phoneNumber: Option<string>,
                  name: Option<string>, profileImage: Option<string>)
      returns (r: Result<User>)
      requires Valid()
      modifies this
      ensures Valid()
      ensures r.Err? ==> rows == old(rows)
      ensures r.Err? <==> Conflicts(old(rows), provider, providerId, email)
      ensures r.Err? ==> r == Err(Rethrown(UniqueViolation))
      ensures r.Ok? ==>
        && r.value.id !in old(rows)
        && rows == old(rows)[r.value.id := r.value]
        && r.value == User(r.value.id, provider, providerId, email, phoneNumber, name, profileImage, None, None)
    {
      if Conflicts(rows, provider, providerId, email) {
        return Err(Rethrown(UniqueViolation));
      }
      var user := User(nextId, provider, providerId, email, phoneNumber, name, profileImage, None, None);
      InsertKeepsUnique(rows, user);
      rows := rows[nextId := user];
      nextId := nextId + 1;
      r := Ok(user);
    }

    /** `update(id, data)`: overwrite the columns the patch carries. */
    method Update(id: Id, patch: UserPatch) returns (r: Result<User>)
      requires Valid()
      modifies this
      ensures Valid()
      ensures r.Err? ==> rows == old(rows)
      ensures id !in old(rows) ==> r == Err(Rethrown(RecordNotFound))
      ensures id in old(rows) && patch.handleNormalized.Some?
        && (exists j :: j in old(rows) && j != id && old(rows)[j].handleNormalized == patch.handleNormalized)
        ==> r == Err(Rethrown(UniqueViolation))
      ensures r.Ok? ==> id in old(rows) && r.value == Patched(old(rows)[id], patch) && rows == old(rows)[id := r.value]
      ensures id in old(rows) && (patch.handleNormalized.None?
        || forall j :: j in old(rows) && j != id ==> old(rows)[j].handleNormalized != patch.handleNormalized)
        ==> r.Ok?
    {
      if id !in rows {
        return Err(Rethrown(RecordNotFound));
      }
      if patch.handleNormalized.Some? && exists j :: j in rows && j != id && rows[j].handleNormalized == patch.handleNormalized {
        return Err(Rethrown(UniqueViolation));
      }
      var user := Patched(rows[id], patch);
      rows := rows[id := user];
      r := Ok(user);
    }
  }
}
