/** Users: lookups, find-or-create by provider identity, and profile updates
    that claim a handle. */
module UserService {
  import opened Common
  import opened UserRepo
  import opened Handle

  const ContactRequired := "Email or phoneNumber is required when creating a new user"
  const InvalidHandle := "Invalid handle format"
  const HandleTaken := "Handle already taken"

  /** `getUserById`: the user with that id, or none. */
  method GetUserById(users: UserRepository, id: Id) returns (r: Option<User>)
    requires users.Valid()
    ensures r.Some? <==> id in users.rows
    ensures r.Some? ==> r.value == users.rows[id]
  {
    var found := users.FindUnique(ById(id));
    r := found.value;
  }

  /** `getUserByEmail`: the one user with that email, or none. */
  method GetUserByEmail(users: UserRepository, email: string) returns (r: Option<User>)
    requires users.Valid()
    ensures r.Some? <==> exists id :: id in users.rows && users.rows[id].email == Some(email)
    ensures r.Some? ==> forall id :: id in users.rows && users.rows[id].email == Some(email) ==> users.rows[id] == r.value
  {
    var found := users.FindUnique(ByEmail(email));
    r := found.value;
    if r.Some? {
      forall id | id in users.rows && users.rows[id].email == Some(email)
        ensures users.rows[id] == r.value
      {
        KeyNamesOneUser(users.rows, ByEmail(email), id, r.value.id);
      }
    }
  }

  /** The input of `findOrCreateByProvider`. `providerId` is required by the
      type, but a caller can still leave it out at run time. */
  datatype ProviderProfile = ProviderProfile(
    provider: Provider,
    providerId: Option<string>,
    email: Option<string>,
    phoneNumber: Option<string>,
    name: Option<string>,
    profileImage: Option<string>)

  /** JavaScript truthiness of an optional string: present and non-empty. */
  predicate Truthy(s: Option<string>) {
    s.Some? && s.value != ""
  }

  /** `findOrCreateByProvider`: the existing user for the identity, unchanged;
      else, with an email or a phone number, a new user with exactly the six
      given fields; else an error and no write. */
  method FindOrCreateByProvider(users: UserRepository, data: ProviderProfile) returns (r: Result<User>)
    requires users.Valid()
    modifies users
    ensures users.Valid()
    ensures data.providerId.None? ==> r == Err(Rethrown(MissingProviderId)) && users.rows == old(users.rows)
    ensures data.providerId.Some? ==>
      forall id :: id in old(users.rows) && HasIdentity(old(users.rows)[id], data.provider, data.providerId.value)
        ==> r == Ok(old(users.rows)[id]) && users.rows == old(users.rows)
    ensures r.Ok? ==>
      && data.providerId.Some? && HasIdentity(r.value, data.provider, data.providerId.value)
      && r.value.id in users.rows && users.rows[r.value.id] == r.value
    ensures (&& data.providerId.Some?
             && (forall id :: id in old(users.rows) ==> !HasIdentity(old(users.rows)[id], data.provider, data.providerId.value))
             && !Truthy(data.email) && !Truthy(data.phoneNumber))
      ==> r == Err(PlainError(ContactRequired)) && users.rows == old(users.rows)
    ensures (&& data.providerId.Some?
             && (forall id :: id in old(users.rows) ==> !HasIdentity(old(users.rows)[id], data.provider, data.providerId.value))
             && (Truthy(data.email) || Truthy(data.phoneNumber)))
      ==> if data.email.Some? && exists id :: id in old(users.rows) && old(users.rows)[id].email == data.email
          then r == Err(Rethrown(UniqueViolation)) && users.rows == old(users.rows)
          else && r.Ok?
               && r.value == User(r.value.id, data.provider, data.providerId.value, data.email, data.phoneNumber,
                                  data.name, data.profileImage, None, None)
               && r.value.id !in old(users.rows)
               && users.rows == old(users.rows)[r.value.id := r.value]
  {
    var existing := users.FindUnique(ByIdentity(data.provider, data.providerId));
    if existing.Err? {
      return Err(existing.failure);
    }
    if existing.value.Some? {
      var found := existing.value.value;
      forall id | id in users.rows && HasIdentity(users.rows[id], data.provider, data.providerId.value)
        ensures users.rows[id] == found
      {
        KeyNamesOneUser(users.rows, ByIdentity(data.provider, data.providerId), id, found.id);
      }
      return Ok(found);
    }
    if !Truthy(data.email) && !Truthy(data.phoneNumber) {
      return Err(PlainError(ContactRequired));
    }
    r := users.Create(data.provider, data.providerId.value, data.email, data.phoneNumber, data.name, data.profileImage);
  }

  /** `updateUser`: the update as given (over the columns this model keeps). */
  method UpdateUser(users: UserRepository, id: Id, patch: UserPatch) returns (r: Result<User>)
    requires users.Valid()
    modifies users
    ensures users.Valid()
    ensures id !in old(users.rows) ==> r == Err(Rethrown(RecordNotFound)) && users.rows == old(users.rows)
    ensures id in old(users.rows) && patch.handleNormalized.Some?
      && (exists j :: j in old(users.rows) && j != id && old(users.rows)[j].handleNormalized == patch.handleNormalized)
      ==> r == Err(Rethrown(UniqueViolation)) && users.rows == old(users.rows)
    ensures id in old(users.rows) && (patch.handleNormalized.None?
      || forall j :: j in old(users.rows) && j != id ==> old(users.rows)[j].handleNormalized != patch.handleNormalized)
      ==> r.Ok?
    ensures r.Ok? ==> r.value == Patched(old(users.rows)[id], patch) && users.rows == old(users.rows)[id := r.value]
  {
    r := users.Update(id, patch);
  }

  /** The body of `updateProfile`; `None` is an absent property. */
  datatype ProfileRequest = ProfileRequest(name: Option<string>, phoneNumber: Option<string>, handle: Option<string>)

  /** `updateData`: only the properties present in the request, plus the
      normalised handle beside the handle as typed. */
  function UpdateData(data: ProfileRequest): (p: UserPatch)
    ensures p.name == data.name && p.phoneNumber == data.phoneNumber && p.handle == data.handle
    ensures p.handleNormalized.Some? <==> data.handle.Some?
    ensures data.handle.Some? ==> p.handleNormalized == Some(NormalizeHandle(data.handle.value))
    ensures data.handle.Some? ==> NormalizeHandle(p.handleNormalized.value) == p.handleNormalized.value
  {
    if data.handle.Some? then
      NormalizeIsIdempotent(data.handle.value);
      UserPatch(data.name, data.phoneNumber, data.handle, Some(NormalizeHandle(data.handle.value)))
    else
      UserPatch(data.name, data.phoneNumber, data.handle, None)
  }

  /** An update built from a request leaves every absent property as it was. */
  lemma AbsentMeansUnchanged(u: User, data: ProfileRequest)
    ensures data.name.None? ==> Patched(u, UpdateData(data)).name == u.name
    ensures data.phoneNumber.None? ==> Patched(u, UpdateData(data)).phoneNumber == u.phoneNumber
    ensures data.handle.None? ==>
      Patched(u, UpdateData(data)).handle == u.handle && Patched(u, UpdateData(data)).handleNormalized == u.handleNormalized
    ensures data == ProfileRequest(None, None, None) ==> Patched(u, UpdateData(data)) == u
  {
  }

  /** `updateProfile`: a handle is normalised and must be valid (400) and not
      owned by another user (409); then the present properties are written. */
  method UpdateProfile(users: UserRepository, id: Id, data: ProfileRequest) returns (r: Result<User>)
    requires users.Valid()
    modifies users
    ensures users.Valid()
    ensures r.Err? ==> users.rows == old(users.rows)
    ensures data.handle.Some? && !IsValidHandle(NormalizeHandle(data.handle.value))
      ==> r == Err(HttpError(400, InvalidHandle))
    ensures (&& data.handle.Some? && IsValidHandle(NormalizeHandle(data.handle.value))
             && exists j :: j in old(users.rows) && j != id
                         && old(users.rows)[j].handleNormalized == Some(NormalizeHandle(data.handle.value)))
      ==> r == Err(HttpError(409, HandleTaken))
    ensures (&& (data.handle.Some? ==> IsValidHandle(NormalizeHandle(data.handle.value)))
             && (data.handle.Some? ==> forall j :: j in old(users.rows) && j != id
                                        ==> old(users.rows)[j].handleNormalized != Some(NormalizeHandle(data.handle.value))))
      ==> if id in old(users.rows)
          then r == Ok(Patched(old(users.rows)[id], UpdateData(data))) && users.rows == old(users.rows)[id := r.value]
          else r == Err(Rethrown(RecordNotFound))
  {
    if data.handle.Some? {
      var handleNormalized := NormalizeHandle(data.handle.value);
      if Utf16Length(handleNormalized) < HandleMinLength || Utf16Length(handleNormalized) > HandleMaxLength
         || !MatchesHandlePattern(handleNormalized)
      {
        return Err(HttpError(400, InvalidHandle));
      }
      var existing := users.FindUnique(ByHandle(handleNormalized));
      if existing.value.Some? && existing.value.value.id != id {
        return Err(HttpError(409, HandleTaken));
      }
      if existing.value.Some? {
        forall j | j in users.rows && j != id
          ensures users.rows[j].handleNormalized != Some(handleNormalized)
        {
          if users.rows[j].handleNormalized == Some(handleNormalized) {
            KeyNamesOneUser(users.rows, ByHandle(handleNormalized), j, id);
          }
        }
      }
    }
    r := users.Update(id, UpdateData(data));
  }
}
