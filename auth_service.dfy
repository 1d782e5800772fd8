/** Refresh-token sessions: issuing a token pair, rotating the refresh token,
    and logging out. */
module AuthService {
  import opened Common
  import opened UserRepo
  import UserService

  const InvalidRefresh := "Invalid or expired refresh token"
  const UserNotFound := "User not found"

  /** The `expiresIn` options given to the signer. */
  const AccessLifetime := "1h"
  const RefreshLifetime := "7d"

  /** A stored refresh token. */
  datatype RefreshToken = RefreshToken(token: string, userId: Id, expiresAt: int)

  /** The refresh-token table, keyed by the unique token string. */
  class TokenStore {
    var tokens: map<string, RefreshToken>

    ghost predicate Valid()
      reads this
    {
      forall t :: t in tokens ==> tokens[t].token == t
    }

    constructor ()
      ensures Valid() && tokens == map[]
    {
      tokens := map[];
    }

    /** `create`: a new row, refused by the unique constraint on `token`. */
    method Create(token: string, userId: Id, expiresAt: int) returns (r: Result<RefreshToken>)
      requires Valid()
      modifies this
      ensures Valid()
      ensures token in old(tokens) ==> r == Err(Rethrown(UniqueViolation)) && tokens == old(tokens)
      ensures token !in old(tokens) ==>
        r == Ok(RefreshToken(token, userId, expiresAt)) && tokens == old(tokens)[token := r.value]
    {
      if token in tokens {
        return Err(Rethrown(UniqueViolation));
      }
      r := Ok(RefreshToken(token, userId, expiresAt));
      tokens := tokens[token := r.value];
    }

    /** `findUnique`: the row for that token, or none. */
    function FindUnique(token: string): (r: Option<RefreshToken>)
      reads this
      requires Valid()
      ensures r.Some? <==> token in tokens
      ensures r.Some? ==> r.value.token == token && r.value in tokens.Values
    {
      if token in tokens then Some(tokens[token]) else None
    }

    /** `delete`: removes that token's row; a missing row is an error. */
    method Delete(token: string) returns (r: Result<RefreshToken>)
      requires Valid()
      modifies this
      ensures Valid()
      ensures token !in old(tokens) ==> r == Err(Rethrown(RecordNotFound)) && tokens == old(tokens)
      ensures token in old(tokens) ==> r == Ok(old(tokens)[token]) && tokens == old(tokens) - {token}
    {
      if token !in tokens {
        return Err(Rethrown(RecordNotFound));
      }
      r := Ok(tokens[token]);
      tokens := tokens - {token};
    }

    /** `deleteByUserId`: removes every token of that user and reports how many. */
    method DeleteByUserId(userId: Id) returns (count: nat)
      requires Valid()
      modifies this
      ensures Valid()
      ensures forall t :: t in tokens <==> t in old(tokens) && old(tokens)[t].userId != userId
      ensures forall t :: t in tokens ==> tokens[t] == old(tokens)[t]
      ensures count == |old(tokens).Keys - tokens.Keys|
    {
      var kept := map t | t in tokens && tokens[t].userId != userId :: tokens[t];
      count := |tokens.Keys - kept.Keys|;
      tokens := kept;
    }
  }

  /** What a token is signed over: the subject, the email for access tokens,
      the issue time in whole seconds, and the lifetime option. */
  datatype Claims =
    | AccessClaims(sub: Id, email: Option<string>, iat: int, expiresIn: string)
    | RefreshClaims(sub: Id, iat: int, expiresIn: string)

  /** The `iat` a signer stamps at `now` (milliseconds): whole seconds, rounded down. */
  function IssuedAt(now: int): (s: int)
    ensures s * 1000 <= now < s * 1000 + 1000
  {
    now / 1000
  }

  /** The pair `issueTokens` returns. */
  datatype Tokens = Tokens(accessToken: string, refreshToken: string, user: User)

  function AccessTokenOf(user: User, now: int, sign: Claims -> string): string {
    sign(AccessClaims(user.id, user.email, IssuedAt(now), AccessLifetime))
  }

  function RefreshTokenOf(userId: Id, now: int, sign: Claims -> string): string {
    sign(RefreshClaims(userId, IssuedAt(now), RefreshLifetime))
  }

  /** The signer is a function of its claims: two issues for one user within
      the same second produce the same refresh token, so the second insert
      meets the unique constraint. */
  lemma SameSecondSameRefreshToken(userId: Id, now1: int, now2: int, sign: Claims -> string)
    requires now1 / 1000 == now2 / 1000
    ensures RefreshTokenOf(userId, now1, sign) == RefreshTokenOf(userId, now2, sign)
  {
  }

  /** `issueTokens`: signs an access and a refresh token and stores the refresh
      token, expiring seven days after `now`. */
  method IssueTokens(store: TokenStore, user: User, now: int, sign: Claims -> string) returns (r: Result<Tokens>)
    requires store.Valid()
    modifies store
    ensures store.Valid()
    ensures RefreshTokenOf(user.id, now, sign) in old(store.tokens) ==>
      r == Err(Rethrown(UniqueViolation)) && store.tokens == old(store.tokens)
    ensures RefreshTokenOf(user.id, now, sign) !in old(store.tokens) ==>
      && r == Ok(Tokens(AccessTokenOf(user, now, sign), RefreshTokenOf(user.id, now, sign), user))
      && store.tokens == old(store.tokens)[r.value.refreshToken := RefreshToken(r.value.refreshToken, user.id, now + SevenDaysMs)]
  {
    var accessToken := sign(AccessClaims(user.id, user.email, IssuedAt(now), AccessLifetime));
    var refreshToken := sign(RefreshClaims(user.id, IssuedAt(now), RefreshLifetime));
    var stored := store.Create(refreshToken, user.id, now + SevenDaysMs);
    if stored.Err? {
      return Err(stored.failure);
    }
    r := Ok(Tokens(accessToken, refreshToken, user));
  }

  /** A stored token is expired only strictly after its expiry instant. */
  predicate IsExpired(saved: RefreshToken, now: int) {
    saved.expiresAt < now
  }

  lemma ExpiryBoundary(saved: RefreshToken)
    ensures !IsExpired(saved, saved.expiresAt)
    ensures IsExpired(saved, saved.expiresAt + 1)
  {
  }

  /** `refresh`: an unknown token fails and deletes nothing; an expired one is
      deleted, then fails; a valid one whose user is gone fails and is kept;
      otherwise it is deleted and a new pair is issued. */
  method Refresh(store: TokenStore, users: UserRepository, token: string, now: int, sign: Claims -> string)
    returns (r: Result<Tokens>)
    requires store.Valid() && users.Valid()
    modifies store
    ensures store.Valid()
    ensures token !in old(store.tokens) ==>
      r == Err(PlainError(InvalidRefresh)) && store.tokens == old(store.tokens)
    ensures token in old(store.tokens) && IsExpired(old(store.tokens)[token], now) ==>
      r == Err(PlainError(InvalidRefresh)) && store.tokens == old(store.tokens) - {token}
    ensures (&& token in old(store.tokens) && !IsExpired(old(store.tokens)[token], now)
             && old(store.tokens)[token].userId !in users.rows)
      ==> r == Err(PlainError(UserNotFound)) && store.tokens == old(store.tokens)
    ensures (&& token in old(store.tokens) && !IsExpired(old(store.tokens)[token], now)
             && old(store.tokens)[token].userId in users.rows)
      ==> var user := users.rows[old(store.tokens)[token].userId];
          var next := RefreshTokenOf(user.id, now, sign);
          var rest := old(store.tokens) - {token};
          && (next in rest ==> r == Err(Rethrown(UniqueViolation)) && store.tokens == rest)
          && (next !in rest ==>
                && r == Ok(Tokens(AccessTokenOf(user, now, sign), next, user))
                && store.tokens == rest[next := RefreshToken(next, user.id, now + SevenDaysMs)])
    ensures r.Ok? ==> (token in store.tokens <==> r.value.refreshToken == token)
  {
    var savedToken := store.FindUnique(token);
    if savedToken.None? || IsExpired(savedToken.value, now) {
      if savedToken.Some? {
        var deleted := store.Delete(token);
      }
      return Err(PlainError(InvalidRefresh));
    }
    var user := UserService.GetUserById(users, savedToken.value.userId);
    if user.None? {
      return Err(PlainError(UserNotFound));
    }
    var deleted := store.Delete(token);
    r := IssueTokens(store, user.value, now, sign);
  }

  /** `refresh` as written, within the second its token was issued: the re-signed
      token is the one just deleted, so the presented token is stored again and
      can be presented once more. */
  method SameSecondRefreshRevives(users: UserRepository, user: User, now: int, sign: Claims -> string)
    returns (store: TokenStore, first: Tokens, second: Tokens)
    requires users.Valid() && user.id in users.rows && users.rows[user.id] == user
    ensures second.refreshToken == first.refreshToken
    ensures first.refreshToken in store.tokens
  {
    store := new TokenStore();
    var issued := IssueTokens(store, user, now, sign);
    first := issued.value;
    var refreshed := Refresh(store, users, first.refreshToken, now, sign);
    second := refreshed.value;
  }

  /** `refresh` with its last two steps swapped: the new pair is issued before
      the presented token is deleted. A re-signed token equal to the presented
      one then meets the unique constraint, so a successful refresh never hands
      back, or leaves valid, the token it consumed. */
  method RefreshIssueFirst(store: TokenStore, users: UserRepository, token: string, now: int, sign: Claims -> string)
    returns (r: Result<Tokens>)
    requires store.Valid() && users.Valid()
    modifies store
    ensures store.Valid()
    ensures token !in old(store.tokens) ==>
      r == Err(PlainError(InvalidRefresh)) && store.tokens == old(store.tokens)
    ensures token in old(store.tokens) && IsExpired(old(store.tokens)[token], now) ==>
      r == Err(PlainError(InvalidRefresh)) && store.tokens == old(store.tokens) - {token}
    ensures (&& token in old(store.tokens) && !IsExpired(old(store.tokens)[token], now)
             && old(store.tokens)[token].userId !in users.rows)
      ==> r == Err(PlainError(UserNotFound)) && store.tokens == old(store.tokens)
    ensures (&& token in old(store.tokens) && !IsExpired(old(store.tokens)[token], now)
             && old(store.tokens)[token].userId in users.rows)
      ==> var user := users.rows[old(store.tokens)[token].userId];
          var next := RefreshTokenOf(user.id, now, sign);
          && (next in old(store.tokens) ==> r == Err(Rethrown(UniqueViolation)) && store.tokens == old(store.tokens))
          && (next !in old(store.tokens) ==>
                && r == Ok(Tokens(AccessTokenOf(user, now, sign), next, user))
                && store.tokens == old(store.tokens)[next := RefreshToken(next, user.id, now + SevenDaysMs)] - {token})
    ensures r.Ok? ==> token !in store.tokens && r.value.refreshToken != token && r.value.refreshToken in store.tokens
  {
    var savedToken := store.FindUnique(token);
    if savedToken.None? || IsExpired(savedToken.value, now) {
      if savedToken.Some? {
        var deleted := store.Delete(token);
      }
      return Err(PlainError(InvalidRefresh));
    }
    var user := UserService.GetUserById(users, savedToken.value.userId);
    if user.None? {
      return Err(PlainError(UserNotFound));
    }
    r := IssueTokens(store, user.value, now, sign);
    if r.Err? {
      return;
    }
    var deleted := store.Delete(token);
  }

  /** `logout`: deletes the token if it is stored and never fails. */
  method Logout(store: TokenStore, token: string)
    requires store.Valid()
    modifies store
    ensures store.Valid()
    ensures store.tokens == old(store.tokens) - {token}
  {
    var deleted := store.Delete(token);
  }

  /** The login body as it reaches `login`. The route schema requires `provider`
      and `idToken` but does not forbid other properties, so a client may add any
      of the ones find-or-create reads; `None` is a property the client left out. */
  datatype LoginInput = LoginInput(
    provider: Provider,
    idToken: string,
    providerId: Option<string>,
    email: Option<string>,
    phoneNumber: Option<string>,
    name: Option<string>,
    profileImage: Option<string>)

  /** The body read as find-or-create's input; `idToken` plays no part. */
  function Forwarded(data: LoginInput): (p: UserService.ProviderProfile)
    ensures p.provider == data.provider && p.providerId == data.providerId
  {
    UserService.ProviderProfile(data.provider, data.providerId, data.email, data.phoneNumber, data.name, data.profileImage)
  }

  /** find-or-create followed by `issueTokens`. */
  method LoginWith(users: UserRepository, store: TokenStore, profile: UserService.ProviderProfile, now: int,
                   sign: Claims -> string)
    returns (r: Result<Tokens>)
    requires users.Valid() && store.Valid()
    modifies users, store
    ensures users.Valid() && store.Valid()
    ensures profile.providerId.None? ==>
      && r == Err(Rethrown(MissingProviderId))
      && users.rows == old(users.rows) && store.tokens == old(store.tokens)
    ensures profile.providerId.Some? ==>
      forall id :: (&& id in old(users.rows) && HasIdentity(old(users.rows)[id], profile.provider, profile.providerId.value)
                    && RefreshTokenOf(id, now, sign) !in old(store.tokens))
        ==> r.Ok? && r.value.user == old(users.rows)[id] && users.rows == old(users.rows)
    ensures r.Ok? ==>
      && profile.providerId.Some?
      && r.value.user.id in users.rows && users.rows[r.value.user.id] == r.value.user
      && HasIdentity(r.value.user, profile.provider, profile.providerId.value)
      && r.value.refreshToken == RefreshTokenOf(r.value.user.id, now, sign)
      && store.tokens == old(store.tokens)[r.value.refreshToken := RefreshToken(r.value.refreshToken, r.value.user.id, now + SevenDaysMs)]
    ensures (&& profile.providerId.Some? && !IdentityTaken(old(users.rows), profile.provider, profile.providerId.value)
             && !UserService.Truthy(profile.email) && !UserService.Truthy(profile.phoneNumber))
      ==> r == Err(PlainError(UserService.ContactRequired)) && users.rows == old(users.rows) && store.tokens == old(store.tokens)
    ensures (&& profile.providerId.Some? && !IdentityTaken(old(users.rows), profile.provider, profile.providerId.value)
             && (UserService.Truthy(profile.email) || UserService.Truthy(profile.phoneNumber))
             && EmailTaken(old(users.rows), profile.email))
      ==> r == Err(Rethrown(UniqueViolation)) && users.rows == old(users.rows) && store.tokens == old(store.tokens)
    ensures (&& profile.providerId.Some? && !IdentityTaken(old(users.rows), profile.provider, profile.providerId.value)
             && (UserService.Truthy(profile.email) || UserService.Truthy(profile.phoneNumber))
             && !EmailTaken(old(users.rows), profile.email))
      ==> exists id :: Created(old(users.rows), users.rows, id, profile) && Issued(old(store.tokens), store.tokens, r, id, now, sign)
  {
    var found := UserService.FindOrCreateByProvider(users, profile);
    if found.Err? {
      return Err(found.failure);
    }
    r := IssueTokens(store, found.value, now, sign);
    if found.value.id !in old(users.rows) {
      assert Created(old(users.rows), users.rows, found.value.id, profile);
      assert Issued(old(store.tokens), store.tokens, r, found.value.id, now, sign);
    }
  }

  /** The user a find-or-create inserts for a new identity: the six given fields and no handle. */
  function NewUser(id: Id, profile: UserService.ProviderProfile): User
    requires profile.providerId.Some?
  {
    User(id, profile.provider, profile.providerId.value, profile.email, profile.phoneNumber,
         profile.name, profile.profileImage, None, None)
  }

  /** `after` is `before` with one new row, under the fresh `id`, for `profile`. */
  predicate Created(before: map<Id, User>, after: map<Id, User>, id: Id, profile: UserService.ProviderProfile)
    requires profile.providerId.Some?
  {
    id !in before && after == before[id := NewUser(id, profile)]
  }

  /** `issueTokens` for user `id`: the pair and exactly one stored row expiring in seven days,
      or P2002 with no write when that refresh token is already stored. */
  predicate Issued(before: map<string, RefreshToken>, after: map<string, RefreshToken>, r: Result<Tokens>,
                   id: Id, now: int, sign: Claims -> string)
  {
    if RefreshTokenOf(id, now, sign) in before then
      r == Err(Rethrown(UniqueViolation)) && after == before
    else
      && r.Ok? && r.value.user.id == id && r.value.refreshToken == RefreshTokenOf(id, now, sign)
      && after == before[r.value.refreshToken := RefreshToken(r.value.refreshToken, id, now + SevenDaysMs)]
  }

  /** `login` as written: the body itself is handed to find-or-create and the id
      token is never checked. A body with only the two schema properties has no
      provider id, so the store refuses the lookup; a body that carries a
      provider id logs in as whoever holds that identity, or creates it. */
  method Login(users: UserRepository, store: TokenStore, data: LoginInput, now: int, sign: Claims -> string)
    returns (r: Result<Tokens>)
    requires users.Valid() && store.Valid()
    modifies users, store
    ensures users.Valid() && store.Valid()
    ensures data.providerId.None? ==>
      && r == Err(Rethrown(MissingProviderId))
      && users.rows == old(users.rows) && store.tokens == old(store.tokens)
    ensures data.providerId.Some? ==>
      forall id :: (&& id in old(users.rows) && HasIdentity(old(users.rows)[id], data.provider, data.providerId.value)
                    && RefreshTokenOf(id, now, sign) !in old(store.tokens))
        ==> r.Ok? && r.value.user == old(users.rows)[id] && users.rows == old(users.rows)
    ensures (&& data.providerId.Some? && !IdentityTaken(old(users.rows), data.provider, data.providerId.value)
             && (UserService.Truthy(data.email) || UserService.Truthy(data.phoneNumber))
             && !EmailTaken(old(users.rows), data.email))
      ==> exists id :: Created(old(users.rows), users.rows, id, Forwarded(data)) && Issued(old(store.tokens), store.tokens, r, id, now, sign)
    ensures r.Ok? ==>
      && data.providerId.Some? && HasIdentity(r.value.user, data.provider, data.providerId.value)
      && r.value.user.id in users.rows && users.rows[r.value.user.id] == r.value.user
      && store.tokens == old(store.tokens)[r.value.refreshToken := RefreshToken(r.value.refreshToken, r.value.user.id, now + SevenDaysMs)]
  {
    r := LoginWith(users, store, Forwarded(data), now, sign);
  }

  /** What a provider's token verifier yields: the subject and optional profile claims. */
  datatype VerifiedIdentity = VerifiedIdentity(
    providerId: string,
    email: Option<string>,
    name: Option<string>,
    profileImage: Option<string>)

  /** `login` as intended: find-or-create by the verified identity, then issue.
      Verification itself stays outside the model; its result is the input. */
  method LoginWithIdentity(users: UserRepository, store: TokenStore, provider: Provider, identity: VerifiedIdentity,
                           now: int, sign: Claims -> string)
    returns (r: Result<Tokens>)
    requires users.Valid() && store.Valid()
    modifies users, store
    ensures users.Valid() && store.Valid()
    ensures forall id ::
              (&& id in old(users.rows) && HasIdentity(old(users.rows)[id], provider, identity.providerId)
               && RefreshTokenOf(id, now, sign) !in old(store.tokens))
              ==> r.Ok? && r.value.user == old(users.rows)[id]
    ensures r.Ok? ==>
      && r.value.user.id in users.rows && users.rows[r.value.user.id] == r.value.user
      && HasIdentity(r.value.user, provider, identity.providerId)
      && r.value.refreshToken == RefreshTokenOf(r.value.user.id, now, sign)
      && store.tokens == old(store.tokens)[r.value.refreshToken := RefreshToken(r.value.refreshToken, r.value.user.id, now + SevenDaysMs)]
    ensures !IdentityTaken(old(users.rows), provider, identity.providerId) && !UserService.Truthy(identity.email) ==>
      r == Err(PlainError(UserService.ContactRequired)) && users.rows == old(users.rows) && store.tokens == old(store.tokens)
    ensures (&& !IdentityTaken(old(users.rows), provider, identity.providerId) && UserService.Truthy(identity.email)
             && EmailTaken(old(users.rows), identity.email))
      ==> r == Err(Rethrown(UniqueViolation)) && users.rows == old(users.rows) && store.tokens == old(store.tokens)
    ensures (&& !IdentityTaken(old(users.rows), provider, identity.providerId) && UserService.Truthy(identity.email)
             && !EmailTaken(old(users.rows), identity.email))
      ==> exists id :: && Created(old(users.rows), users.rows, id, IdentityProfile(provider, identity))
                       && Issued(old(store.tokens), store.tokens, r, id, now, sign)
  {
    r := LoginWith(users, store, IdentityProfile(provider, identity), now, sign);
  }

  /** The find-or-create input a verified identity gives: no phone number. */
  function IdentityProfile(provider: Provider, identity: VerifiedIdentity): (p: UserService.ProviderProfile)
    ensures p.providerId.Some?
  {
    UserService.ProviderProfile(provider, Some(identity.providerId), identity.email, None,
                                identity.name, identity.profileImage)
  }
}
