/** Issuing invitation codes (random, collision-retrying) and redeeming them
    into an accepted friendship, exactly once. */
module InvitationService {
  import opened Common
  import opened InvitationRepo
  import opened FriendRepo

  /** How many codes `createInvitation` tries before giving up. */
  const MaxAttempts: nat := 3

  const IssueUnavailable := "Unable to issue invitation code. Please try again."
  const InvalidCode := "Invalid invitation code"
  const AlreadyUsed := "Invitation already used"
  const InvitationExpired := "Invitation expired"
  const OwnCode := "You cannot use your own invitation code"
  const AlreadyFriends := "You are already friends"

  // ---------------------------------------------------------------------------
  // The code: four random bytes, hex-encoded, upper-cased
  // ---------------------------------------------------------------------------

  /** Four bytes drawn from the random source. */
  type Draw = s: seq<Byte> | |s| == 4 witness [0, 0, 0, 0]

  predicate IsLowerHexDigit(c: char) {
    '0' <= c <= '9' || 'a' <= c <= 'f'
  }

  predicate IsUpperHexDigit(c: char) {
    '0' <= c <= '9' || 'A' <= c <= 'F'
  }

  /** The digit `Buffer.toString("hex")` writes for a nibble. */
  function HexDigit(n: nat): (c: char)
    requires n < 16
    ensures IsLowerHexDigit(c)
  {
    if n < 10 then ('0' as int + n) as char else ('a' as int + n - 10) as char
  }

  /** `Buffer.toString("hex")`: two lower-case digits per byte, high nibble first. */
  function ToHex(bytes: seq<Byte>): (s: string)
    ensures |s| == 2 * |bytes|
    ensures forall i :: 0 <= i < |s| ==> IsLowerHexDigit(s[i])
  {
    if bytes == [] then "" else [HexDigit(bytes[0] / 16), HexDigit(bytes[0] % 16)] + ToHex(bytes[1..])
  }

  /** `toUpperCase` on the characters a hex string can hold: only `a`..`z` change. */
  function UpperChar(c: char): char {
    if 'a' <= c <= 'z' then (c as int - 32) as char else c
  }

  function UpperCase(s: string): (t: string)
    ensures |t| == |s|
    ensures forall i :: 0 <= i < |s| ==> t[i] == UpperChar(s[i])
    ensures forall i :: 0 <= i < |t| ==> !('a' <= t[i] <= 'z')
    ensures forall i :: 0 <= i < |s| && !('a' <= s[i] <= 'z') ==> t[i] == s[i]
  {
    seq(|s|, i requires 0 <= i < |s| => UpperChar(s[i]))
  }

  /** `createInvitationCode`: eight upper-case hexadecimal digits. */
  function CreateInvitationCode(draw: Draw): (code: string)
    ensures |code| == 8
    ensures forall i :: 0 <= i < |code| ==> IsUpperHexDigit(code[i])
  {
    UpperCase(ToHex(draw))
  }

  /** The value of an upper-case hexadecimal digit. */
  function HexValue(c: char): (n: nat)
    ensures n < 16
  {
    if '0' <= c <= '9' then c as int - '0' as int
    else if 'A' <= c <= 'F' then c as int - 'A' as int + 10
    else 0
  }

  /** Reads a code back into the bytes it spells, two digits per byte. */
  function DecodeCode(code: string): (bytes: seq<Byte>)
    requires |code| % 2 == 0
    ensures |bytes| == |code| / 2
  {
    seq(|code| / 2, k requires 0 <= k < |code| / 2 => 16 * HexValue(code[2 * k]) + HexValue(code[2 * k + 1]))
  }

  lemma DigitRoundTrip(n: nat)
    requires n < 16
    ensures HexValue(UpperChar(HexDigit(n))) == n
  {
  }

  /** Where the digits of byte `k` sit in the hex string. */
  lemma {:induction false} ToHexAt(bytes: seq<Byte>, k: nat)
    requires k < |bytes|
    ensures ToHex(bytes)[2 * k] == HexDigit(bytes[k] / 16)
    ensures ToHex(bytes)[2 * k + 1] == HexDigit(bytes[k] % 16)
    decreases k
  {
    var head := [HexDigit(bytes[0] / 16), HexDigit(bytes[0] % 16)];
    assert ToHex(bytes) == head + ToHex(bytes[1..]);
    if k > 0 {
      ToHexAt(bytes[1..], k - 1);
      assert ToHex(bytes)[2 * k] == ToHex(bytes[1..])[2 * (k - 1)];
      assert ToHex(bytes)[2 * k + 1] == ToHex(bytes[1..])[2 * (k - 1) + 1];
    }
  }

  /** The upper-cased hex string determines the bytes it was made from. */
  lemma {:induction false} CodeRoundTrip(bytes: seq<Byte>)
    ensures DecodeCode(UpperCase(ToHex(bytes))) == bytes
  {
    var code := UpperCase(ToHex(bytes));
    var back := DecodeCode(code);
    forall k | 0 <= k < |bytes|
      ensures back[k] == bytes[k]
    {
      ToHexAt(bytes, k);
      DigitRoundTrip(bytes[k] / 16);
      DigitRoundTrip(bytes[k] % 16);
    }
  }

  /** Distinct draws give distinct codes: a collision needs a repeated draw. */
  lemma {:induction false} CodeIsInjective(a: Draw, b: Draw)
    requires CreateInvitationCode(a) == CreateInvitationCode(b)
    ensures a == b
  {
    CodeRoundTrip(a);
    CodeRoundTrip(b);
  }

  // ---------------------------------------------------------------------------
  // createInvitation
  // ---------------------------------------------------------------------------

  /** One attempt's inputs: the random draw, and what the store throws apart
      from the code's own unique constraint (a fault, if any). */
  datatype Try = Try(draw: Draw, fault: Option<Thrown>)

  /** What the insert of attempt `t` throws, if anything. */
  function TryFailure(rows: map<Id, Invitation>, t: Try): Option<Thrown> {
    InsertFailure(rows, CreateInvitationCode(t.draw), t.fault)
  }

  /** Attempt `t` fails with an error the loop retries. */
  predicate Collides(rows: map<Id, Invitation>, t: Try) {
    var f := TryFailure(rows, t);
    f.Some? && IsUniqueConstraintError(f.value)
  }

  /** How a run of attempts ends: an insert at attempt `attempt`, all attempts
      colliding, or an error that is not a collision at attempt `attempt`. */
  datatype Issue = Issued(attempt: nat) | Exhausted | Raised(attempt: nat, error: Thrown)

  /** The retry loop from attempt `attempt` on. Failed inserts leave the table
      alone, so every attempt sees the same rows. */
  function IssueFrom(rows: map<Id, Invitation>, tries: seq<Try>, attempt: nat): (o: Issue)
    requires attempt <= |tries|
    ensures o.Issued? ==> attempt <= o.attempt < |tries| && TryFailure(rows, tries[o.attempt]).None?
    ensures o.Raised? ==>
      && attempt <= o.attempt < |tries|
      && TryFailure(rows, tries[o.attempt]) == Some(o.error)
      && !IsUniqueConstraintError(o.error)
    ensures (o.Issued? || o.Raised?) ==> forall j :: attempt <= j < o.attempt ==> Collides(rows, tries[j])
    ensures o.Exhausted? <==> forall j :: attempt <= j < |tries| ==> Collides(rows, tries[j])
    decreases |tries| - attempt
  {
    if attempt == |tries| then Exhausted
    else
      match TryFailure(rows, tries[attempt])
      case None => Issued(attempt)
      case Some(e) => if IsUniqueConstraintError(e) then IssueFrom(rows, tries, attempt + 1) else Raised(attempt, e)
  }

  /** An error that is not a collision ends the loop at once, on any attempt. */
  lemma ForeignErrorIsNotRetried(rows: map<Id, Invitation>, tries: seq<Try>, k: nat)
    requires k < |tries| && TryFailure(rows, tries[k]).Some?
    requires !IsUniqueConstraintError(TryFailure(rows, tries[k]).value)
    requires forall j :: 0 <= j < k ==> Collides(rows, tries[j])
    ensures IssueFrom(rows, tries, 0) == Raised(k, TryFailure(rows, tries[k]).value)
  {
  }

  /** `createInvitation`: up to three codes are tried; a collision moves on to
      the next, any other error propagates, and three collisions end in 503. The
      invitation expires seven days after `now`. */
  method CreateInvitation(invitations: InvitationRepository, inviterId: Id, now: int, tries: seq<Try>)
    returns (r: Result<Invitation>)
    requires invitations.Valid() && |tries| == MaxAttempts
    modifies invitations
    ensures invitations.Valid()
    ensures match IssueFrom(old(invitations.rows), tries, 0)
      case Issued(k) =>
        && r.Ok?
        && r.value == Invitation(r.value.id, inviterId, CreateInvitationCode(tries[k].draw), None, None, Some(now + SevenDaysMs))
        && r.value.id !in old(invitations.rows)
        && invitations.rows == old(invitations.rows)[r.value.id := r.value]
      case Exhausted =>
        r == Err(HttpError(503, IssueUnavailable)) && invitations.rows == old(invitations.rows)
      case Raised(_, e) =>
        r == Err(Rethrown(e)) && invitations.rows == old(invitations.rows)
  {
    var expiresAt := now + SevenDaysMs;
    var attempt := 0;
    while attempt < MaxAttempts
      invariant attempt <= MaxAttempts
      invariant invitations.Valid() && invitations.rows == old(invitations.rows)
      invariant IssueFrom(old(invitations.rows), tries, 0) == IssueFrom(old(invitations.rows), tries, attempt)
    {
      var code := CreateInvitationCode(tries[attempt].draw);
      var created := invitations.CreateInvitation(inviterId, code, expiresAt, tries[attempt].fault);
      if created.Ok? {
        return created;
      }
      if IsUniqueConstraintError(created.failure.thrown) {
        attempt := attempt + 1;
      } else {
        return created;
      }
    }
    r := Err(HttpError(503, IssueUnavailable));
  }


  // ---------------------------------------------------------------------------
  // consumeInvitation
  // ---------------------------------------------------------------------------

  /** Another request's redemption of the same invitation that lands between
      this request's checks and its own conditional update. */
  datatype Redemption = Redemption(userId: Id, at: int)

  /** A non-null expiry earlier than `now`. */
  predicate Expired(inv: Invitation, now: int) {
    inv.expiresAt.Some? && inv.expiresAt.value < now
  }

  /** The code names an unused, unexpired invitation of someone other than `userId`. */
  ghost predicate Redeemable(rows: map<Id, Invitation>, code: string, userId: Id, now: int)
    requires InvitationRepo.Keyed(rows)
  {
    && CodeTaken(rows, code)
    && WithCode(rows, code).usedAt.None?
    && !Expired(WithCode(rows, code), now)
    && WithCode(rows, code).inviterId != userId
  }

  /** The checks `consumeInvitation` makes before writing anything, in order:
      404 unknown code, 410 used, 410 expired, 400 own code. */
  ghost function Refusal(rows: map<Id, Invitation>, code: string, userId: Id, now: int): (f: Option<Failure>)
    requires InvitationRepo.Keyed(rows)
    ensures f.None? <==> Redeemable(rows, code, userId, now)
    ensures !CodeTaken(rows, code) ==> f == Some(HttpError(404, InvalidCode))
    ensures f.Some? ==> f.value.HttpError? && f.value.status in {400, 404, 410}
  {
    if !CodeTaken(rows, code) then Some(HttpError(404, InvalidCode))
    else
      var inv := WithCode(rows, code);
      if inv.usedAt.Some? then Some(HttpError(410, AlreadyUsed))
      else if Expired(inv, now) then Some(HttpError(410, InvitationExpired))
      else if inv.inviterId == userId then Some(HttpError(400, OwnCode))
      else None
  }

  /** How a redemption moves the friendship table from `before` to `after` for
      inviter `a` and invitee `b`, with `refusal` the error it stops with, if any:
      a pending row between them becomes accepted, or a new accepted row a → b
      is inserted; an accepted row between them is a 409, and a failed insert
      propagates the store's error. */
  ghost predicate FriendStep(before: map<Id, Friendship>, after: map<Id, Friendship>, a: Id, b: Id,
                             fault: Option<Thrown>, refusal: Option<Failure>)
  {
    && (refusal.Some? ==>
          && after == before
          && ((refusal == Some(HttpError(409, AlreadyFriends)) && Linked(before, a, b, Some(Accepted)))
              || (!Linked(before, a, b, None) && fault.Some? && refusal == Some(Rethrown(fault.value)))))
    && (refusal.None? ==>
          || (exists p :: && p in before && Joins(before[p], a, b) && before[p].status == Pending
                           && after == before[p := before[p].(status := Accepted)])
          || (&& !Linked(before, a, b, None) && fault.None?
              && exists id :: id !in before && after == before[id := Friendship(id, a, b, Accepted)]))
    && (Linked(before, a, b, Some(Accepted)) && !Linked(before, a, b, Some(Pending))
        ==> refusal == Some(HttpError(409, AlreadyFriends)))
    && (Linked(before, a, b, Some(Pending)) && !Linked(before, a, b, Some(Accepted)) ==> refusal.None?)
    && (!Linked(before, a, b, None) ==> refusal == if fault.Some? then Some(Rethrown(fault.value)) else None)
  }

  /** A redemption that goes through leaves the two users friends. */
  lemma {:induction false} FriendStepBefriends(before: map<Id, Friendship>, after: map<Id, Friendship>, a: Id, b: Id,
                                               fault: Option<Thrown>)
    requires FriendStep(before, after, a, b, fault, None)
    ensures Linked(after, a, b, Some(Accepted))
  {
    if p :| p in before && Joins(before[p], a, b) && before[p].status == Pending
                        && after == before[p := before[p].(status := Accepted)] {
      assert p in after && Joins(after[p], a, b) && after[p].status == Accepted;
    } else {
      var id :| id !in before && after == before[id := Friendship(id, a, b, Accepted)];
      assert id in after && Joins(after[id], a, b) && after[id].status == Accepted;
    }
  }

  /** The friendship writes of a redemption keep at most one row per pair and
      never join a user to themself. */
  lemma {:induction false} FriendStepKeepsInvariants(before: map<Id, Friendship>, after: map<Id, Friendship>, a: Id, b: Id,
                                                     fault: Option<Thrown>, refusal: Option<Failure>)
    requires FriendStep(before, after, a, b, fault, refusal) && a != b
    ensures PairUnique(before) ==> PairUnique(after)
    ensures NoSelfRows(before) ==> NoSelfRows(after)
  {
    if refusal.None? {
      if p :| p in before && Joins(before[p], a, b) && before[p].status == Pending
                          && after == before[p := before[p].(status := Accepted)] {
        if PairUnique(before) {
          RestatusKeepsPairUnique(before, p, Accepted);
        }
      } else {
        var id :| id !in before && after == before[id := Friendship(id, a, b, Accepted)];
        if PairUnique(before) {
          InsertKeepsPairUnique(before, Friendship(id, a, b, Accepted));
        }
      }
    }
  }

  /** The friendship half of `consumeInvitation`, for inviter `a` and invitee `b`. */
  method Befriend(friends: FriendRepository, a: Id, b: Id, fault: Option<Thrown>) returns (refusal: Option<Failure>)
    requires friends.Valid()
    modifies friends
    ensures friends.Valid()
    ensures FriendStep(old(friends.rows), friends.rows, a, b, fault, refusal)
  {
    ghost var before := friends.rows;
    var existing := FindExistingFriendship(friends.rows, a, b);
    if existing.Some? && existing.value.status == Accepted {
      return Some(HttpError(409, AlreadyFriends));
    }
    if existing.Some? {
      var promoted := friends.UpdateFriendshipStatus(existing.value.id, Accepted);
      assert before[existing.value.id].status == Pending;
      refusal := None;
    } else {
      var created := friends.CreateFriendship(a, b, Accepted, fault);
      if created.Err? {
        return Some(created.failure);
      }
      refusal := None;
    }
  }

  /** `consumeInvitation`: the refusals of `Refusal` before any write, then the
      friendship step, then the conditional update that marks the invitation
      used by `userId` at `now`. When `rival` redeems it first, the call ends in
      410 with the friendship already written and the invitation marked used by
      the rival: whoever races, it is marked used once. */
  method ConsumeInvitation(invitations: InvitationRepository, friends: FriendRepository, userId: Id, code: string,
                           now: int, friendFault: Option<Thrown>, rival: Option<Redemption>)
    returns (r: Result<Invitation>)
    requires invitations.Valid() && friends.Valid()
    modifies invitations, friends
    ensures invitations.Valid() && friends.Valid()
    ensures old(PairUnique(friends.rows)) ==> PairUnique(friends.rows)
    ensures old(NoSelfRows(friends.rows)) ==> NoSelfRows(friends.rows)
    ensures Refusal(old(invitations.rows), code, userId, now).Some? ==>
      && r == Err(Refusal(old(invitations.rows), code, userId, now).value)
      && invitations.rows == old(invitations.rows) && friends.rows == old(friends.rows)
    ensures Redeemable(old(invitations.rows), code, userId, now) ==>
      var inv := WithCode(old(invitations.rows), code);
      exists refusal ::
        && FriendStep(old(friends.rows), friends.rows, inv.inviterId, userId, friendFault, refusal)
        && (refusal.Some? ==> r == Err(refusal.value) && invitations.rows == old(invitations.rows))
        && (refusal.None? && rival.None? ==>
              && r == Ok(inv.(usedById := Some(userId), usedAt := Some(now)))
              && invitations.rows == old(invitations.rows)[inv.id := r.value])
        && (refusal.None? && rival.Some? ==>
              && r == Err(HttpError(410, AlreadyUsed))
              && invitations.rows == old(invitations.rows)[inv.id := inv.(usedById := Some(rival.value.userId), usedAt := Some(rival.value.at))])
  {
    var found := invitations.FindInvitationByCode(code);
    if found.None? {
      return Err(HttpError(404, InvalidCode));
    }
    var inv := found.value;
    if inv.usedAt.Some? {
      return Err(HttpError(410, AlreadyUsed));
    }
    if Expired(inv, now) {
      return Err(HttpError(410, InvitationExpired));
    }
    if inv.inviterId == userId {
      return Err(HttpError(400, OwnCode));
    }
    ghost var friendsBefore := friends.rows;
    var refusal := Befriend(friends, inv.inviterId, userId, friendFault);
    FriendStepKeepsInvariants(friendsBefore, friends.rows, inv.inviterId, userId, friendFault, refusal);
    if refusal.Some? {
      return Err(refusal.value);
    }
    if rival.Some? {
      // The competing request's conditional update commits first.
      var theirs := invitations.ConsumeInvitationIfAvailable(inv.id, rival.value.userId, rival.value.at);
    }
    var consumed := invitations.ConsumeInvitationIfAvailable(inv.id, userId, now);
    if consumed.None? {
      return Err(HttpError(410, AlreadyUsed));
    }
    r := Ok(consumed.value);
  }
}
