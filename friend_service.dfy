/** The friendship lifecycle: request, accept, list, remove. */
module FriendService {
  import opened Common
  import opened FriendRepo
  import UserRepo

  const SelfRequest := "You cannot send a friend request to yourself"
  const TargetNotFound := "Target user not found"
  const AlreadyFriends := "You are already friends"
  const RequestExists := "Friend request already exists or pending"
  const RequestNotFound := "Friend request not found"
  const NotAddressee := "You can only accept requests sent to you"
  const AlreadyAccepted := "Friend request already accepted"
  const FriendshipNotFound := "Friendship not found"
  const NotAParty := "You are not part of this friendship"

  /** One entry of a friend list: the row's id and status and the other user. */
  datatype FriendView = FriendView(id: Id, status: Status, friendId: Id)

  /** The party of `f` that is not `userId` (the addressee when `userId` requested). */
  function Counterpart(f: Friendship, userId: Id): (friendId: Id)
    ensures f.requesterId == userId || f.addresseeId == userId ==> Joins(f, userId, friendId)
    ensures f.requesterId != f.addresseeId && (f.requesterId == userId || f.addresseeId == userId) ==> friendId != userId
  {
    if f.requesterId == userId then f.addresseeId else f.requesterId
  }

  /** The `map` of `getFriends`: one view per row, same length and order, each
      naming the row's other party. */
  function FriendViews(userId: Id, rows: seq<Friendship>): (views: seq<FriendView>)
    ensures |views| == |rows|
    ensures forall i :: 0 <= i < |rows| ==> views[i].id == rows[i].id && views[i].status == rows[i].status
    ensures forall i :: 0 <= i < |rows| && (rows[i].requesterId == userId || rows[i].addresseeId == userId) ==>
      Joins(rows[i], userId, views[i].friendId)
  {
    seq(|rows|, i requires 0 <= i < |rows| => FriendView(rows[i].id, rows[i].status, Counterpart(rows[i], userId)))
  }

  /** The `filter` and `map` of `getPendingRequests`: the rows addressed to
      `userId`, each viewed with its requester as the friend. */
  function PendingViews(userId: Id, rows: seq<Friendship>): (views: seq<FriendView>)
    ensures |views| <= |rows|
    ensures forall v :: v in views <==>
      exists i :: 0 <= i < |rows| && rows[i].addresseeId == userId
        && v == FriendView(rows[i].id, rows[i].status, rows[i].requesterId)
    ensures (forall i, j :: 0 <= i < j < |rows| ==> rows[i].id != rows[j].id) ==>
      forall i, j :: 0 <= i < j < |views| ==> views[i].id != views[j].id
    decreases |rows|
  {
    if rows == [] then []
    else
      var rest := PendingViews(userId, rows[1..]);
      assert forall i :: 1 <= i < |rows| ==> rows[i] == rows[1..][i - 1];
      assert forall k :: 0 <= k < |rest| ==> exists i :: 1 <= i < |rows| && rest[k].id == rows[i].id by {
        forall k | 0 <= k < |rest|
          ensures exists i :: 1 <= i < |rows| && rest[k].id == rows[i].id
        {
          assert rest[k] in rest;
          var i :| 0 <= i < |rows[1..]| && rest[k].id == rows[1..][i].id;
          assert rows[i + 1].id == rest[k].id;
        }
      }
      if rows[0].addresseeId == userId
      then [FriendView(rows[0].id, rows[0].status, rows[0].requesterId)] + rest
      else rest
  }

  /** `sendFriendRequest`. The guards run in order: self (400), unknown
      addressee (404), an existing row either way (409), then the insert, whose
      unique-constraint failure reads as 409 and whose other failures pass
      through unchanged. */
  method SendFriendRequest(friends: FriendRepository, users: UserRepo.UserRepository,
                           requesterId: Id, addresseeId: Id, insertFault: Option<Thrown>)
    returns (r: Result<Friendship>)
    requires friends.Valid() && users.Valid()
    modifies friends
    ensures friends.Valid()
    ensures r.Err? ==> friends.rows == old(friends.rows)
    ensures requesterId == addresseeId ==> r == Err(HttpError(400, SelfRequest))
    ensures requesterId != addresseeId && addresseeId !in users.rows ==> r == Err(HttpError(404, TargetNotFound))
    ensures (requesterId != addresseeId && addresseeId in users.rows
             && Linked(old(friends.rows), requesterId, addresseeId, None))
      ==> r == Err(HttpError(409, AlreadyFriends)) || r == Err(HttpError(409, RequestExists))
    ensures (requesterId != addresseeId && addresseeId in users.rows
             && Linked(old(friends.rows), requesterId, addresseeId, Some(Accepted))
             && !Linked(old(friends.rows), requesterId, addresseeId, Some(Pending)))
      ==> r == Err(HttpError(409, AlreadyFriends))
    ensures (requesterId != addresseeId && addresseeId in users.rows
             && Linked(old(friends.rows), requesterId, addresseeId, Some(Pending))
             && !Linked(old(friends.rows), requesterId, addresseeId, Some(Accepted)))
      ==> r == Err(HttpError(409, RequestExists))
    ensures (requesterId != addresseeId && addresseeId in users.rows
             && !Linked(old(friends.rows), requesterId, addresseeId, None) && insertFault.Some?)
      ==> r == Err(if IsUniqueConstraintError(insertFault.value) then HttpError(409, RequestExists)
                   else Rethrown(insertFault.value))
    ensures (requesterId != addresseeId && addresseeId in users.rows
             && !Linked(old(friends.rows), requesterId, addresseeId, None) && insertFault.None?)
      ==> (&& r.Ok?
           && r.value == Friendship(r.value.id, requesterId, addresseeId, Pending)
           && r.value.id !in old(friends.rows)
           && friends.rows == old(friends.rows)[r.value.id := r.value])
    ensures old(PairUnique(friends.rows)) ==> PairUnique(friends.rows)
    ensures old(NoSelfRows(friends.rows)) ==> NoSelfRows(friends.rows)
  {
    if requesterId == addresseeId {
      return Err(HttpError(400, SelfRequest));
    }
    if addresseeId !in users.rows {
      return Err(HttpError(404, TargetNotFound));
    }
    var existing := FindExistingFriendship(friends.rows, requesterId, addresseeId);
    if existing.Some? {
      if existing.value.status == Accepted {
        return Err(HttpError(409, AlreadyFriends));
      }
      return Err(HttpError(409, RequestExists));
    }
    r := friends.CreateFriendship(requesterId, addresseeId, Pending, insertFault);
    if r.Err? {
      var error := r.failure.thrown;
      if IsUniqueConstraintError(error) {
        return Err(HttpError(409, RequestExists));
      }
      return Err(Rethrown(error));
    }
    if old(PairUnique(friends.rows)) {
      InsertKeepsPairUnique(old(friends.rows), r.value);
    }
  }

  /** `acceptFriendRequest`: missing (404), caller not the addressee (403),
      already accepted (400); otherwise only that row's status becomes ACCEPTED. */
  method AcceptFriendRequest(friends: FriendRepository, userId: Id, friendshipId: Id) returns (r: Result<Friendship>)
    requires friends.Valid()
    modifies friends
    ensures friends.Valid()
    ensures r.Err? ==> friends.rows == old(friends.rows)
    ensures friendshipId !in old(friends.rows) ==> r == Err(HttpError(404, RequestNotFound))
    ensures friendshipId in old(friends.rows) && old(friends.rows)[friendshipId].addresseeId != userId ==>
      r == Err(HttpError(403, NotAddressee))
    ensures (friendshipId in old(friends.rows) && old(friends.rows)[friendshipId].addresseeId == userId
             && old(friends.rows)[friendshipId].status == Accepted)
      ==> r == Err(HttpError(400, AlreadyAccepted))
    ensures r.Ok? <==> (friendshipId in old(friends.rows) && old(friends.rows)[friendshipId].addresseeId == userId
                        && old(friends.rows)[friendshipId].status == Pending)
    ensures r.Ok? ==>
      && r.value == old(friends.rows)[friendshipId].(status := Accepted)
      && friends.rows == old(friends.rows)[friendshipId := r.value]
    ensures old(PairUnique(friends.rows)) ==> PairUnique(friends.rows)
    ensures old(NoSelfRows(friends.rows)) ==> NoSelfRows(friends.rows)
  {
    var friendship := FindFriendshipById(friends.rows, friendshipId);
    if friendship.None? {
      return Err(HttpError(404, RequestNotFound));
    }
    if friendship.value.addresseeId != userId {
      return Err(HttpError(403, NotAddressee));
    }
    if friendship.value.status == Accepted {
      return Err(HttpError(400, AlreadyAccepted));
    }
    if PairUnique(friends.rows) {
      RestatusKeepsPairUnique(friends.rows, friendshipId, Accepted);
    }
    r := friends.UpdateFriendshipStatus(friendshipId, Accepted);
  }

  /** `getFriends`: one view per ACCEPTED row `userId` is a party to, naming the
      other party as the friend. */
  method GetFriends(friends: FriendRepository, userId: Id) returns (views: seq<FriendView>)
    requires friends.Valid()
    ensures forall i, j :: 0 <= i < j < |views| ==> views[i].id != views[j].id
    ensures forall v :: v in views ==>
      && v.id in friends.rows
      && friends.rows[v.id].status == Accepted
      && v.status == Accepted
      && Joins(friends.rows[v.id], userId, v.friendId)
    ensures forall id :: id in friends.rows && Involves(friends.rows[id], userId, Some(Accepted)) ==>
      exists v :: v in views && v.id == id
  {
    var found := FindManyFriendships(friends.rows, userId, Some(Accepted));
    views := FriendViews(userId, found);
    forall v | v in views
      ensures v.id in friends.rows && friends.rows[v.id].status == Accepted && v.status == Accepted
      ensures Joins(friends.rows[v.id], userId, v.friendId)
    {
      var i :| 0 <= i < |views| && views[i] == v;
      assert found[i] in friends.rows.Values;
      var k :| k in friends.rows && friends.rows[k] == found[i];
    }
    forall id | id in friends.rows && Involves(friends.rows[id], userId, Some(Accepted))
      ensures exists v :: v in views && v.id == id
    {
      var i :| 0 <= i < |found| && found[i] == friends.rows[id];
      assert views[i].id == id;
    }
  }

  /** `getPendingRequests`: the PENDING rows addressed to `userId`, each viewed
      with its requester as the friend; requests `userId` sent are not listed. */
  method GetPendingRequests(friends: FriendRepository, userId: Id) returns (views: seq<FriendView>)
    requires friends.Valid()
    ensures forall i, j :: 0 <= i < j < |views| ==> views[i].id != views[j].id
    ensures forall v :: v in views <==>
      && v.id in friends.rows
      && friends.rows[v.id].status == Pending
      && friends.rows[v.id].addresseeId == userId
      && v == FriendView(v.id, Pending, friends.rows[v.id].requesterId)
  {
    var found := FindManyFriendships(friends.rows, userId, Some(Pending));
    views := PendingViews(userId, found);
    var rows := friends.rows;
    forall v | v in views
      ensures v.id in rows && rows[v.id].status == Pending && rows[v.id].addresseeId == userId
      ensures v == FriendView(v.id, Pending, rows[v.id].requesterId)
    {
      var i :| 0 <= i < |found| && found[i].addresseeId == userId
        && v == FriendView(found[i].id, found[i].status, found[i].requesterId);
      assert found[i] in rows.Values;
      var k :| k in rows && rows[k] == found[i];
    }
    forall id | id in rows && rows[id].status == Pending && rows[id].addresseeId == userId
      ensures FriendView(id, Pending, rows[id].requesterId) in views
    {
      assert rows[id] in rows.Values;
      var i :| 0 <= i < |found| && found[i] == rows[id];
    }
  }

  /** `removeFriendship`: missing (404), caller not a party (403); otherwise the
      row goes, whatever its status. */
  method RemoveFriendship(friends: FriendRepository, userId: Id, friendshipId: Id) returns (r: Result<Friendship>)
    requires friends.Valid()
    modifies friends
    ensures friends.Valid()
    ensures r.Err? ==> friends.rows == old(friends.rows)
    ensures friendshipId !in old(friends.rows) ==> r == Err(HttpError(404, FriendshipNotFound))
    ensures (friendshipId in old(friends.rows) && old(friends.rows)[friendshipId].requesterId != userId
             && old(friends.rows)[friendshipId].addresseeId != userId)
      ==> r == Err(HttpError(403, NotAParty))
    ensures r.Ok? <==> (friendshipId in old(friends.rows)
                        && (old(friends.rows)[friendshipId].requesterId == userId
                            || old(friends.rows)[friendshipId].addresseeId == userId))
    ensures r.Ok? ==> r.value == old(friends.rows)[friendshipId] && friends.rows == old(friends.rows) - {friendshipId}
    ensures old(PairUnique(friends.rows)) ==> PairUnique(friends.rows)
    ensures old(NoSelfRows(friends.rows)) ==> NoSelfRows(friends.rows)
  {
    var friendship := FindFriendshipById(friends.rows, friendshipId);
    if friendship.None? {
      return Err(HttpError(404, FriendshipNotFound));
    }
    if friendship.value.requesterId != userId && friendship.value.addresseeId != userId {
      return Err(HttpError(403, NotAParty));
    }
    r := friends.DeleteFriendship(friendshipId);
  }
}
