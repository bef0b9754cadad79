/** The persisted entities of the friend service: friend requests, their
    status, confirmed friendships, and the two stores that hold them. */
module Entities {
  import opened Results

  /** User identifiers and request identifiers are the service's `Long`
      ids; request ids come from the same number space as user ids because
      the pair lookup in `acceptFriendRequest` passes one as the other. */
  type UserId = nat
  type RequestId = nat

  /** A reading of the clock (`LocalDateTime.now()`), supplied by the caller. */
  type Time = int

  /** The closed status enumeration of a friend request. */
  datatype Status = Pending | Accepted | Rejected

  /** A persisted friend request; `id` is its key in the request store. */
  datatype FriendRequest = FriendRequest(
    id: RequestId,
    userIdSender: UserId,
    friendId: UserId,
    status: Status,
    createdAt: Time,
    updatedAt: Time)

  /** A confirmed friendship, written when a request is accepted. */
  datatype Friend = Friend(userIdSender: UserId, friendId: UserId)

  /** The request store (keyed by id) and the append-only friendship store. */
  datatype Store = Store(requests: map<RequestId, FriendRequest>, friends: seq<Friend>)

  /** Every stored request carries the key it is stored under. */
  predicate WellKeyed(requests: map<RequestId, FriendRequest>)
  {
    forall k :: k in requests ==> requests[k].id == k
  }

  /** A stored record sits under its own id. */
  lemma InValuesUnderOwnId(m: map<RequestId, FriendRequest>, x: FriendRequest)
    requires WellKeyed(m) && x in m.Values
    ensures x.id in m && m[x.id] == x
  {
    var k :| k in m && m[k] == x;
  }

  /** Storing a record under its own id keeps the store well keyed. */
  lemma UpdateKeepsWellKeyed(m: map<RequestId, FriendRequest>, x: FriendRequest)
    requires WellKeyed(m)
    ensures WellKeyed(m[x.id := x])
  {
  }

  /** The store invariant every operation preserves. */
  predicate Valid(st: Store)
  {
    WellKeyed(st.requests)
  }

  /** The errors the service surfaces: `Optional.get()` on an empty lookup,
      the single-result pair query finding more than one record, and the
      `FriendRequestException` raised by the status guard. */
  datatype Error = NoSuchElement | IncorrectResultSize | FriendRequestException(message: string)

  /** The new store after a state-changing call, with the request it returns. */
  datatype Step = Step(store: Store, request: FriendRequest)
}
