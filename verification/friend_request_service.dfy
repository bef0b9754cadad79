/** The operations of `FriendRequestService`, each a pure transition from a
    store (and its arguments) to a new store and a result. The clock and the
    id the repository assigns on insertion are parameters. */
module FriendRequestService {
  import opened Results
  import opened Entities
  import opened Queries

  /** `createFriendRequest`: stores a new PENDING request under the fresh id
      the repository assigns. `createdAt` and `updatedAt` are the two clock
      readings `createFriendRequest` takes. No uniqueness check happens here. */
  function CreateFriendRequest(st: Store, userIdSender: UserId, friendId: UserId,
                               id: RequestId, createdAt: Time, updatedAt: Time): (r: Step)
    requires id !in st.requests
    ensures r.request.id == id && r.request.status == Pending
    ensures r.request.userIdSender == userIdSender && r.request.friendId == friendId
    ensures r.request.createdAt == createdAt && r.request.updatedAt == updatedAt
    ensures r.store.requests.Keys == st.requests.Keys + {id}
    ensures r.store.requests[id] == r.request
    ensures forall k :: k in st.requests ==> r.store.requests[k] == st.requests[k]
    ensures |r.store.requests| == |st.requests| + 1
    ensures r.store.friends == st.friends
    ensures Valid(st) ==> Valid(r.store)
  {
    var request := FriendRequest(id, userIdSender, friendId, Pending, createdAt, updatedAt);
    Step(st.(requests := st.requests[id := request]), request)
  }

  /** `getFriendRequest`: the exact-pair lookup. Direction matters: the
      sender must be `userIdSender` and the target `friendId`. It is a
      single-result query: it yields the one matching record or none, and
      fails when two or more records share the pair. */
  function GetFriendRequest(st: Store, userIdSender: UserId, friendId: UserId): (r: Result<Option<FriendRequest>, Error>)
    requires Valid(st)
    ensures r == Success(None) <==>
      forall x :: x in st.requests.Values ==> !(x.userIdSender == userIdSender && x.friendId == friendId)
    ensures r.Success? && r.value.Some? ==>
      var v := r.value.value;
      && v.id in st.requests && st.requests[v.id] == v
      && v.userIdSender == userIdSender && v.friendId == friendId
      && forall x :: x in st.requests.Values && x.userIdSender == userIdSender && x.friendId == friendId
           ==> x == v
    ensures r.Failure? <==>
      exists x, y :: && x in st.requests.Values && y in st.requests.Values && x != y
                     && x.userIdSender == userIdSender && x.friendId == friendId
                     && y.userIdSender == userIdSender && y.friendId == friendId
    ensures r.Failure? ==> r.error == IncorrectResultSize
  {
    var q := ByPair(userIdSender, friendId);
    var hits := Select(Records(st.requests), q);
    Hits(st.requests, q, hits);
    if |hits| > 1 then Failure(IncorrectResultSize)
    else if hits == [] then Success(None)
    else Success(Some(hits[0]))
  }

  /** `acceptFriendRequest`: finds the request through the exact-pair lookup
      with `(userId, requestId)` as `(sender, friendId)`, marks it ACCEPTED
      and appends the friendship, in one step. The prior status is not
      examined. An empty lookup fails as `Optional.get()` does, and a pair
      shared by several records fails in the lookup itself. */
  function AcceptFriendRequest(st: Store, userId: UserId, requestId: RequestId, now: Time): (r: Result<Step, Error>)
    requires Valid(st)
    ensures r == Failure(NoSuchElement) <==>
      forall x :: x in st.requests.Values ==> !(x.userIdSender == userId && x.friendId == requestId)
    ensures r == Failure(IncorrectResultSize) <==>
      exists x, y :: && x in st.requests.Values && y in st.requests.Values && x != y
                     && x.userIdSender == userId && x.friendId == requestId
                     && y.userIdSender == userId && y.friendId == requestId
    ensures r.Failure? ==> r.error == NoSuchElement || r.error == IncorrectResultSize
    ensures r.Success? ==>
      var a := r.value.request;
      && a.id in st.requests
      && var before := st.requests[a.id];
      && before.userIdSender == userId && before.friendId == requestId
      && (forall x :: x in st.requests.Values && x.userIdSender == userId && x.friendId == requestId
            ==> x == before)
      && a.userIdSender == userId && a.friendId == requestId && a.createdAt == before.createdAt
      && a.status == Accepted && a.updatedAt == now
      && r.value.store.requests == st.requests[a.id := a]
      && r.value.store.friends == st.friends + [Friend(userId, requestId)]
      && Valid(r.value.store)
  {
    match GetFriendRequest(st, userId, requestId)
    case Failure(e) => Failure(e)
    case Success(None) => Failure(NoSuchElement)
    case Success(Some(found)) =>
      var accepted := found.(status := Accepted, updatedAt := now);
      var friend := Friend(found.userIdSender, found.friendId);
      UpdateKeepsWellKeyed(st.requests, accepted);
      Success(Step(Store(st.requests[found.id := accepted], st.friends + [friend]), accepted))
  }

  /** `rejectFriendRequest`: finds the request by id and marks it REJECTED.
      The prior status is not examined and `userId` is not used. */
  function RejectFriendRequest(st: Store, userId: UserId, requestId: RequestId, now: Time): (r: Result<Step, Error>)
    requires Valid(st)
    ensures r.Failure? <==> requestId !in st.requests
    ensures r.Failure? ==> r.error == NoSuchElement
    ensures r.Success? ==>
      var before := st.requests[requestId];
      var a := r.value.request;
      && a.id == requestId && a.createdAt == before.createdAt
      && a.userIdSender == before.userIdSender && a.friendId == before.friendId
      && a.status == Rejected && a.updatedAt == now
      && r.value.store.requests == st.requests[requestId := a]
      && r.value.store.friends == st.friends
      && Valid(r.value.store)
  {
    if requestId !in st.requests then Failure(NoSuchElement)
    else
      var rejected := st.requests[requestId].(status := Rejected, updatedAt := now);
      Success(Step(st.(requests := st.requests[requestId := rejected]), rejected))
  }

  /** `getAllFriendRequestByIdSender`: every request sent by `idSender`. */
  function GetAllFriendRequestByIdSender(st: Store, idSender: UserId): (r: seq<FriendRequest>)
    requires Valid(st)
    ensures forall x :: x in r <==> x in st.requests.Values && x.userIdSender == idSender
    ensures IdsAscending(r)
  {
    Select(Records(st.requests), BySender(idSender))
  }

  /** `getAllFriendRequestByIdSenderAndStatus`: every request sent by
      `idSender` whose status is `status`; it is the sender listing
      restricted to that status, order included. */
  function GetAllFriendRequestByIdSenderAndStatus(st: Store, idSender: UserId, status: Status): (r: seq<FriendRequest>)
    requires Valid(st)
    ensures forall x :: x in r <==>
      x in st.requests.Values && x.userIdSender == idSender && x.status == status
    ensures IdsAscending(r)
    ensures r == Select(GetAllFriendRequestByIdSender(st, idSender), ByStatus(status))
  {
    SelectBySenderThenStatus(Records(st.requests), idSender, status);
    Select(Records(st.requests), BySenderAndStatus(idSender, status))
  }

  /** `deleteFriendRequest`: removes the request stored under `requestId`,
      whatever its status; `userId` is not used and a missing id is a no-op. */
  function DeleteFriendRequest(st: Store, userId: UserId, requestId: RequestId): (r: Store)
    ensures requestId !in r.requests
    ensures r.requests.Keys == st.requests.Keys - {requestId}
    ensures forall k :: k in r.requests ==> r.requests[k] == st.requests[k]
    ensures r.friends == st.friends
    ensures Valid(st) ==> Valid(r)
  {
    st.(requests := st.requests - {requestId})
  }

  /** The message of the switch's `default` branch, which the closed
      status enumeration never reaches. */
  const UnknownRequestMessage: string := "Demande d'amis n'existe pas"

  /** The guard's message for a request in status `s`. */
  function StatusMessage(s: Status): string
  {
    match s
    case Accepted => "Vous êtes déjà amis"
    case Pending => "Demande d'amis déjà envoyée"
    case Rejected => "Demande d'amis Rejected"
  }

  /** `checkFriendRequestStatusAndThrowException`: passes on an empty
      optional and fails on any present request, with a message chosen by
      its status. */
  function CheckFriendRequestStatus(request: Option<FriendRequest>): (r: Outcome<Error>)
    ensures r.Pass? <==> request.None?
    ensures request.Some? && request.value.status == Accepted ==>
      r == Fail(FriendRequestException("Vous êtes déjà amis"))
    ensures request.Some? && request.value.status == Pending ==>
      r == Fail(FriendRequestException("Demande d'amis déjà envoyée"))
    ensures request.Some? && request.value.status == Rejected ==>
      r == Fail(FriendRequestException("Demande d'amis Rejected"))
    ensures r != Fail(FriendRequestException(UnknownRequestMessage))
  {
    match request
    case None => Pass
    case Some(existing) => Fail(FriendRequestException(StatusMessage(existing.status)))
  }
}
