/** Properties relating several calls of the service: the guard-then-create
    flow of the API layer, repeated acceptance, deletion, the two listings,
    and the consequences of accept's pair lookup. */
module Workflow {
  import opened Results
  import opened Entities
  import opened FriendRequestService

  /** The record under `k` is the only stored record with this pair. */
  predicate SolePair(st: Store, userIdSender: UserId, friendId: UserId, k: RequestId)
  {
    && k in st.requests
    && st.requests[k].userIdSender == userIdSender && st.requests[k].friendId == friendId
    && forall j :: (j in st.requests && st.requests[j].userIdSender == userIdSender
                    && st.requests[j].friendId == friendId) ==> j == k
  }

  /** When exactly one record has the pair, the lookup finds that record. */
  lemma SolePairIsFound(st: Store, userIdSender: UserId, friendId: UserId, k: RequestId)
    requires Valid(st) && SolePair(st, userIdSender, friendId, k)
    ensures GetFriendRequest(st, userIdSender, friendId) == Success(Some(st.requests[k]))
  {
    assert st.requests[k] in st.requests.Values;
    forall x | x in st.requests.Values && x.userIdSender == userIdSender && x.friendId == friendId
      ensures x == st.requests[k]
    {
      InValuesUnderOwnId(st.requests, x);
    }
  }

  /** When the pair lookup succeeds and the guard lets its result through,
      creating the request makes the lookup find exactly the new PENDING
      request, and the guard now refuses a second request for the pair. */
  lemma {:induction false} GuardedCreateIsFound(st: Store, userIdSender: UserId, friendId: UserId,
                                                id: RequestId, createdAt: Time, updatedAt: Time)
    requires Valid(st) && id !in st.requests
    requires GetFriendRequest(st, userIdSender, friendId).Success?
    requires CheckFriendRequestStatus(GetFriendRequest(st, userIdSender, friendId).value).Pass?
    ensures var c := CreateFriendRequest(st, userIdSender, friendId, id, createdAt, updatedAt);
      && GetFriendRequest(c.store, userIdSender, friendId) == Success(Some(c.request))
      && c.request.status == Pending
      && CheckFriendRequestStatus(GetFriendRequest(c.store, userIdSender, friendId).value)
         == Fail(FriendRequestException("Demande d'amis déjà envoyée"))
  {
    var c := CreateFriendRequest(st, userIdSender, friendId, id, createdAt, updatedAt);
    assert SolePair(c.store, userIdSender, friendId, id);
    SolePairIsFound(c.store, userIdSender, friendId, id);
  }

  /** Accept does not examine the status: when exactly one record has the
      pair, accepting it succeeds, and accepting the same pair a second
      time succeeds again on the same record and appends a second,
      identical friendship. */
  lemma {:induction false} ReacceptAppendsAgain(st: Store, userId: UserId, requestId: RequestId,
                                                k: RequestId, t1: Time, t2: Time)
    requires Valid(st) && SolePair(st, userId, requestId, k)
    ensures AcceptFriendRequest(st, userId, requestId, t1).Success?
    ensures var first := AcceptFriendRequest(st, userId, requestId, t1).value;
      var second := AcceptFriendRequest(first.store, userId, requestId, t2);
      && first.request.id == k
      && second.Success?
      && second.value.request.id == k
      && second.value.request.status == Accepted
      && |second.value.store.friends| == |st.friends| + 2
      && second.value.store.friends[|st.friends|] == Friend(userId, requestId)
      && second.value.store.friends[|st.friends| + 1] == Friend(userId, requestId)
  {
    var first := AcceptSolePair(st, userId, requestId, k, t1);
    RewriteKeepsSolePair(st, first.store, userId, requestId, k, first.request);
    var second := AcceptSolePair(first.store, userId, requestId, k, t2);
    assert second.store.friends == st.friends + [Friend(userId, requestId)] + [Friend(userId, requestId)];
  }

  /** The exact step accept takes on the sole record of a pair. */
  lemma AcceptSolePair(st: Store, userId: UserId, requestId: RequestId, k: RequestId, now: Time)
    returns (step: Step)
    requires Valid(st) && SolePair(st, userId, requestId, k)
    ensures step.request == st.requests[k].(status := Accepted, updatedAt := now)
    ensures step.store == Store(st.requests[k := step.request], st.friends + [Friend(userId, requestId)])
    ensures Valid(step.store)
    ensures AcceptFriendRequest(st, userId, requestId, now) == Success(step)
  {
    var a := st.requests[k].(status := Accepted, updatedAt := now);
    step := Step(Store(st.requests[k := a], st.friends + [Friend(userId, requestId)]), a);
    UpdateKeepsWellKeyed(st.requests, a);
    SolePairIsFound(st, userId, requestId, k);
  }

  /** Rewriting the sole record of a pair with a record of the same pair
      keeps it the sole record of that pair. */
  lemma RewriteKeepsSolePair(st: Store, st': Store, userIdSender: UserId, friendId: UserId,
                             k: RequestId, a: FriendRequest)
    requires SolePair(st, userIdSender, friendId, k)
    requires a.userIdSender == userIdSender && a.friendId == friendId
    requires st'.requests == st.requests[k := a]
    ensures SolePair(st', userIdSender, friendId, k)
  {
  }

  /** Accept succeeds exactly when one record has the pair, and then grows
      the friendship store by exactly one. */
  lemma AcceptGrowsFriendsByOne(st: Store, userId: UserId, requestId: RequestId, k: RequestId, now: Time)
    requires Valid(st) && SolePair(st, userId, requestId, k)
    ensures AcceptFriendRequest(st, userId, requestId, now).Success?
    ensures AcceptFriendRequest(st, userId, requestId, now).value.request.id == k
    ensures |AcceptFriendRequest(st, userId, requestId, now).value.store.friends| == |st.friends| + 1
  {
    var step := AcceptSolePair(st, userId, requestId, k, now);
  }

  /** Create does not check for an existing request, so the same pair can
      be stored twice; accepting that pair then fails in the single-result
      lookup and changes nothing. */
  lemma DuplicateCreateBlocksAccept(t0: Time, t1: Time)
    ensures var c1 := CreateFriendRequest(Store(map[], []), 1, 2, 5, t0, t0);
      var c2 := CreateFriendRequest(c1.store, 1, 2, 9, t0, t0);
      AcceptFriendRequest(c2.store, 1, 2, t1) == Failure(IncorrectResultSize)
  {
    var c1 := CreateFriendRequest(Store(map[], []), 1, 2, 5, t0, t0);
    var c2 := CreateFriendRequest(c1.store, 1, 2, 9, t0, t0);
    assert c2.store.requests[5] in c2.store.requests.Values;
    assert c2.store.requests[9] in c2.store.requests.Values;
  }

  /** Deleting twice leaves the same store as deleting once, whichever user
      asks each time. */
  lemma DeleteIdempotent(st: Store, u1: UserId, u2: UserId, requestId: RequestId)
    ensures DeleteFriendRequest(DeleteFriendRequest(st, u1, requestId), u2, requestId)
         == DeleteFriendRequest(st, u1, requestId)
  {
  }

  /** Once a request is deleted, rejecting it by id fails as not found. */
  lemma RejectAfterDeleteFails(st: Store, userId: UserId, requestId: RequestId, now: Time)
    requires Valid(st)
    ensures RejectFriendRequest(DeleteFriendRequest(st, userId, requestId), userId, requestId, now)
         == Failure(NoSuchElement)
  {
  }

  /** The pair lookup in accept treats the request id as the target user:
      after `create(1, 2)` stores request 7, `accept(2, 7)` fails although
      `reject(2, 7)` succeeds. */
  lemma AcceptByRecipientFailsAsWritten(t0: Time, t1: Time)
    ensures var c := CreateFriendRequest(Store(map[], []), 1, 2, 7, t0, t0);
      && AcceptFriendRequest(c.store, 2, 7, t1) == Failure(NoSuchElement)
      && RejectFriendRequest(c.store, 2, 7, t1).Success?
  {
    var c := CreateFriendRequest(Store(map[], []), 1, 2, 7, t0, t0);
    assert c.store.requests.Values == {c.request};
  }
}
