# Friend-request workflow of the friend service

This project models `FriendRequestService` of the friend microservice: the
small state machine that creates friend requests, looks them up by
(sender, target) pair, accepts them (recording a friendship in the same
step), rejects and deletes them, lists them by sender and by sender and
status, and guards against duplicate requests with a status-specific error.

The two JPA repositories become one immutable `Store`: the request store is a
`map<RequestId, FriendRequest>` keyed by id, and the friendship store is an
append-only `seq<Friend>`. Every operation is a pure function from a store
and its arguments to a new store and a result. A missing record is the
`Failure(NoSuchElement)` that `Optional.get()` raises.

Modules:

- `Results`: `Option`, `Result` and `Outcome`.
- `OrderedKeys`: the least element of a key set, and the keys in ascending order.
- `Entities`: `Status`, `FriendRequest`, `Friend`, `Store`, `Error`, and the store invariant `Valid` (every record sits under its own id).
- `Queries`: the repository's derived queries as filters over the records in ascending id order.
- `FriendRequestService`: the eight service operations.
- `Workflow`: properties that relate several calls.

The model follows the code as written. Points worth knowing:

- `acceptFriendRequest` finds its record with the exact-pair lookup, using `(userId, requestId)` as `(sender, friendId)`. It does not look up by id. `rejectFriendRequest` does look up by id.
- Neither accept nor reject checks that the request is PENDING. Re-accepting appends a second, identical `Friend`, so the friendship store can hold the same pair twice (`Workflow.ReacceptAppendsAgain`).
- After create(1, 2) stores request 7, accept(2, 7) fails: the pair lookup looks for sender 2 and target 7 (`Workflow.AcceptByRecipientFailsAsWritten`).
- The pair lookup is a single-result query, so it fails when two records share the pair. `createFriendRequest` does not prevent that, and accept then fails (`Workflow.DuplicateCreateBlocksAccept`).
- The guard's `default` branch ("Demande d'amis n'existe pas") cannot be reached, because the status enumeration is closed.

## Model

| member | source | states |
|---|---|---|
| FriendRequestService.CreateFriendRequest | Friend-service/src/main/java/com/halima/friendservice/service/FriendRequestService.java:37-48 | adds exactly one record, under a fresh id. The record is PENDING, has the given sender and friendId, and takes createdAt/updatedAt from the two clock readings. Every existing record and the friendship store stay unchanged, and the store invariant is kept |
| FriendRequestService.GetFriendRequest | Friend-service/src/main/java/com/halima/friendservice/service/FriendRequestService.java:50-52 | yields none exactly when no stored record has this sender and this friendId, so direction matters. It fails with IncorrectResultSize exactly when two distinct stored records have the pair. Otherwise it yields the one stored record with that pair, under its own id. It is a pure function, so neither store changes |
| FriendRequestService.AcceptFriendRequest | Friend-service/src/main/java/com/halima/friendservice/service/FriendRequestService.java:55-71 | fails with NoSuchElement exactly when no record has sender userId and friendId requestId, and with IncorrectResultSize exactly when two distinct records have it; the status is not consulted. Otherwise the one record with that pair becomes ACCEPTED with updatedAt = now, keeping its id, pair and createdAt. No other record changes, and exactly one Friend with that pair is appended |
| FriendRequestService.RejectFriendRequest | Friend-service/src/main/java/com/halima/friendservice/service/FriendRequestService.java:73-79 | fails with NoSuchElement exactly when no record has key requestId. Otherwise that record becomes REJECTED with updatedAt = now, keeping its pair and createdAt. Every other record and the friendship store stay unchanged; the prior status is not checked |
| FriendRequestService.GetAllFriendRequestByIdSender | Friend-service/src/main/java/com/halima/friendservice/service/FriendRequestService.java:81-84 | lists exactly the stored records whose sender is idSender, each once, in ascending id order. The list is empty when none match |
| FriendRequestService.GetAllFriendRequestByIdSenderAndStatus | Friend-service/src/main/java/com/halima/friendservice/service/FriendRequestService.java:86-89 | lists exactly the stored records with sender idSender and the given status, each once, in ascending id order. The list is empty when none match. It equals the sender listing restricted to that status, so it is contained in it |
| FriendRequestService.DeleteFriendRequest | Friend-service/src/main/java/com/halima/friendservice/service/FriendRequestService.java:90-93 | afterwards no record has key requestId, whatever its status and whoever asks. Every other record and the friendship store stay unchanged |
| FriendRequestService.CheckFriendRequestStatus | Friend-service/src/main/java/com/halima/friendservice/service/FriendRequestService.java:94-114 | passes exactly on an empty optional. On a present request it fails with "Vous êtes déjà amis" for ACCEPTED, "Demande d'amis déjà envoyée" for PENDING and "Demande d'amis Rejected" for REJECTED. It never produces the default branch's message |
| Workflow.GuardedCreateIsFound | Friend-service/src/main/java/com/halima/friendservice/service/FriendRequestService.java:94-111 | if the pair lookup succeeds, the guard passes on its result and the request is then created, the lookup yields exactly the new PENDING request. The guard then refuses the pair with "Demande d'amis déjà envoyée" |
| Workflow.ReacceptAppendsAgain | Friend-service/src/main/java/com/halima/friendservice/service/FriendRequestService.java:59-68 | when exactly one stored record has the pair, accept succeeds on it, and the same accept then succeeds again on that record, which stays ACCEPTED. The friendship store has grown by two identical Friend entries |
| Workflow.AcceptGrowsFriendsByOne | Friend-service/src/main/java/com/halima/friendservice/service/FriendRequestService.java:59-67 | when exactly one stored record has sender userId and friendId requestId, accept succeeds on that record and grows the friendship store by exactly one |
| Workflow.RejectAfterDeleteFails | Friend-service/src/main/java/com/halima/friendservice/service/FriendRequestService.java:75-92 | once a request id is deleted, rejecting that id fails with NoSuchElement |
| Workflow.DeleteIdempotent | Friend-service/src/main/java/com/halima/friendservice/service/FriendRequestService.java:90-93 | deleting an id twice, by any users, gives the same store as deleting it once |
| Queries.SelectBySenderThenStatus | Friend-service/src/main/java/com/halima/friendservice/service/FriendRequestService.java:86-89 | filtering by sender and status at once equals filtering by sender, then by status, order included |
| Workflow.AcceptByRecipientFailsAsWritten | Friend-service/src/main/java/com/halima/friendservice/service/FriendRequestService.java:59-75 | with request 7 created from user 1 to user 2, accept(2, 7) fails with NoSuchElement while reject(2, 7) succeeds. Accept reads the request id as a target user id |
| Workflow.DuplicateCreateBlocksAccept | Friend-service/src/main/java/com/halima/friendservice/service/FriendRequestService.java:37-59 | create does not check for an existing request: after create(1, 2) stores requests 5 and 9, accept(1, 2) fails with IncorrectResultSize and changes nothing |
| Workflow.SolePairIsFound | Friend-service/src/main/java/com/halima/friendservice/service/FriendRequestService.java:50-52 | when exactly one stored record has the pair, the pair lookup yields that record |
| Workflow.AcceptSolePair | Friend-service/src/main/java/com/halima/friendservice/service/FriendRequestService.java:59-68 | when exactly one stored record has the pair, accept succeeds with that record set to ACCEPTED and updatedAt = now, stored under its id, and the friendship store extended by that pair; the result is well keyed |

## Left out

- Logging, `ModelMapper` and the DTO: the DTO is the record itself.
- `@Transactional`: accept is one atomic transition of both stores; concurrency is not modelled.
- `LocalDateTime.now()`: each clock reading is a parameter (`createdAt`, `updatedAt`, `now`), and timestamps are plain integers.
- The id the repository assigns on `save`: a parameter of `CreateFriendRequest` that must not already be a key.
- The repositories themselves: queries return records in ascending id order, where the Java repository leaves the order unspecified.
- Spring Data's `IncorrectResultSizeDataAccessException` is modelled by the `IncorrectResultSize` error; the exception's message and type hierarchy are not.
- Deleting a missing id: a no-op, as `deleteById` is in current Spring Data; older versions raise `EmptyResultDataAccessException`, which is not modelled.
- Identifiers are non-negative and unbounded; negative `Long` ids and 64-bit overflow are not modelled.
- The `UserClient` Feign client, `UserNotFoundException` and the notification placeholder: external services with no logic in this class.
- The PENDING-only guard on accept and reject, the lookup by id in accept, and uniqueness of active requests: the code does not implement them. `Workflow.ReacceptAppendsAgain`, `Workflow.AcceptByRecipientFailsAsWritten` and `Workflow.DuplicateCreateBlocksAccept` show the resulting behaviour.
