/** The derived queries of the request repository (`findByUserIdSender`,
    `findByUserIdSenderAndStatus`, `findByUserIdSenderAndFriendId`) over an
    abstract store. Records come back in ascending id order. */
module Queries {
  import opened Entities
  import opened OrderedKeys

  /** The filter a repository query applies. `ByStatus` is not a
      repository query: it states that the sender-and-status listing is
      the sender listing filtered by status. */
  datatype Query =
    | BySender(sender: UserId)
    | BySenderAndStatus(sender: UserId, status: Status)
    | ByPair(sender: UserId, friendId: UserId)
    | ByStatus(status: Status)

  predicate Matches(q: Query, r: FriendRequest)
  {
    match q
    case BySender(s) => r.userIdSender == s
    case BySenderAndStatus(s, st) => r.userIdSender == s && r.status == st
    case ByPair(s, f) => r.userIdSender == s && r.friendId == f
    case ByStatus(st) => r.status == st
  }

  /** Ids strictly increase along `rs`, so no record appears twice. */
  predicate IdsAscending(rs: seq<FriendRequest>)
  {
    forall i, j :: 0 <= i < j < |rs| ==> rs[i].id < rs[j].id
  }

  /** The records stored under the keys `ks`, in the order of `ks`. */
  function RecordsAt(m: map<RequestId, FriendRequest>, ks: seq<RequestId>): (rs: seq<FriendRequest>)
    requires WellKeyed(m)
    requires forall i :: 0 <= i < |ks| ==> ks[i] in m
    ensures |rs| == |ks|
    ensures forall i :: 0 <= i < |rs| ==> rs[i] == m[ks[i]] && rs[i].id == ks[i]
  {
    if ks == [] then [] else [m[ks[0]]] + RecordsAt(m, ks[1..])
  }

  /** Every stored record exactly once, in ascending id order. */
  function Records(m: map<RequestId, FriendRequest>): (rs: seq<FriendRequest>)
    requires WellKeyed(m)
    ensures forall x :: x in rs <==> x in m.Values
    ensures IdsAscending(rs)
  {
    var ks := Ascending(m.Keys);
    var rs := RecordsAt(m, ks);
    RecordsAtCover(m, ks, rs);
    rs
  }

  /** Reading the records under an ascending enumeration of all keys lists
      every stored record, in ascending id order. */
  lemma RecordsAtCover(m: map<RequestId, FriendRequest>, ks: seq<RequestId>, rs: seq<FriendRequest>)
    requires WellKeyed(m) && Increasing(ks)
    requires forall i :: 0 <= i < |ks| ==> ks[i] in m
    requires forall k :: k in m ==> k in ks
    requires |rs| == |ks|
    requires forall i :: 0 <= i < |rs| ==> rs[i] == m[ks[i]] && rs[i].id == ks[i]
    ensures forall x :: x in rs <==> x in m.Values
    ensures IdsAscending(rs)
  {
    forall x | x in m.Values
      ensures x in rs
    {
      InValuesUnderOwnId(m, x);
      var i :| 0 <= i < |ks| && ks[i] == x.id;
      assert rs[i] == x;
    }
    forall x | x in rs
      ensures x in m.Values
    {
      var i :| 0 <= i < |rs| && rs[i] == x;
      assert m[ks[i]] == x;
    }
  }

  /** The records of `rs` that satisfy `q`, in their original order. */
  function Select(rs: seq<FriendRequest>, q: Query): (r: seq<FriendRequest>)
    ensures forall x :: x in r <==> x in rs && Matches(q, x)
    ensures IdsAscending(rs) ==> IdsAscending(r)
    ensures |r| <= |rs|
  {
    if rs == [] then []
    else
      var tail := Select(rs[1..], q);
      assert forall x :: x in rs <==> x == rs[0] || x in rs[1..];
      if Matches(q, rs[0]) then
        assert IdsAscending(rs) ==> forall x :: x in tail ==> rs[0].id < x.id;
        [rs[0]] + tail
      else tail
  }

  /** Filtering by sender and status at once is the same as filtering by
      sender first and by status afterwards, order included. */
  lemma {:induction false} SelectBySenderThenStatus(rs: seq<FriendRequest>, s: UserId, t: Status)
    ensures Select(rs, BySenderAndStatus(s, t)) == Select(Select(rs, BySender(s)), ByStatus(t))
  {
    if rs != [] {
      SelectBySenderThenStatus(rs[1..], s, t);
    }
  }

  /** What a filtered listing of the store tells about the matches: there
      are none exactly when it is empty; a single hit is the only stored
      match; two or more hits are two distinct stored matches. */
  lemma Hits(m: map<RequestId, FriendRequest>, q: Query, hits: seq<FriendRequest>)
    requires WellKeyed(m)
    requires forall x :: x in hits <==> x in m.Values && Matches(q, x)
    requires IdsAscending(hits)
    ensures hits == [] <==> forall x :: x in m.Values ==> !Matches(q, x)
    ensures |hits| == 1 ==>
      && hits[0].id in m && m[hits[0].id] == hits[0] && Matches(q, hits[0])
      && forall x :: x in m.Values && Matches(q, x) ==> x == hits[0]
    ensures |hits| > 1 ==>
      && hits[0] in m.Values && hits[1] in m.Values && hits[0] != hits[1]
      && Matches(q, hits[0]) && Matches(q, hits[1])
  {
    if hits == [] {
      forall x | x in m.Values
        ensures !Matches(q, x)
      {
        assert x !in hits;
      }
    } else {
      assert hits[0] in hits;
      InValuesUnderOwnId(m, hits[0]);
      if |hits| == 1 {
        forall x | x in m.Values && Matches(q, x)
          ensures x == hits[0]
        {
          var j :| 0 <= j < |hits| && hits[j] == x;
        }
      } else {
        assert hits[1] in hits;
        assert hits[0].id < hits[1].id;
      }
    }
  }
}
