/** Subscriptions: a viewer subscribing to and unsubscribing from a
    creator, and the caller's subscriptions as keyset pages keyed by
    `(updatedAt, creatorId)`. */
module Subscriptions {
  import opened Common
  import opened Keyset

  datatype Subscription = Subscription(viewerId: Id, creatorId: Id, updatedAt: Timestamp)

  predicate IsPair(s: Subscription, viewerId: Id, creatorId: Id)
  {
    s.viewerId == viewerId && s.creatorId == creatorId
  }

  /** The table holds at most one row per (viewer, creator). */
  predicate UniquePairs(rows: seq<Subscription>)
  {
    forall i, j :: 0 <= i < j < |rows| ==>
      !(rows[i].viewerId == rows[j].viewerId && rows[i].creatorId == rows[j].creatorId)
  }

  function FindPair(rows: seq<Subscription>, viewerId: Id, creatorId: Id): (r: Option<Subscription>)
    ensures r.Some? ==> r.value in rows && IsPair(r.value, viewerId, creatorId)
    ensures r.None? ==> forall s | s in rows :: !IsPair(s, viewerId, creatorId)
  {
    if rows == [] then None
    else if IsPair(rows[0], viewerId, creatorId) then Some(rows[0])
    else
      assert forall s | s in rows :: s == rows[0] || s in rows[1..];
      FindPair(rows[1..], viewerId, creatorId)
  }

  /** What `create` answers and the table it leaves. */
  datatype Created = Created(result: Result<Subscription>, rows: seq<Subscription>)

  /** `create`: subscribing to oneself is BAD_REQUEST; a second row for
      the same pair violates the table's key; otherwise the row (viewer =
      caller, creator = `userId`) is inserted at time `now`. */
  function Subscribe(rows: seq<Subscription>, callerId: Id, userId: Id, now: Timestamp): (c: Created)
    ensures userId == callerId ==> c == Created(Failure(BadRequest), rows)
    ensures userId != callerId && FindPair(rows, callerId, userId).Some? ==>
      c == Created(Failure(UniqueViolation), rows)
    ensures c.result.Success? <==> userId != callerId && forall s | s in rows :: !IsPair(s, callerId, userId)
    ensures c.result.Success? ==>
      c.result.value == Subscription(callerId, userId, now) && c.rows == rows + [c.result.value]
  {
    if userId == callerId then Created(Failure(BadRequest), rows)
    else if FindPair(rows, callerId, userId).Some? then Created(Failure(UniqueViolation), rows)
    else
      var row := Subscription(callerId, userId, now);
      Created(Success(row), rows + [row])
  }

  /** What `remove` answers (the deleted row, if there was one) and the
      table it leaves. */
  datatype Removed = Removed(result: Result<Option<Subscription>>, rows: seq<Subscription>)

  /** `remove`: unsubscribing from oneself is BAD_REQUEST; otherwise every
      row of the pair (caller, `userId`) is deleted and one of them, if
      any, is returned. */
  function Unsubscribe(rows: seq<Subscription>, callerId: Id, userId: Id): (d: Removed)
    ensures userId == callerId ==> d == Removed(Failure(BadRequest), rows)
    ensures userId != callerId ==> d.result.Success?
    ensures userId != callerId ==>
      && (forall s | s in d.rows :: s in rows && !IsPair(s, callerId, userId))
      && (forall s | s in rows && !IsPair(s, callerId, userId) :: s in d.rows)
      && (forall s | s in rows ::
            multiset(d.rows)[s] == if IsPair(s, callerId, userId) then 0 else multiset(rows)[s])
    ensures d.result.Success? ==>
      (d.result.value.Some? <==> exists s | s in rows :: IsPair(s, callerId, userId))
    ensures d.result.Success? && d.result.value.Some? ==>
      d.result.value.value in rows && IsPair(d.result.value.value, callerId, userId)
  {
    if userId == callerId then Removed(Failure(BadRequest), rows)
    else
      var left := Filter(rows, (s: Subscription) => !IsPair(s, callerId, userId));
      Removed(Success(FindPair(rows, callerId, userId)), left)
  }

  /** `create` keeps at most one row per pair. */
  lemma SubscribeKeepsUnique(rows: seq<Subscription>, callerId: Id, userId: Id, now: Timestamp)
    requires UniquePairs(rows)
    ensures UniquePairs(Subscribe(rows, callerId, userId, now).rows)
  {
    var c := Subscribe(rows, callerId, userId, now);
    if c.result.Success? {
      var after := c.rows;
      forall i, j | 0 <= i < j < |after|
        ensures !(after[i].viewerId == after[j].viewerId && after[i].creatorId == after[j].creatorId)
      {
        if j == |rows| {
          assert after[i] == rows[i];
          assert after[i] in rows;
        }
      }
    }
  }

  /** `remove` keeps at most one row per pair. */
  lemma UnsubscribeKeepsUnique(rows: seq<Subscription>, callerId: Id, userId: Id)
    requires UniquePairs(rows)
    ensures UniquePairs(Unsubscribe(rows, callerId, userId).rows)
  {
    if userId != callerId {
      FilterPairwise(rows, (s: Subscription) => !IsPair(s, callerId, userId),
        (a: Subscription, b: Subscription) => !(a.viewerId == b.viewerId && a.creatorId == b.creatorId));
    }
  }

  /** `create` of an absent pair followed by `remove` of the same pair
      leaves the table as it was. */
  lemma SubscribeThenUnsubscribeRestores(rows: seq<Subscription>, callerId: Id, userId: Id, now: Timestamp)
    requires Subscribe(rows, callerId, userId, now).result.Success?
    ensures Unsubscribe(Subscribe(rows, callerId, userId, now).rows, callerId, userId).rows == rows
  {
    var keep := (s: Subscription) => !IsPair(s, callerId, userId);
    var row := Subscription(callerId, userId, now);
    FilterAppend(rows, row, keep);
    assert forall i :: 0 <= i < |rows| ==> rows[i] in rows;
    FilterKeepsAll(rows, keep);
  }

  // ---------------------------------------------------------------------
  // Listing
  // ---------------------------------------------------------------------

  datatype SubscriptionItem = SubscriptionItem(subscription: Subscription, subscriberCount: nat)

  /** The rows whose creator is `creatorId`. */
  function SubscriberCount(rows: seq<Subscription>, creatorId: Id): (n: nat)
    ensures n <= |rows|
    ensures n == 0 <==> forall i :: 0 <= i < |rows| ==> rows[i].creatorId != creatorId
    ensures n == |Filter(rows, (s: Subscription) => s.creatorId == creatorId)|
  {
    CountIf(rows, (s: Subscription) => s.creatorId == creatorId)
  }

  /** A row of the caller's listing. Its `subscriberCount` is counted for
      the caller, not for the row's creator, as the listing computes it. */
  function SubscriptionEntry(rows: seq<Subscription>, userId: Id, s: Subscription): Entry<SubscriptionItem>
  {
    Entry(Pos(s.updatedAt, s.creatorId), SubscriptionItem(s, SubscriberCount(rows, userId)))
  }

  function ViewerSubscriptions(rows: seq<Subscription>, userId: Id): seq<Entry<SubscriptionItem>>
  {
    Select(rows, (s: Subscription) => s.viewerId == userId, (s: Subscription) => SubscriptionEntry(rows, userId, s))
  }

  /** `getMany`: the caller's subscriptions, most recently updated first,
      with ties broken by `creatorId`. */
  function GetMany(rows: seq<Subscription>, userId: Id, cursor: Option<Pos>, limit: int)
    : (r: Result<Page<SubscriptionItem>>)
    ensures r.Failure? <==> !(MinLimit <= limit <= MaxLimit)
    ensures r.Failure? ==> r.error == ValidationError
    ensures MinLimit <= limit <= MaxLimit ==>
      r == Success(Fetch(ByAtThenId, ViewerSubscriptions(rows, userId), cursor, limit))
    ensures r.Success? ==>
      var p := r.value;
      && |p.items| <= limit
      && p.items == Sort(ByAtThenId, Seek(ViewerSubscriptions(rows, userId), cursor))[..|p.items|]
      && (p.nextCursor.Some? <==> |Seek(ViewerSubscriptions(rows, userId), cursor)| > limit)
      && (p.nextCursor.None? ==> |p.items| == |Seek(ViewerSubscriptions(rows, userId), cursor)|)
      && (p.nextCursor.Some? ==>
            && |p.items| == limit
            && p.nextCursor.value == Pos(p.items[limit - 1].row.subscription.updatedAt,
                                         p.items[limit - 1].row.subscription.creatorId))
      && Sorted(ByAtThenId, p.items)
      && forall e | e in p.items ::
           && e.row.subscription in rows
           && e.row.subscription.viewerId == userId
           && e.pos == Pos(e.row.subscription.updatedAt, e.row.subscription.creatorId)
           && PastCursor(e.pos, cursor)
           && e.row.subscriberCount == SubscriberCount(rows, userId)
  {
    Query(ByAtThenId, ViewerSubscriptions(rows, userId), cursor, limit)
  }

  /** Following `nextCursor` from the first page until it is null lists
      each of the caller's subscriptions exactly once. */
  lemma SubscriptionsListedOnce(rows: seq<Subscription>, userId: Id, limit: int)
    requires MinLimit <= limit <= MaxLimit
    requires UniquePairs(rows)
    ensures var table := ViewerSubscriptions(rows, userId);
      var walk := Flatten(Pages(ByAtThenId, table, None, limit));
      && multiset(walk) == multiset(table)
      && Sorted(ByAtThenId, walk)
      && Distinct(walk)
      && forall s | s in rows && s.viewerId == userId :: SubscriptionEntry(rows, userId, s) in walk
  {
    var table := ViewerSubscriptions(rows, userId);
    SelectDistinct(rows, (s: Subscription) => s.viewerId == userId, (s: Subscription) => SubscriptionEntry(rows, userId, s));
    ListsEveryRowOnce(table, limit);
    var walk := Flatten(Pages(ByAtThenId, table, None, limit));
    forall s | s in rows && s.viewerId == userId ensures SubscriptionEntry(rows, userId, s) in walk {
      assert SubscriptionEntry(rows, userId, s) in multiset(table);
    }
  }

  class SubscriptionTable {
    var rows: seq<Subscription>

    /** The key on (viewer, creator) holds. */
    predicate Valid()
      reads this
    {
      UniquePairs(rows)
    }

    constructor ()
      ensures rows == [] && Valid()
    {
      rows := [];
    }

    method Create(callerId: Id, userId: Id, now: Timestamp) returns (r: Result<Subscription>)
      requires Valid()
      modifies this
      ensures Valid()
      ensures r == Subscribe(old(rows), callerId, userId, now).result
      ensures rows == Subscribe(old(rows), callerId, userId, now).rows
    {
      SubscribeKeepsUnique(rows, callerId, userId, now);
      if userId == callerId {
        return Failure(BadRequest);
      }
      var existing := FindPair(rows, callerId, userId);
      if existing.Some? {
        return Failure(UniqueViolation);
      }
      var created := Subscription(callerId, userId, now);
      rows := rows + [created];
      return Success(created);
    }

    method Remove(callerId: Id, userId: Id) returns (r: Result<Option<Subscription>>)
      requires Valid()
      modifies this
      ensures Valid()
      ensures r == Unsubscribe(old(rows), callerId, userId).result
      ensures rows == Unsubscribe(old(rows), callerId, userId).rows
    {
      UnsubscribeKeepsUnique(rows, callerId, userId);
      if userId == callerId {
        return Failure(BadRequest);
      }
      var deleted := FindPair(rows, callerId, userId);
      rows := Filter(rows, (s: Subscription) => !IsPair(s, callerId, userId));
      return Success(deleted);
    }
  }
}
