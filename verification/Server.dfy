/**
  The account handlers of the server as they run, on a user manager and a message cache updated in
  place: reserving and releasing topics, trimming reservations and changing subscriptions.
 */
module Server {
  import opened Text
  import opened Wildcards
  import opened Authorization
  import AC = AccessControl
  import Ownership
  import Quota
  import Reservations
  import Manager
  import T = MessageTable
  import C = MessageCache

  /** The downward loop that gathers the topics beyond the limit. */
  method CollectExcess(reservations: seq<AC.Reservation>, limit: nat) returns (topics: seq<string>)
    ensures topics == Ownership.ExcessTopics(reservations, limit)
  {
    topics := [];
    var i := |reservations| - 1;
    while i >= limit
      invariant limit <= |reservations| ==> limit - 1 <= i
      invariant limit > |reservations| ==> topics == []
      invariant i < |reservations| && |topics| == |reservations| - 1 - i
      invariant forall j | 0 <= j < |topics| :: topics[j] == reservations[|reservations| - 1 - j].topic
    {
      topics := topics + [reservations[i].topic];
      i := i - 1;
    }
    GatheredExcess(reservations, limit, topics);
  }

  lemma GatheredExcess(rs: seq<AC.Reservation>, limit: nat, topics: seq<string>)
    requires |topics| == if limit < |rs| then |rs| - limit else 0
    requires forall j | 0 <= j < |topics| :: topics[j] == rs[|rs| - 1 - j].topic
    ensures topics == Ownership.ExcessTopics(rs, limit)
  {
  }

  /** Clock readings for as many topics as there are. */
  function Readings(n: nat, clock: nat -> int): seq<int>
  {
    seq(n, i requires 0 <= i < n => clock(i))
  }

  /** No clock reading is later than `now`. */
  ghost predicate NotAfter(clock: nat -> int, now: int)
  {
    forall i: nat :: clock(i) <= now
  }

  /** A row after the messages of some topics have been expired: only the expiry changes, it lies
      before `now`, and rows of other topics stay as they are. */
  predicate RowExpired(before: T.Row, after: T.Row, topics: seq<string>, now: int)
  {
    if before.topic in topics then after == before.(expires := after.expires) && after.expires < now else after == before
  }

  predicate MessagesExpired(before: seq<T.Row>, after: seq<T.Row>, topics: seq<string>, now: int)
  {
    |after| == |before| && forall i | 0 <= i < |before| :: RowExpired(before[i], after[i], topics, now)
  }

  lemma {:induction false} ExpiredTopicsLength(rows: seq<T.Row>, topics: seq<string>, clock: seq<int>)
    requires |topics| == |clock|
    ensures |C.ExpiredTopics(rows, topics, clock)| == |rows|
  {
    if topics != [] { ExpiredTopicsLength(rows, topics[..|topics| - 1], clock[..|topics| - 1]); }
  }

  lemma TopicsExpired(rows: seq<T.Row>, topics: seq<string>, clock: nat -> int, now: int)
    requires NotAfter(clock, now)
    ensures MessagesExpired(rows, C.ExpiredTopics(rows, topics, Readings(|topics|, clock)), topics, now)
  {
    var readings := Readings(|topics|, clock);
    var after := C.ExpiredTopics(rows, topics, readings);
    ExpiredTopicsLength(rows, topics, readings);
    forall i | 0 <= i < |rows| ensures RowExpired(rows[i], after[i], topics, now) {
      C.ExpiredTopicsRows(rows, topics, readings, i);
      if rows[i].topic in topics {
        var j: nat :| j < |topics| && topics[j] == rows[i].topic && after[i].expires == readings[j] - 1;
        assert readings[j] == clock(j) <= now;
      }
    }
  }

  /** Pruning after the messages of a topic have been expired: none of the topic that is published
      is left, and of other topics everything that has not expired. */
  lemma ExpiredThenPruned(before: seq<T.Row>, expired: seq<T.Row>, pruned: seq<T.Row>, topic: string, now: int)
    requires MessagesExpired(before, expired, [topic], now)
    requires forall r :: r in pruned <==> r in expired && !(r.published && r.expires <= now)
    ensures forall r | r in pruned && r.topic == topic :: !r.published
    ensures forall r | r in before && r.topic != topic && !(r.published && r.expires <= now) :: r in pruned
  {
    forall r | r in pruned && r.topic == topic ensures !r.published {
      var i :| 0 <= i < |expired| && expired[i] == r;
      assert RowExpired(before[i], expired[i], [topic], now);
    }
    forall r | r in before && r.topic != topic && !(r.published && r.expires <= now) ensures r in pruned {
      var i :| 0 <= i < |before| && before[i] == r;
      assert RowExpired(before[i], expired[i], [topic], now);
      assert expired[i] in expired;
    }
  }

  lemma UniqueAfterExpiry(before: seq<T.Row>, expired: seq<T.Row>, topics: seq<string>, now: int)
    requires T.UniqueMids(before) && MessagesExpired(before, expired, topics, now)
    ensures T.UniqueMids(expired)
  {
    forall i, j | 0 <= i < j < |expired| ensures expired[i].mid != expired[j].mid {
      assert RowExpired(before[i], expired[i], topics, now) && RowExpired(before[j], expired[j], topics, now);
    }
  }

  class Server {
    const manager: Manager.UserManager
    const cache: C.Cache

    constructor (manager: Manager.UserManager, cache: C.Cache)
      ensures this.manager == manager && this.cache == cache
    {
      this.manager, this.cache := manager, cache;
    }

    method HandleReservationAdd(username: string, topic: string, everyone: Permission) returns (status: AC.Status)
      requires Ownership.Consistent(manager.Db()) && Quota.AllWithinQuota(manager.Db())
      modifies manager`access
      ensures AC.Result(manager.Db(), status) == Ownership.HandleReservationAdd(old(manager.Db()), username, topic, everyone)
      ensures Ownership.Consistent(manager.Db()) && Quota.AllWithinQuota(manager.Db())
    {
      Ownership.ReserveConsistent(manager.Db(), username, topic, everyone);
      forall other
        ensures Quota.WithinQuota(Ownership.HandleReservationAdd(manager.Db(), username, topic, everyone).db, other)
      {
        Quota.ReserveWithinQuota(manager.Db(), username, topic, everyone, other);
      }
      if username !in manager.users {
        return AC.Unauthorized;
      }
      var u := manager.users[username];
      if !AllowedTopic(topic) {
        return AC.InvalidArgument;
      }
      if u.role == AC.RoleUser && u.tier.None? {
        return AC.Unauthorized;
      } else if AC.AllowReservation(manager.Db(), username, topic) != AC.Success {
        return AC.TopicOwnedByOthers;
      } else if u.role == AC.RoleUser {
        if !AC.HasReservation(manager.Db(), username, topic) {
          var reservations := AC.ReservationsCount(manager.Db(), username);
          if reservations >= AC.TierLimit(manager.Db(), u) {
            return AC.LimitReservations;
          }
        }
      }
      status := manager.AddReservation(username, topic, everyone);
    }

    /** Release a topic; on request its messages are expired and pruned at once. */
    method HandleReservationDelete(username: string, topic: string, deleteMessages: bool, clock: nat -> int, now: int)
      returns (status: AC.Status)
      requires Ownership.Consistent(manager.Db()) && T.UniqueMids(cache.rows) && NotAfter(clock, now)
      modifies manager`access, cache`rows
      ensures AC.Result(manager.Db(), status) == Ownership.HandleReservationDelete(old(manager.Db()), username, topic)
      ensures Ownership.Consistent(manager.Db())
      ensures status == AC.Success <==>
        AllowedTopic(topic) && AllowedUsername(username) && old(AC.HasReservation(manager.Db(), username, topic))
      ensures if status == AC.Success then Reservations.Released(old(manager.Db()), manager.Db(), username, topic)
              else manager.Db() == old(manager.Db())
      ensures status != AC.Success || !deleteMessages ==> cache.rows == old(cache.rows)
      ensures status == AC.Success && deleteMessages ==>
        && (forall r | r in cache.rows && r.topic == topic :: !r.published)
        && (forall r | r in old(cache.rows) && r.topic != topic && !(r.published && r.expires <= now) :: r in cache.rows)
    {
      Reservations.ReleaseExact(manager.Db(), username, topic);
      if !AllowedTopic(topic) {
        return AC.InvalidArgument;
      }
      if !AC.HasReservation(manager.Db(), username, topic) {
        return AC.Unauthorized;
      }
      status := manager.RemoveReservations(username, [topic]);
      if status == AC.Success && deleteMessages {
        ghost var before := cache.rows;
        TopicsExpired(before, [topic], clock, now);
        cache.ExpireMessages([topic], Readings(1, clock));
        ghost var expired := cache.rows;
        UniqueAfterExpiry(before, expired, [topic], now);
        cache.PruneMessages(now);
        ExpiredThenPruned(before, expired, cache.rows, topic, now);
      }
    }

    /** Drop the reservations beyond the limit and expire the messages of their topics; the prune
        started here deletes those that are published. */
    method RemoveExcessReservations(username: string, limit: nat, clock: nat -> int, ghost now: int)
      returns (status: AC.Status)
      requires Ownership.Consistent(manager.Db()) && NotAfter(clock, now)
      modifies manager`access, cache`rows
      ensures AC.Result(manager.Db(), status) == Ownership.RemoveExcessReservations(old(manager.Db()), username, limit)
      ensures Ownership.Consistent(manager.Db())
      ensures status == AC.Success ==>
        MessagesExpired(old(cache.rows), cache.rows, old(Ownership.Excess(manager.Db(), username, limit)), now)
      ensures status != AC.Success ==> cache.rows == old(cache.rows)
    {
      var reservations := AC.Reservations(manager.Db(), username);
      if |reservations| <= limit {
        return AC.Success;
      }
      var topics := CollectExcess(reservations, limit);
      status := manager.RemoveReservations(username, topics);
      if status == AC.Success {
        TopicsExpired(cache.rows, topics, clock, now);
        cache.ExpireMessages(topics, Readings(|topics|, clock));
      }
    }

    method ChangeOrResetTier(username: string, current: Option<string>, tier: Option<string>) returns (status: AC.Status)
      requires Ownership.Consistent(manager.Db())
      modifies manager`users
      ensures AC.Result(manager.Db(), status) == Ownership.TierStep(old(manager.Db()), username, current, tier)
      ensures Ownership.Consistent(manager.Db()) && manager.users.Keys == old(manager.users.Keys)
    {
      status := AC.Success;
      if tier.None? && current.Some? {
        status := manager.ResetTier(username);
      } else if tier.Some? && current != tier {
        status := manager.ChangeTier(username, tier.value);
      }
    }

    /** Trim, then change or reset the tier. */
    method TrimAndChangeTier(username: string, tier: Option<string>, limit: nat, clock: nat -> int, ghost now: int)
      returns (status: AC.Status)
      requires Ownership.Consistent(manager.Db()) && NotAfter(clock, now)
      requires username in manager.users && (tier.Some? ==> tier.value in manager.tiers)
      requires limit == Ownership.TierOptionLimit(manager.tiers, tier)
      modifies manager`users, manager`access, cache`rows
      ensures AC.Result(manager.Db(), status) == Ownership.UpdateSubscriptionAndTier(old(manager.Db()), username, tier)
      ensures Ownership.Consistent(manager.Db()) && manager.users.Keys == old(manager.users.Keys)
      ensures status == AC.Success ==>
        MessagesExpired(old(cache.rows), cache.rows, old(Ownership.Excess(manager.Db(), username, limit)), now)
    {
      var current := manager.users[username].tier;
      ghost var before := manager.Db();
      status := RemoveExcessReservations(username, limit, clock, now);
      ghost var trimmed := AC.Result(manager.Db(), status);
      Ownership.SubscriptionSteps(before, username, tier, trimmed);
      if status == AC.Success {
        status := ChangeOrResetTier(username, current, tier);
      }
    }

    /** Trim, change or reset the tier, then record the billing fields. */
    method UpdateSubscriptionAndTier(username: string, tier: Option<string>, billing: Manager.Billing, clock: nat -> int,
                                     ghost now: int)
      returns (status: AC.Status)
      requires Ownership.Consistent(manager.Db()) && NotAfter(clock, now)
      modifies manager`users, manager`access, manager`billing, cache`rows
      ensures AC.Result(manager.Db(), status) == Ownership.UpdateSubscriptionAndTier(old(manager.Db()), username, tier)
      ensures Ownership.Consistent(manager.Db())
      ensures status == AC.Success ==>
        && manager.billing == old(manager.billing)[username := billing]
        && var limit := Ownership.TierOptionLimit(manager.tiers, tier);
           MessagesExpired(old(cache.rows), cache.rows, old(Ownership.Excess(manager.Db(), username, limit)), now)
      ensures status != AC.Success ==> manager.billing == old(manager.billing)
      ensures AllowedUsername(username) && username in old(manager.users) && (tier.Some? ==> tier.value in manager.tiers) ==>
        && status == AC.Success && username in manager.users && manager.users[username].tier == tier
        && AC.ReservationsCount(manager.Db(), username) <= Ownership.TierOptionLimit(manager.tiers, tier)
    {
      if username !in manager.users || (tier.Some? && tier.value !in manager.tiers) {
        return AC.TierNotFound;
      }
      var limit := if tier.Some? then manager.tiers[tier.value] else 0;
      if AllowedUsername(username) { Reservations.SubscriptionChangeSucceeds(manager.Db(), username, tier); }
      status := TrimAndChangeTier(username, tier, limit, clock, now);
      if status == AC.Success {
        manager.ChangeBilling(username, billing);
      }
    }
  }
}
