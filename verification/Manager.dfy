/**
  user.Manager as it runs: tables updated in place, each method tied to the operation of
  AccessControl that it performs.
 */
module Manager {
  import opened Text
  import opened Wildcards
  import opened Authorization
  import AC = AccessControl
  import Ownership
  import Quota
  import Reservations

  datatype Billing = Billing(customer: string, subscription: string, status: string, interval: string,
                             paidUntil: int, cancelAt: int)

  class UserManager {
    var users: map<string, AC.Account>
    var tiers: map<string, nat>
    var access: AC.Acl
    var billing: map<string, Billing>

    function Db(): AC.Db
      reads this
    {
      AC.Db(users, tiers, access)
    }

    /** The row is the user's or owned by the user. */
    predicate BelongsTo(k: AC.Key, e: AC.Entry, username: string)
      reads this`users
    {
      username in users && (k.0 == users[username].id || e.owner == Some(users[username].id))
    }

    constructor ()
      ensures Db() == AC.Initial() && Ownership.Consistent(Db()) && Quota.AllWithinQuota(Db())
    {
      users := map[EVERYONE := AC.Account(AC.EVERYONE_ID, AC.RoleAnonymous, None, None)];
      tiers := map[];
      access := map[];
      billing := map[];
    }

    method AllowAccess(username: string, pattern: string, perm: Permission) returns (status: AC.Status)
      requires Ownership.Consistent(Db())
      modifies this`access
      ensures AC.Result(Db(), status) == AC.AllowAccess(old(Db()), username, pattern, perm)
      ensures status == AC.Success <==>
        (AllowedUsername(username) || username == EVERYONE) && AllowedTopicPattern(pattern) && username in users
      ensures status != AC.Success ==> access == old(access)
      ensures Ownership.Consistent(Db())
    {
      Ownership.GrantConsistent(Db(), username, pattern, perm);
      if !AllowedUsername(username) && username != EVERYONE {
        return AC.InvalidArgument;
      } else if !AllowedTopicPattern(pattern) {
        return AC.InvalidArgument;
      }
      if username !in users {
        return AC.ConstraintViolation;
      }
      var key := (users[username].id, ToSQLWildcard(pattern));
      access := access[key := AC.Entry(IsRead(perm), IsWrite(perm), None)];
      return AC.Success;
    }

    method ResetAccess(username: string, pattern: string) returns (status: AC.Status)
      requires Ownership.Consistent(Db())
      modifies this`access
      ensures AC.Result(Db(), status) == AC.ResetAccess(old(Db()), username, pattern)
      ensures status == AC.Success <==>
        && (AllowedUsername(username) || username == EVERYONE || username == "")
        && (AllowedTopicPattern(pattern) || pattern == "")
      ensures status != AC.Success ==> access == old(access)
      ensures status == AC.Success ==> Ownership.SubAcl(old(access), access)
      ensures status == AC.Success ==> forall k | k in old(access) ::
        k !in access <==>
          if username == "" && pattern == "" then true
          else BelongsTo(k, old(access)[k], username) && (pattern == "" || k.1 == ToSQLWildcard(pattern))
      ensures Ownership.Consistent(Db())
    {
      Ownership.ResetConsistent(Db(), username, pattern);
      if !AllowedUsername(username) && username != EVERYONE && username != "" {
        return AC.InvalidArgument;
      } else if !AllowedTopicPattern(pattern) && pattern != "" {
        return AC.InvalidArgument;
      }
      if username == "" && pattern == "" {
        access := map[];
      } else if pattern == "" {
        access := AC.DeleteUserAccess(access, AC.IdOf(Db(), username));
      } else {
        access := AC.DeleteTopicAccess(access, AC.IdOf(Db(), username), ToSQLWildcard(pattern));
      }
      return AC.Success;
    }

    /** The user comes to own exactly one more topic, other users own what they did, and if the guard
        let the reservation through the table stays consistent. */
    method AddReservation(username: string, topic: string, everyone: Permission) returns (status: AC.Status)
      requires Ownership.Consistent(Db())
      modifies this`access
      ensures AC.Result(Db(), status) == AC.AddReservation(old(Db()), username, topic, everyone)
      ensures status == AC.Success <==>
        AllowedUsername(username) && username != EVERYONE && AllowedTopic(topic) && username in users
      ensures status != AC.Success ==> Db() == old(Db())
      ensures status == AC.Success ==>
        && (forall n | n in users && n != EVERYONE ::
             AC.Owned(access, users[n].id)
             == old(AC.Owned(access, users[n].id)) + if n == username then {EscapeUnderscore(topic)} else {})
        && AC.EveryonePermission(access, EscapeUnderscore(topic)) == NewPermission(IsRead(everyone), IsWrite(everyone))
      ensures old(AC.AllowReservation(Db(), username, topic)) == AC.Success ==> Ownership.Consistent(Db())
    {
      if !AllowedUsername(username) || username == EVERYONE || !AllowedTopic(topic) {
        return AC.InvalidArgument;
      }
      if username !in users {
        return AC.ConstraintViolation;
      }
      AddedConsistent(Db(), username, topic, everyone);
      AddedOwned(Db(), username, topic, everyone);
      var id, stored := users[username].id, EscapeUnderscore(topic);
      access := access[(id, stored) := AC.Entry(true, true, Some(id))];
      var everyoneKey := (users[EVERYONE].id, stored);
      access := access[everyoneKey := AC.Entry(IsRead(everyone), IsWrite(everyone), Some(id))];
      return AC.Success;
    }

    /** All topics are validated before the first one is deleted. */
    method RemoveReservations(username: string, topics: seq<string>) returns (status: AC.Status)
      requires Ownership.Consistent(Db())
      modifies this`access
      ensures AC.Result(Db(), status) == AC.RemoveReservations(old(Db()), username, topics)
      ensures status == AC.Success <==>
        && AllowedUsername(username) && username != EVERYONE && topics != []
        && forall i | 0 <= i < |topics| :: AllowedTopic(topics[i])
      ensures status != AC.Success ==> access == old(access)
      ensures status == AC.Success ==> Ownership.SubAcl(old(access), access)
      ensures status == AC.Success ==> forall k | k in old(access) ::
        k !in access <==>
          && (BelongsTo(k, old(access)[k], username) || BelongsTo(k, old(access)[k], EVERYONE))
          && exists i :: 0 <= i < |topics| && k.1 == EscapeUnderscore(topics[i])
      ensures Ownership.Consistent(Db())
    {
      Ownership.RemoveConsistent(Db(), username, topics);
      if !AllowedUsername(username) || username == EVERYONE || topics == [] {
        return AC.InvalidArgument;
      }
      for i := 0 to |topics|
        invariant forall j | 0 <= j < i :: AllowedTopic(topics[j])
        invariant Db() == old(Db())
      {
        if !AllowedTopic(topics[i]) {
          return AC.InvalidArgument;
        }
      }
      RemovedExactly(Db(), username, topics);
      DeleteReservations(AC.IdOf(Db(), username), AC.IdOf(Db(), EVERYONE), topics);
      return AC.Success;
    }

    /** The rows of the user and of everyone, topic by topic. */
    method DeleteReservations(id: Option<string>, everyoneId: Option<string>, topics: seq<string>)
      modifies this`access
      ensures access == AC.RemoveTopics(old(access), id, everyoneId, topics)
    {
      for i := 0 to |topics|
        invariant access == AC.RemoveTopics(old(access), id, everyoneId, topics[..i])
      {
        assert topics[..i + 1][..i] == topics[..i];
        access := AC.DeleteTopicAccess(access, id, EscapeUnderscore(topics[i]));
        access := AC.DeleteTopicAccess(access, everyoneId, EscapeUnderscore(topics[i]));
      }
      assert topics[..|topics|] == topics;
    }

    method ChangeRole(username: string, role: AC.Role) returns (status: AC.Status)
      requires Ownership.Consistent(Db())
      modifies this`users, this`access
      ensures AC.Result(Db(), status) == AC.ChangeRole(old(Db()), username, role)
      ensures status == AC.Success <==> AllowedUsername(username) && role != AC.RoleAnonymous
      ensures users == if status == AC.Success && username in old(users)
                       then old(users)[username := old(users)[username].(role := role)] else old(users)
      ensures status != AC.Success || role == AC.RoleUser || username !in users ==> access == old(access)
      ensures status == AC.Success && role == AC.RoleAdmin ==>
        && Ownership.SubAcl(old(access), access)
        && forall k | k in old(access) :: k !in access <==> BelongsTo(k, old(access)[k], username)
      ensures Ownership.Consistent(Db())
    {
      Ownership.RoleConsistent(Db(), username, role);
      if !AllowedUsername(username) || role == AC.RoleAnonymous {
        return AC.InvalidArgument;
      }
      if username in users {
        users := users[username := users[username].(role := role)];
      }
      if role == AC.RoleAdmin {
        access := AC.DeleteUserAccess(access, AC.IdOf(Db(), username));
      }
      return AC.Success;
    }

    method CheckReservationsLimit(username: string, limit: nat) returns (status: AC.Status)
      ensures status == if username !in users then AC.UserNotFound
                        else if AC.OverLimit(Db(), username, limit) then AC.TooManyReservations else AC.Success
    {
      if username !in users {
        return AC.UserNotFound;
      }
      var u := users[username];
      if u.tier.Some? && limit < AC.TierLimit(Db(), u) {
        var reservations := AC.Reservations(Db(), username);
        if |reservations| > limit {
          return AC.TooManyReservations;
        }
      }
      return AC.Success;
    }

    /** On success only the tier of the user changes, and to one the user fits if the user fitted
        before; on failure nothing changes. */
    method ChangeTier(username: string, code: string) returns (status: AC.Status)
      requires Ownership.Consistent(Db())
      modifies this`users
      ensures AC.Result(Db(), status) == AC.ChangeTier(old(Db()), username, code)
      ensures status == AC.Success <==>
        AllowedUsername(username) && code in tiers && username in users && !old(AC.OverLimit(Db(), username, tiers[code]))
      ensures status == AC.Success ==> users == old(users)[username := old(users)[username].(tier := Some(code))]
      ensures status != AC.Success ==> users == old(users)
      ensures Ownership.Consistent(Db())
      ensures old(Quota.AllWithinQuota(Db())) ==> Quota.AllWithinQuota(Db())
    {
      TierStepKeeps(Db(), username, Some(code));
      if !AllowedUsername(username) {
        return AC.InvalidArgument;
      } else if code !in tiers {
        return AC.TierNotFound;
      }
      AC.LimitChecked(Db(), username, tiers[code]);
      status := CheckReservationsLimit(username, tiers[code]);
      if status == AC.Success {
        users := users[username := users[username].(tier := Some(code))];
      }
    }

    method ResetTier(username: string) returns (status: AC.Status)
      requires Ownership.Consistent(Db())
      modifies this`users
      ensures AC.Result(Db(), status) == AC.ResetTier(old(Db()), username)
      ensures status == AC.Success <==>
        && (AllowedUsername(username) || username == EVERYONE || username == "") && username in users
        && !old(AC.OverLimit(Db(), username, 0))
      ensures status == AC.Success ==> users == old(users)[username := old(users)[username].(tier := None)]
      ensures status != AC.Success ==> users == old(users)
      ensures Ownership.Consistent(Db())
      ensures old(Quota.AllWithinQuota(Db())) ==> Quota.AllWithinQuota(Db())
    {
      TierStepKeeps(Db(), username, None);
      if !AllowedUsername(username) && username != EVERYONE && username != "" {
        return AC.InvalidArgument;
      }
      AC.LimitChecked(Db(), username, 0);
      status := CheckReservationsLimit(username, 0);
      if status == AC.Success {
        users := users[username := users[username].(tier := None)];
      }
    }

    method ChangeBilling(username: string, b: Billing)
      modifies this`billing
      ensures billing == if username in users then old(billing)[username := b] else old(billing)
    {
      if username in users {
        billing := billing[username := b];
      }
    }
  }

  lemma RemovedExactly(db: AC.Db, username: string, topics: seq<string>)
    ensures var after := AC.RemoveTopics(db.access, AC.IdOf(db, username), AC.IdOf(db, EVERYONE), topics);
      && Ownership.SubAcl(db.access, after)
      && forall k | k in db.access ::
           k !in after <==>
             && (AC.Touches(k, db.access[k], AC.IdOf(db, username)) || AC.Touches(k, db.access[k], AC.IdOf(db, EVERYONE)))
             && exists i :: 0 <= i < |topics| && k.1 == EscapeUnderscore(topics[i])
  {
    var id, everyone := AC.IdOf(db, username), AC.IdOf(db, EVERYONE);
    var after := AC.RemoveTopics(db.access, id, everyone, topics);
    Ownership.RemoveTopicsIsSubAcl(db.access, id, everyone, topics);
    forall k | k in db.access
      ensures k !in after <==>
        && (AC.Touches(k, db.access[k], id) || AC.Touches(k, db.access[k], everyone))
        && exists i :: 0 <= i < |topics| && k.1 == EscapeUnderscore(topics[i])
    {
      Reservations.RemoveTopicsExact(db.access, id, everyone, topics, k);
      EscapedMember(topics, k.1);
    }
  }

  lemma EscapedMember(topics: seq<string>, stored: string)
    ensures stored in Reservations.EscapeAll(topics) <==> exists i :: 0 <= i < |topics| && stored == EscapeUnderscore(topics[i])
  {
    if i :| 0 <= i < |topics| && stored == EscapeUnderscore(topics[i]) {
      assert Reservations.EscapeAll(topics)[i] == stored;
    }
  }

  lemma AddedConsistent(db: AC.Db, username: string, topic: string, everyone: Permission)
    requires Ownership.Consistent(db) && AC.AddReservation(db, username, topic, everyone).status == AC.Success
    ensures AC.AllowReservation(db, username, topic) == AC.Success ==>
      Ownership.Consistent(AC.AddReservation(db, username, topic, everyone).db)
  {
    if AC.AllowReservation(db, username, topic) == AC.Success {
      Ownership.GuardedReservationKeepsAclOk(db, username, topic, everyone);
      assert Ownership.KnownId(db.users, db.users[username].id) && Ownership.KnownId(db.users, AC.EVERYONE_ID);
    }
  }

  lemma AddedOwned(db: AC.Db, username: string, topic: string, everyone: Permission)
    requires Ownership.Consistent(db) && AC.AddReservation(db, username, topic, everyone).status == AC.Success
    ensures var after := AC.AddReservation(db, username, topic, everyone).db;
      forall n | n in db.users && n != EVERYONE ::
        AC.Owned(after.access, db.users[n].id)
        == AC.Owned(db.access, db.users[n].id) + if n == username then {EscapeUnderscore(topic)} else {}
  {
    var after := AC.AddReservation(db, username, topic, everyone).db;
    forall n | n in db.users && n != EVERYONE
      ensures AC.Owned(after.access, db.users[n].id)
           == AC.Owned(db.access, db.users[n].id) + if n == username then {EscapeUnderscore(topic)} else {}
    {
      Quota.OwnedAfterReserve(db.access, db.users[username].id, EscapeUnderscore(topic), everyone, db.users[n].id);
    }
  }

  lemma TierStepKeeps(db: AC.Db, username: string, tier: Option<string>)
    requires Ownership.Consistent(db)
    ensures var after := if tier.Some? then AC.ChangeTier(db, username, tier.value).db else AC.ResetTier(db, username).db;
      Ownership.Consistent(after) && (Quota.AllWithinQuota(db) ==> Quota.AllWithinQuota(after))
  {
    var after := if tier.Some? then AC.ChangeTier(db, username, tier.value).db else AC.ResetTier(db, username).db;
    if tier.Some? ==> tier.value in db.tiers { Ownership.TierConsistent(db, username, tier); }
    if Quota.AllWithinQuota(db) {
      forall other ensures Quota.WithinQuota(after, other) {
        Quota.TierStepWithinQuota(db, username, tier, other);
      }
    }
  }
}
