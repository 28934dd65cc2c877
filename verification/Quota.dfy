/**
  The owner of a topic and the reservation quotas, over runs.
 */
module Quota {
  import opened Text
  import opened Wildcards
  import opened Authorization
  import opened AccessControl
  import opened Ownership

  // ---------- the owner of a topic ----------

  /** The rows the owner query returns for a topic. */
  predicate OwnerRow(db: Db, topic: string, k: Key)
  {
    k in db.access && k.1 == EscapeUnderscore(topic) && db.access[k].owner == Some(k.0)
  }

  /** After every run the owner query returns at most one row, and every row on the topic that has
      an owner names the same one. */
  lemma OwnerUnique(ops: seq<Op>, topic: string, j: Key, k: Key)
    requires var db := Run(Initial(), ops);
      OwnerRow(db, topic, j) && k in db.access && k.1 == EscapeUnderscore(topic) && db.access[k].owner.Some?
    ensures var db := Run(Initial(), ops);
      db.access[k].owner == Some(j.0) && (k == j || k.0 == EVERYONE_ID)
  {
    RunConsistent(ops);
  }

  // ---------- quota ----------

  /** A regular user owns no more topics than the tier allows, and none without a tier. */
  ghost predicate WithinQuota(db: Db, name: string)
  {
    name in db.users && db.users[name].role == RoleUser ==>
      ReservationsCount(db, name) <= TierLimit(db, db.users[name])
  }

  ghost predicate AllWithinQuota(db: Db)
  {
    forall name :: WithinQuota(db, name)
  }

  /** Two operations can break a quota: making an administrator a regular user, and editing the
      limit of a tier. They are safe when the users concerned fit the limit that will apply. */
  predicate Safe(db: Db, op: Op)
  {
    match op
    case SetRole(name, RoleUser) =>
      AllowedUsername(name) && name in db.users ==>
        ReservationsCount(db, name) <= TierLimit(db, db.users[name])
    case EditTier(code, limit) =>
      code in db.tiers ==>
        forall n | n in db.users && db.users[n].role == RoleUser && db.users[n].tier == Some(code) ::
          ReservationsCount(db, n) <= limit
    case _ => true
  }

  ghost predicate SafeRun(ops: seq<Op>)
  {
    forall i | 0 <= i < |ops| :: Safe(Run(Initial(), ops[..i]), ops[i])
  }

  lemma SubsetSize(a: set<string>, b: set<string>)
    requires a <= b
    ensures |a| <= |b|
  {
    assert b == a + (b - a);
  }

  /** Fewer owned topics and no lower limits keep the quota. */
  lemma QuotaKept(before: Db, after: Db, name: string)
    requires AllWithinQuota(before) && name in before.users && name in after.users
    requires before.users[name].id == after.users[name].id
    requires after.users[name].role == RoleUser ==> before.users[name].role == RoleUser
    requires Owned(after.access, after.users[name].id) <= Owned(before.access, after.users[name].id)
    requires TierLimit(before, before.users[name]) <= TierLimit(after, after.users[name])
    ensures WithinQuota(after, name)
  {
    assert WithinQuota(before, name);
    SubsetSize(Owned(after.access, after.users[name].id), Owned(before.access, after.users[name].id));
  }

  lemma OwnedAfterReserve(acl: Acl, id: string, stored: string, everyone: Permission, other: string)
    requires id != EVERYONE_ID && other != EVERYONE_ID
    ensures Owned(Reserved(acl, id, stored, everyone), other)
         == if other == id then Owned(acl, id) + {stored} else Owned(acl, other)
  {
  }

  lemma EveryoneOwnsNothing(db: Db)
    requires Consistent(db)
    ensures Owned(db.access, EVERYONE_ID) == {}
  {
  }

  lemma ReserveWithinQuota(db: Db, name: string, topic: string, perm: Permission, other: string)
    requires Consistent(db) && AllWithinQuota(db)
    ensures WithinQuota(HandleReservationAdd(db, name, topic, perm).db, other)
  {
    var r := HandleReservationAdd(db, name, topic, perm);
    assert WithinQuota(db, other);
    if r.status == Success && other in db.users {
      var id, stored := db.users[name].id, EscapeUnderscore(topic);
      if other == EVERYONE {
        ReserveConsistent(db, name, topic, perm);
        EveryoneOwnsNothing(r.db);
      } else {
        OwnedAfterReserve(db.access, id, stored, perm, db.users[other].id);
      }
    }
  }

  lemma GrantWithinQuota(db: Db, name: string, pattern: string, perm: Permission, other: string)
    requires Consistent(db) && AllWithinQuota(db)
    ensures WithinQuota(AllowAccess(db, name, pattern, perm).db, other)
  {
    var after := AllowAccess(db, name, pattern, perm).db;
    NoNewOwnersKeepsAclOk(db.access, after.access);
    if other in db.users { QuotaKept(db, after, other); }
  }

  lemma SubAclWithinQuota(db: Db, acl: Acl, other: string)
    requires Consistent(db) && AllWithinQuota(db) && SubAcl(db.access, acl)
    ensures WithinQuota(db.(access := acl), other)
  {
    NoNewOwnersKeepsAclOk(db.access, acl);
    if other in db.users { QuotaKept(db, db.(access := acl), other); }
  }

  lemma RegisterWithinQuota(db: Db, name: string, id: string, role: Role, other: string)
    requires Consistent(db) && AllWithinQuota(db)
    ensures WithinQuota(AddUser(db, name, id, role).db, other)
  {
    var r := AddUser(db, name, id, role);
    if r.status == Success && other == name {
      forall k | k in db.access ensures k.0 != id {
        assert KnownId(db.users, k.0);
      }
      assert Owned(db.access, id) == {};
    } else if other in db.users {
      QuotaKept(db, r.db, other);
    }
  }

  lemma DeleteUsersWithinQuota(db: Db, names: set<string>, other: string)
    requires Consistent(db) && AllWithinQuota(db)
    ensures WithinQuota(DeleteUsers(db, names), other)
  {
    var after := DeleteUsers(db, names);
    NoNewOwnersKeepsAclOk(db.access, after.access);
    if other in after.users { QuotaKept(db, after, other); }
  }

  lemma ReservationsLength(db: Db, name: string)
    ensures |Reservations(db, name)| == ReservationsCount(db, name)
  {
  }

  /** The tier check lets a change through only if the user fits the new limit. */
  lemma TierChangeWithinQuota(db: Db, name: string, tier: Option<string>, other: string)
    requires Consistent(db) && AllWithinQuota(db) && name in db.users
    requires tier.Some? ==> tier.value in db.tiers
    requires CheckReservationsLimit(db, name, if tier.Some? then db.tiers[tier.value] else 0) == Success
    ensures WithinQuota(db.(users := db.users[name := db.users[name].(tier := tier)]), other)
  {
    assert WithinQuota(db, other);
    ReservationsLength(db, name);
  }

  lemma TierEditWithinQuota(db: Db, tiers: map<string, nat>, other: string)
    requires Consistent(db) && AllWithinQuota(db)
    requires forall n | n in db.users && db.users[n].role == RoleUser && db.users[n].tier.Some? ::
               && db.users[n].tier.value in tiers
               && ReservationsCount(db, n) <= tiers[db.users[n].tier.value]
    ensures WithinQuota(db.(tiers := tiers), other)
  {
    assert WithinQuota(db, other);
  }

  lemma AllCounted(db: Db)
    requires AllWithinQuota(db)
    ensures forall n | n in db.users && db.users[n].role == RoleUser ::
              ReservationsCount(db, n) <= TierLimit(db, db.users[n])
  {
    forall n | n in db.users && db.users[n].role == RoleUser
      ensures ReservationsCount(db, n) <= TierLimit(db, db.users[n])
    {
      assert WithinQuota(db, n);
    }
  }

  lemma TierTableWithinQuota(db: Db, tiers: map<string, nat>, other: string)
    requires Consistent(db) && AllWithinQuota(db)
    requires forall n | n in db.users && db.users[n].tier.Some? ::
               var c := db.users[n].tier.value; c in tiers && tiers[c] == db.tiers[c]
    ensures WithinQuota(db.(tiers := tiers), other)
  {
    AllCounted(db);
    TierEditWithinQuota(db, tiers, other);
  }

  lemma RoleWithinQuota(db: Db, name: string, role: Role, other: string)
    requires Consistent(db) && AllWithinQuota(db) && Safe(db, SetRole(name, role))
    ensures WithinQuota(ChangeRole(db, name, role).db, other)
  {
    var acl := DeleteUserAccess(db.access, IdOf(db, name));
    SubAclWithinQuota(db, acl, other);
    assert WithinQuota(db, other);
  }

  lemma MarkWithinQuota(db: Db, name: string, at: int, other: string)
    requires Consistent(db) && AllWithinQuota(db)
    ensures WithinQuota(MarkUserRemoved(db, name, at).db, other)
  {
    SubAclWithinQuota(db, DeleteUserAccess(db.access, IdOf(db, name)), other);
    assert WithinQuota(db, other);
  }

  lemma RemoveWithinQuota(db: Db, name: string, topics: seq<string>, other: string)
    requires Consistent(db) && AllWithinQuota(db)
    ensures WithinQuota(RemoveReservations(db, name, topics).db, other)
  {
    RemoveReservationsShape(db, name, topics);
    SubAclWithinQuota(db, RemoveReservations(db, name, topics).db.access, other);
  }

  lemma TrimWithinQuota(db: Db, name: string, limit: nat)
    requires Consistent(db) && AllWithinQuota(db)
    ensures AllWithinQuota(RemoveExcessReservations(db, name, limit).db)
  {
    var excess := Excess(db, name, limit);
    var after := RemoveExcessReservations(db, name, limit).db;
    forall n ensures WithinQuota(after, n) {
      if excess == [] {
        assert WithinQuota(db, n);
      } else {
        RemoveWithinQuota(db, name, excess, n);
      }
    }
  }

  lemma SubscribeWithinQuota(db: Db, name: string, tier: Option<string>, other: string)
    requires Consistent(db) && AllWithinQuota(db)
    ensures WithinQuota(UpdateSubscriptionAndTier(db, name, tier).db, other)
  {
    if name in db.users && (tier.Some? ==> tier.value in db.tiers) {
      var limit := TierOptionLimit(db.tiers, tier);
      var trimmed := RemoveExcessReservations(db, name, limit);
      TrimConsistent(db, name, limit);
      TrimWithinQuota(db, name, limit);
      SubscriptionSteps(db, name, tier, trimmed);
      ChosenTierWithinQuota(trimmed.db, name, db.users[name].tier, tier, other);
      assert WithinQuota(trimmed.db, other);
    } else {
      assert WithinQuota(db, other);
    }
  }

  lemma TierStepWithinQuota(db: Db, name: string, tier: Option<string>, other: string)
    requires Consistent(db) && AllWithinQuota(db)
    ensures WithinQuota(ResetTier(db, name).db, other)
    ensures tier.Some? ==> WithinQuota(ChangeTier(db, name, tier.value).db, other)
  {
    assert WithinQuota(db, other);
    if ResetTier(db, name).status == Success { TierChangeWithinQuota(db, name, None, other); }
    if tier.Some? && ChangeTier(db, name, tier.value).status == Success {
      TierChangeWithinQuota(db, name, tier, other);
    }
  }

  lemma ChosenTierWithinQuota(db: Db, name: string, current: Option<string>, tier: Option<string>, other: string)
    requires Consistent(db) && AllWithinQuota(db)
    ensures WithinQuota(TierStep(db, name, current, tier).db, other)
  {
    TierStepWithinQuota(db, name, tier, other);
    assert WithinQuota(db, other);
  }

  lemma TierTableOpWithinQuota(db: Db, op: Op, other: string)
    requires Consistent(db) && AllWithinQuota(db) && Safe(db, op) && TierTableOp(op)
    ensures WithinQuota(Apply(db, op), other)
  {
    match op
    case NewTier(code, limit) => TierTableWithinQuota(db, AddTier(db, code, limit).db.tiers, other);
    case EditTier(code, limit) =>
      AllCounted(db);
      TierEditWithinQuota(db, UpdateTier(db, code, limit).db.tiers, other);
    case DropTier(code) => TierTableWithinQuota(db, RemoveTier(db, code).db.tiers, other);
  }

  lemma TierOpWithinQuota(db: Db, op: Op, other: string)
    requires Consistent(db) && AllWithinQuota(db) && Safe(db, op) && TierOp(op) && !TierTableOp(op)
    ensures WithinQuota(Apply(db, op), other)
  {
    match op
    case SetTier(name, code) => TierStepWithinQuota(db, name, Some(code), other);
    case ClearTier(name) => TierStepWithinQuota(db, name, None, other);
    case Subscribe(name, tier) => SubscribeWithinQuota(db, name, tier, other);
  }

  lemma AccountOpWithinQuota(db: Db, op: Op, other: string)
    requires Consistent(db) && AllWithinQuota(db) && Safe(db, op) && AccountOp(op) && !TierOp(op)
    ensures WithinQuota(Apply(db, op), other)
  {
    assert WithinQuota(db, other);
    match op
    case SetRole(name, role) => RoleWithinQuota(db, name, role, other);
    case Register(name, id, role) => RegisterWithinQuota(db, name, id, role, other);
    case Unregister(name) => DeleteUsersWithinQuota(db, {name}, other);
    case MarkRemoved(name, at) => MarkWithinQuota(db, name, at, other);
    case PurgeRemoved(at) => DeleteUsersWithinQuota(db, MarkedBefore(db, at), other);
  }

  lemma ApplyWithinQuota(db: Db, op: Op, other: string)
    requires Consistent(db) && AllWithinQuota(db) && Safe(db, op)
    ensures WithinQuota(Apply(db, op), other)
  {
    assert WithinQuota(db, other);
    if TierTableOp(op) {
      TierTableOpWithinQuota(db, op, other);
    } else if TierOp(op) {
      TierOpWithinQuota(db, op, other);
    } else if AccountOp(op) {
      AccountOpWithinQuota(db, op, other);
    } else {
      match op
      case Grant(name, pattern, perm) => GrantWithinQuota(db, name, pattern, perm, other);
      case Reset(name, pattern) => SubAclWithinQuota(db, ResetAccess(db, name, pattern).db.access, other);
      case Reserve(name, topic, perm) => ReserveWithinQuota(db, name, topic, perm, other);
      case Release(name, topic) => RemoveWithinQuota(db, name, [topic], other);
      case Remove(name, topics) => RemoveWithinQuota(db, name, topics, other);
    }
  }

  /** After every safe run, no regular user owns more topics than the tier allows. */
  lemma {:induction false} RunWithinQuota(ops: seq<Op>)
    requires SafeRun(ops)
    ensures AllWithinQuota(Run(Initial(), ops))
  {
    if ops != [] {
      var n := |ops| - 1;
      assert forall i | 0 <= i < n :: ops[..n][..i] == ops[..i] && ops[..n][i] == ops[i];
      RunWithinQuota(ops[..n]);
      RunConsistent(ops[..n]);
      forall name ensures WithinQuota(Run(Initial(), ops), name) {
        ApplyWithinQuota(Run(Initial(), ops[..n]), ops[n], name);
      }
    }
  }

  /** From a consistent database within quota, exactly the safe steps stay within quota. */
  lemma SafeIsExact(db: Db, op: Op)
    requires Consistent(db) && AllWithinQuota(db)
    ensures AllWithinQuota(Apply(db, op)) <==> Safe(db, op)
  {
    if Safe(db, op) {
      forall name ensures WithinQuota(Apply(db, op), name) {
        ApplyWithinQuota(db, op, name);
      }
    } else if op.SetRole? {
      var after := ChangeRole(db, op.name, RoleUser).db;
      assert TierLimit(after, after.users[op.name]) == TierLimit(db, db.users[op.name]);
      assert !WithinQuota(after, op.name);
    } else {
      var n :| n in db.users && db.users[n].role == RoleUser && db.users[n].tier == Some(op.code)
               && ReservationsCount(db, n) > op.limit;
      assert !WithinQuota(UpdateTier(db, op.code, op.limit).db, n);
    }
  }
}
