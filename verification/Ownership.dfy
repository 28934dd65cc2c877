/**
  Runs over the user database: the account handlers, the operations of user.Manager, and what every
  run keeps. Each request is one atomic step that sees the stored account.
 */
module Ownership {
  import opened Text
  import opened Wildcards
  import opened Authorization
  import opened AccessControl

  // ---------- account handlers ----------

  /** handleAccountReservationAdd: the guards, then AddReservation. */
  function HandleReservationAdd(db: Db, username: string, topic: string, everyone: Permission): Result
  {
    if username !in db.users then Result(db, Unauthorized)
    else
      var u := db.users[username];
      if !AllowedTopic(topic) then Result(db, InvalidArgument)
      else if u.role == RoleUser && u.tier.None? then Result(db, Unauthorized)
      else if AllowReservation(db, username, topic) != Success then Result(db, TopicOwnedByOthers)
      else if u.role == RoleUser && !HasReservation(db, username, topic)
              && ReservationsCount(db, username) >= TierLimit(db, u) then Result(db, LimitReservations)
      else AddReservation(db, username, topic, everyone)
  }

  function HandleReservationDelete(db: Db, username: string, topic: string): Result
  {
    if !AllowedTopic(topic) then Result(db, InvalidArgument)
    else if !HasReservation(db, username, topic) then Result(db, Unauthorized)
    else RemoveReservations(db, username, [topic])
  }

  function Topics(rs: seq<Reservation>): seq<string>
  {
    seq(|rs|, i requires 0 <= i < |rs| => rs[i].topic)
  }

  function Reverse(s: seq<string>): seq<string>
  {
    seq(|s|, i requires 0 <= i < |s| => s[|s| - 1 - i])
  }

  /** The topics beyond the limit, last one first. */
  function ExcessTopics(rs: seq<Reservation>, limit: nat): seq<string>
  {
    if |rs| <= limit then [] else Reverse(Topics(rs)[limit..])
  }

  function Excess(db: Db, username: string, limit: nat): seq<string>
  {
    ExcessTopics(Reservations(db, username), limit)
  }

  function RemoveExcessReservations(db: Db, username: string, limit: nat): Result
  {
    var excess := Excess(db, username, limit);
    if excess == [] then Result(db, Success) else RemoveReservations(db, username, excess)
  }

  /** The tier of a user who had the tier `current` is changed, reset or left as it is. */
  function TierStep(db: Db, username: string, current: Option<string>, tier: Option<string>): Result
  {
    if tier.None? && current.Some? then ResetTier(db, username)
    else if tier.Some? && current != tier then ChangeTier(db, username, tier.value)
    else Result(db, Success)
  }

  /** The reservation limit of a tier, or without a tier. */
  function TierOptionLimit(tiers: map<string, nat>, tier: Option<string>): nat
  {
    if tier.Some? && tier.value in tiers then tiers[tier.value] else 0
  }

  function UpdateSubscriptionAndTier(db: Db, username: string, tier: Option<string>): Result
  {
    if username !in db.users || (tier.Some? && tier.value !in db.tiers) then Result(db, TierNotFound)
    else
      var trimmed := RemoveExcessReservations(db, username, TierOptionLimit(db.tiers, tier));
      if trimmed.status != Success then trimmed
      else TierStep(trimmed.db, username, db.users[username].tier, tier)
  }

  lemma SubscriptionSteps(db: Db, username: string, tier: Option<string>, trimmed: Result)
    requires username in db.users && (tier.Some? ==> tier.value in db.tiers)
    requires trimmed == RemoveExcessReservations(db, username, TierOptionLimit(db.tiers, tier))
    ensures UpdateSubscriptionAndTier(db, username, tier)
         == if trimmed.status != Success then trimmed
            else TierStep(trimmed.db, username, db.users[username].tier, tier)
  {
  }

  // ---------- runs ----------

  datatype Op =
    | Grant(name: string, pattern: string, perm: Permission)
    | Reset(name: string, pattern: string)
    | Reserve(name: string, topic: string, perm: Permission)
    | Release(name: string, topic: string)
    | Remove(name: string, topics: seq<string>)
    | SetRole(name: string, role: Role)
    | Register(name: string, id: string, role: Role)
    | Unregister(name: string)
    | MarkRemoved(name: string, at: int)
    | PurgeRemoved(at: int)
    | NewTier(code: string, limit: nat)
    | EditTier(code: string, limit: nat)
    | DropTier(code: string)
    | SetTier(name: string, code: string)
    | ClearTier(name: string)
    | Subscribe(name: string, tier: Option<string>)

  function Apply(db: Db, op: Op): Db
  {
    match op
    case Grant(name, pattern, perm) => AllowAccess(db, name, pattern, perm).db
    case Reset(name, pattern) => ResetAccess(db, name, pattern).db
    case Reserve(name, topic, perm) => HandleReservationAdd(db, name, topic, perm).db
    case Release(name, topic) => HandleReservationDelete(db, name, topic).db
    case Remove(name, topics) => RemoveReservations(db, name, topics).db
    case SetRole(name, role) => ChangeRole(db, name, role).db
    case Register(name, id, role) => AddUser(db, name, id, role).db
    case Unregister(name) => RemoveUser(db, name).db
    case MarkRemoved(name, at) => MarkUserRemoved(db, name, at).db
    case PurgeRemoved(at) => RemoveDeletedUsers(db, at)
    case NewTier(code, limit) => AddTier(db, code, limit).db
    case EditTier(code, limit) => UpdateTier(db, code, limit).db
    case DropTier(code) => RemoveTier(db, code).db
    case SetTier(name, code) => ChangeTier(db, name, code).db
    case ClearTier(name) => ResetTier(db, name).db
    case Subscribe(name, tier) => UpdateSubscriptionAndTier(db, name, tier).db
  }

  function Run(db: Db, ops: seq<Op>): Db
  {
    if ops == [] then db else Apply(Run(db, ops[..|ops| - 1]), ops[|ops| - 1])
  }

  /** A run one step longer. */
  lemma RunSnoc(db: Db, ops: seq<Op>, op: Op)
    ensures Run(db, ops + [op]) == Apply(Run(db, ops), op)
  {
    assert (ops + [op])[..|ops|] == ops;
  }

  // ---------- the invariant ----------

  predicate StoredTopic(s: string)
  {
    AllowedTopic(UnescapeUnderscore(s)) && EscapeUnderscore(UnescapeUnderscore(s)) == s
  }

  /** A row with an owner belongs to that owner, with full access, or to everyone. */
  predicate TaggedRowOk(k: Key, e: Entry)
  {
    e.owner.Some? ==>
      && e.owner.value != EVERYONE_ID
      && StoredTopic(k.1)
      && (k.0 == EVERYONE_ID || (k.0 == e.owner.value && e.read && e.write))
  }

  /** All rows of one stored topic that have an owner have the same owner. */
  ghost predicate OneOwnerPerTopic(acl: Acl)
  {
    forall j, k | j in acl && k in acl && j.1 == k.1 && acl[j].owner.Some? && acl[k].owner.Some? ::
      acl[j].owner == acl[k].owner
  }

  ghost predicate AclOk(acl: Acl)
  {
    (forall k | k in acl :: TaggedRowOk(k, acl[k])) && OneOwnerPerTopic(acl)
  }

  ghost predicate KnownId(users: map<string, Account>, id: string)
  {
    exists n :: n in users && users[n].id == id
  }

  ghost predicate UsersOk(users: map<string, Account>)
  {
    && EVERYONE in users && users[EVERYONE].id == EVERYONE_ID && users[EVERYONE].deleted.None?
    && forall m, n | m in users && n in users && users[m].id == users[n].id :: m == n
  }

  ghost predicate KeysOk(db: Db)
  {
    && (forall k | k in db.access ::
          && KnownId(db.users, k.0)
          && (db.access[k].owner.Some? ==> KnownId(db.users, db.access[k].owner.value)))
    && (forall n | n in db.users && db.users[n].tier.Some? :: db.users[n].tier.value in db.tiers)
  }

  ghost predicate Consistent(db: Db)
  {
    UsersOk(db.users) && KeysOk(db) && AclOk(db.access)
  }

  // ---------- how the operations change the table ----------

  /** No row of `after` has an owner it did not have in `before`. */
  ghost predicate NoNewOwners(before: Acl, after: Acl)
  {
    forall k | k in after && after[k].owner.Some? :: k in before && before[k] == after[k]
  }

  ghost predicate SubAcl(before: Acl, after: Acl)
  {
    forall k | k in after :: k in before && before[k] == after[k]
  }

  lemma NoNewOwnersKeepsAclOk(before: Acl, after: Acl)
    requires AclOk(before) && NoNewOwners(before, after)
    ensures AclOk(after)
    ensures forall id :: Owned(after, id) <= Owned(before, id)
  {
  }

  lemma {:induction false} RemoveTopicsIsSubAcl(acl: Acl, id: Option<string>, everyone: Option<string>, topics: seq<string>)
    ensures SubAcl(acl, RemoveTopics(acl, id, everyone, topics))
  {
    if topics != [] {
      RemoveTopicsIsSubAcl(acl, id, everyone, topics[..|topics| - 1]);
    }
  }

  /** A guarded reservation finds only rows of the reserving user on the topic. */
  lemma GuardedReservationKeepsAclOk(db: Db, username: string, topic: string, everyone: Permission)
    requires Consistent(db) && username in db.users
    requires AllowReservation(db, username, topic) == Success
    requires AddReservation(db, username, topic, everyone).status == Success
    ensures AclOk(AddReservation(db, username, topic, everyone).db.access)
  {
    var id := db.users[username].id;
    var stored := EscapeUnderscore(topic);
    UnescapeEscape(topic, '_');
    forall k | k in db.access && k.1 == stored ensures db.access[k].owner == Some(id) {
      assert !Blocks(db, username, stored, k);
    }
    ReservedAclOk(db.access, id, stored, everyone);
  }

  lemma ReservedAclOk(acl: Acl, id: string, stored: string, everyone: Permission)
    requires AclOk(acl) && id != EVERYONE_ID && StoredTopic(stored)
    requires forall k | k in acl && k.1 == stored :: acl[k].owner == Some(id)
    ensures AclOk(Reserved(acl, id, stored, everyone))
  {
    var after := Reserved(acl, id, stored, everyone);
    assert forall k | k in after && k.1 == stored :: after[k].owner == Some(id);
    assert forall k | k in after && k.1 != stored :: k in acl && after[k] == acl[k];
  }

  lemma DeleteUsersConsistent(db: Db, names: set<string>)
    requires Consistent(db) && EVERYONE !in names
    ensures Consistent(DeleteUsers(db, names))
  {
    var after := DeleteUsers(db, names);
    NoNewOwnersKeepsAclOk(db.access, after.access);
    forall k | k in after.access
      ensures KnownId(after.users, k.0)
      ensures after.access[k].owner.Some? ==> KnownId(after.users, after.access[k].owner.value)
    {
      var n :| n in db.users && db.users[n].id == k.0;
      assert n in after.users;
      if after.access[k].owner.Some? {
        var o :| o in db.users && db.users[o].id == after.access[k].owner.value;
        assert o in after.users;
      }
    }
  }

  lemma SubAclConsistent(db: Db, acl: Acl)
    requires Consistent(db) && SubAcl(db.access, acl)
    ensures Consistent(db.(access := acl))
  {
  }

  /** An account may change its role, tier or removal mark. */
  lemma AccountConsistent(db: Db, name: string, account: Account)
    requires Consistent(db) && name in db.users && account.id == db.users[name].id
    requires name == EVERYONE ==> account.deleted.None?
    requires account.tier.Some? ==> account.tier.value in db.tiers
    ensures Consistent(db.(users := db.users[name := account]))
  {
    var users := db.users[name := account];
    forall id | KnownId(db.users, id) ensures KnownId(users, id) {
      var n :| n in db.users && db.users[n].id == id;
      assert n in users;
    }
  }

  lemma RemoveReservationsShape(db: Db, username: string, topics: seq<string>)
    ensures var r := RemoveReservations(db, username, topics).db;
      r.users == db.users && r.tiers == db.tiers && SubAcl(db.access, r.access)
  {
    RemoveTopicsIsSubAcl(db.access, IdOf(db, username), IdOf(db, EVERYONE), topics);
  }

  lemma GrantConsistent(db: Db, name: string, pattern: string, perm: Permission)
    requires Consistent(db)
    ensures Consistent(AllowAccess(db, name, pattern, perm).db)
  {
    var after := AllowAccess(db, name, pattern, perm).db;
    NoNewOwnersKeepsAclOk(db.access, after.access);
  }

  lemma ReserveConsistent(db: Db, name: string, topic: string, perm: Permission)
    requires Consistent(db)
    ensures Consistent(HandleReservationAdd(db, name, topic, perm).db)
  {
    var r := HandleReservationAdd(db, name, topic, perm);
    if r.status == Success {
      GuardedReservationKeepsAclOk(db, name, topic, perm);
      var id := db.users[name].id;
      assert KnownId(db.users, id) && KnownId(db.users, EVERYONE_ID);
    }
  }

  lemma RegisterConsistent(db: Db, name: string, id: string, role: Role)
    requires Consistent(db)
    ensures Consistent(AddUser(db, name, id, role).db)
  {
    var after := AddUser(db, name, id, role).db;
    forall i | KnownId(db.users, i) ensures KnownId(after.users, i) {
      var n :| n in db.users && db.users[n].id == i;
      assert n in after.users;
    }
  }

  lemma RemoveConsistent(db: Db, name: string, topics: seq<string>)
    requires Consistent(db)
    ensures Consistent(RemoveReservations(db, name, topics).db)
  {
    RemoveReservationsShape(db, name, topics);
    SubAclConsistent(db, RemoveReservations(db, name, topics).db.access);
  }

  lemma TrimConsistent(db: Db, name: string, limit: nat)
    requires Consistent(db)
    ensures var r := RemoveExcessReservations(db, name, limit).db;
      Consistent(r) && r.users == db.users && r.tiers == db.tiers
  {
    var excess := Excess(db, name, limit);
    if excess != [] {
      RemoveConsistent(db, name, excess);
      RemoveReservationsShape(db, name, excess);
    }
  }

  lemma TierConsistent(db: Db, name: string, tier: Option<string>)
    requires Consistent(db) && (tier.Some? ==> tier.value in db.tiers)
    ensures name in db.users ==> Consistent(db.(users := db.users[name := db.users[name].(tier := tier)]))
  {
    if name in db.users { AccountConsistent(db, name, db.users[name].(tier := tier)); }
  }

  lemma RoleConsistent(db: Db, name: string, role: Role)
    requires Consistent(db)
    ensures Consistent(ChangeRole(db, name, role).db)
  {
    if name in db.users {
      AccountConsistent(db, name, db.users[name].(role := role));
      var changed := db.(users := db.users[name := db.users[name].(role := role)]);
      SubAclConsistent(changed, DeleteUserAccess(db.access, IdOf(db, name)));
    }
    SubAclConsistent(db, DeleteUserAccess(db.access, IdOf(db, name)));
  }

  lemma MarkConsistent(db: Db, name: string, at: int)
    requires Consistent(db)
    ensures Consistent(MarkUserRemoved(db, name, at).db)
  {
    if AllowedUsername(name) && name in db.users {
      UsernameAboveEveryone(name);
      var marked := db.users[name].(deleted := Some(at));
      AccountConsistent(db, name, marked);
      SubAclConsistent(db.(users := db.users[name := marked]), DeleteUserAccess(db.access, IdOf(db, name)));
    }
  }

  lemma UnregisterConsistent(db: Db, name: string)
    requires Consistent(db)
    ensures Consistent(RemoveUser(db, name).db)
  {
    if AllowedUsername(name) {
      UsernameAboveEveryone(name);
      DeleteUsersConsistent(db, {name});
    }
  }

  lemma ResetConsistent(db: Db, name: string, pattern: string)
    requires Consistent(db)
    ensures Consistent(ResetAccess(db, name, pattern).db)
  {
  }

  lemma ChangeTierConsistent(db: Db, name: string, code: string)
    requires Consistent(db)
    ensures Consistent(ChangeTier(db, name, code).db)
  {
    if code in db.tiers { TierConsistent(db, name, Some(code)); }
  }

  lemma ResetTierConsistent(db: Db, name: string)
    requires Consistent(db)
    ensures Consistent(ResetTier(db, name).db)
  {
    TierConsistent(db, name, None);
  }

  lemma TierStepConsistent(db: Db, name: string, current: Option<string>, tier: Option<string>)
    requires Consistent(db)
    ensures Consistent(TierStep(db, name, current, tier).db)
  {
    ResetTierConsistent(db, name);
    if tier.Some? { ChangeTierConsistent(db, name, tier.value); }
  }

  lemma SubscribeConsistent(db: Db, name: string, tier: Option<string>)
    requires Consistent(db)
    ensures Consistent(UpdateSubscriptionAndTier(db, name, tier).db)
  {
    if name in db.users && (tier.Some? ==> tier.value in db.tiers) {
      var trimmed := RemoveExcessReservations(db, name, TierOptionLimit(db.tiers, tier));
      TrimConsistent(db, name, TierOptionLimit(db.tiers, tier));
      SubscriptionSteps(db, name, tier, trimmed);
      TierStepConsistent(trimmed.db, name, db.users[name].tier, tier);
    }
  }

  /** Every tier in use stays in the table of tiers. */
  lemma TierTableConsistent(db: Db, tiers: map<string, nat>)
    requires Consistent(db) && forall n | n in db.users && db.users[n].tier.Some? :: db.users[n].tier.value in tiers
    ensures Consistent(db.(tiers := tiers))
  {
  }

  /** The operations on accounts and tiers. */
  predicate AccountOp(op: Op)
  {
    op.SetRole? || op.Register? || op.Unregister? || op.MarkRemoved? || op.PurgeRemoved? || TierOp(op)
  }

  predicate TierOp(op: Op)
  {
    TierTableOp(op) || op.SetTier? || op.ClearTier? || op.Subscribe?
  }

  predicate TierTableOp(op: Op)
  {
    op.NewTier? || op.EditTier? || op.DropTier?
  }

  lemma TierTableOpConsistent(db: Db, op: Op)
    requires Consistent(db) && TierTableOp(op)
    ensures Consistent(Apply(db, op))
  {
    match op
    case NewTier(code, limit) => TierTableConsistent(db, AddTier(db, code, limit).db.tiers);
    case EditTier(code, limit) => TierTableConsistent(db, UpdateTier(db, code, limit).db.tiers);
    case DropTier(code) => TierTableConsistent(db, RemoveTier(db, code).db.tiers);
  }

  lemma TierOpConsistent(db: Db, op: Op)
    requires Consistent(db) && TierOp(op) && !TierTableOp(op)
    ensures Consistent(Apply(db, op))
  {
    match op
    case SetTier(name, code) => ChangeTierConsistent(db, name, code);
    case ClearTier(name) => ResetTierConsistent(db, name);
    case Subscribe(name, tier) => SubscribeConsistent(db, name, tier);
  }

  lemma AccountOpConsistent(db: Db, op: Op)
    requires Consistent(db) && AccountOp(op) && !TierOp(op)
    ensures Consistent(Apply(db, op))
  {
    match op
    case SetRole(name, role) => RoleConsistent(db, name, role);
    case Register(name, id, role) => RegisterConsistent(db, name, id, role);
    case Unregister(name) => UnregisterConsistent(db, name);
    case MarkRemoved(name, at) => MarkConsistent(db, name, at);
    case PurgeRemoved(at) => DeleteUsersConsistent(db, MarkedBefore(db, at));
  }

  /** Every operation keeps the database consistent. */
  lemma ApplyConsistent(db: Db, op: Op)
    requires Consistent(db)
    ensures Consistent(Apply(db, op))
  {
    if TierTableOp(op) {
      TierTableOpConsistent(db, op);
    } else if TierOp(op) {
      TierOpConsistent(db, op);
    } else if AccountOp(op) {
      AccountOpConsistent(db, op);
    } else {
      match op
      case Grant(name, pattern, perm) => GrantConsistent(db, name, pattern, perm);
      case Reset(name, pattern) => ResetConsistent(db, name, pattern);
      case Reserve(name, topic, perm) => ReserveConsistent(db, name, topic, perm);
      case Release(name, topic) => RemoveConsistent(db, name, [topic]);
      case Remove(name, topics) => RemoveConsistent(db, name, topics);
    }
  }

  /** From a fresh database, every run of operations ends consistent. */
  lemma {:induction false} RunConsistent(ops: seq<Op>)
    ensures Consistent(Run(Initial(), ops))
  {
    if ops != [] {
      RunConsistent(ops[..|ops| - 1]);
      ApplyConsistent(Run(Initial(), ops[..|ops| - 1]), ops[|ops| - 1]);
    }
  }
}
