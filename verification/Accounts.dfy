/**
  The life of accounts and tiers: registering, marking as removed and purging users, and creating,
  editing and dropping tiers.
 */
module Accounts {
  import opened Text
  import opened Wildcards
  import opened Authorization
  import opened AccessControl
  import opened Ownership

  /** A user can be registered exactly under an allowed name and an id that are both free, with a role
      other than anonymous; the new account has that role, no tier and no entries. */
  lemma RegisterExact(db: Db, name: string, id: string, role: Role, k: Key)
    requires Consistent(db)
    ensures var r := AddUser(db, name, id, role);
      && (r.status == Success <==>
            && AllowedUsername(name) && role != RoleAnonymous && name !in db.users
            && forall n | n in db.users :: db.users[n].id != id)
      && (if r.status == Success then r.db == db.(users := db.users[name := Account(id, role, None, None)]) else r.db == db)
      && (r.status == Success && k in r.db.access ==> k.0 != id && r.db.access[k].owner != Some(id))
  {
    if k in db.access {
      assert KnownId(db.users, k.0);
      if db.access[k].owner.Some? { assert KnownId(db.users, db.access[k].owner.value); }
    }
  }

  /** A user marked as removed keeps the account until a purge after the given time, which deletes it;
      a purge deletes no account that is not marked with an earlier time. */
  lemma MarkedUserPurged(db: Db, name: string, at: int, now: int, other: string)
    requires AllowedUsername(name) && name in db.users
    ensures var marked := MarkUserRemoved(db, name, at);
            var purged := RemoveDeletedUsers(marked.db, now);
      && marked.status == Success && name in marked.db.users && marked.db.users[name].role == db.users[name].role
      && (name in purged.users <==> now <= at)
      && (other != name ==>
            && (other in marked.db.users <==> other in db.users)
            && (other in purged.users <==> other in db.users && !(db.users[other].deleted.Some? && db.users[other].deleted.value < now))
            && (other in purged.users ==> purged.users[other] == db.users[other]))
  {
  }

  /** Purging deletes with an account exactly the entries of that user and those owned by it. */
  lemma PurgeCascades(db: Db, now: int, k: Key)
    requires Consistent(db)
    ensures k in RemoveDeletedUsers(db, now).access <==>
      && k in db.access
      && forall n | n in db.users && db.users[n].deleted.Some? && db.users[n].deleted.value < now ::
           k.0 != db.users[n].id && db.access[k].owner != Some(db.users[n].id)
  {
    var names := MarkedBefore(db, now);
    var ids := set n | n in db.users && n in names :: db.users[n].id;
    forall n | n in db.users && db.users[n].deleted.Some? && db.users[n].deleted.value < now ensures db.users[n].id in ids {
      assert n in names;
    }
  }

  /** A tier is created exactly if its code is free, an edit changes the limit of a known tier only, and
      a tier is dropped exactly if no user has it; other tiers stay, and nobody can be given a dropped
      tier. */
  lemma TiersExact(db: Db, code: string, limit: nat, other: string, name: string)
    ensures var r := AddTier(db, code, limit);
      && (r.status == Success <==> code !in db.tiers)
      && r.db == if code in db.tiers then db else db.(tiers := db.tiers[code := limit])
    ensures var r := UpdateTier(db, code, limit).db;
      && (other in r.tiers <==> other in db.tiers)
      && (other in db.tiers ==> r.tiers[other] == if other == code then limit else db.tiers[other])
    ensures var r := RemoveTier(db, code);
      && (r.status == Success <==> forall n | n in db.users :: db.users[n].tier != Some(code))
      && (r.status == Success ==>
            && (other in r.db.tiers <==> other in db.tiers && other != code)
            && (other in r.db.tiers ==> r.db.tiers[other] == db.tiers[other])
            && (AllowedUsername(name) ==> ChangeTier(r.db, name, code) == Result(r.db, TierNotFound)))
      && r.db.users == db.users && r.db.access == db.access && (r.status != Success ==> r.db == db)
  {
  }
}
