/**
  What trimming on a tier change keeps, and the inverse of a reservation.
 */
module Reservations {
  import opened Text
  import opened Wildcards
  import opened Authorization
  import opened AccessControl
  import opened Ownership
  import opened Quota

  // ---------- removing topics ----------

  function EscapeAll(topics: seq<string>): seq<string>
  {
    seq(|topics|, i requires 0 <= i < |topics| => EscapeUnderscore(topics[i]))
  }

  /** Which rows a removal of topics deletes. */
  ghost predicate Removed(k: Key, e: Entry, id: Option<string>, everyone: Option<string>, topics: seq<string>)
  {
    (Touches(k, e, id) || Touches(k, e, everyone)) && k.1 in EscapeAll(topics)
  }

  lemma {:induction false} RemoveTopicsExact(acl: Acl, id: Option<string>, everyone: Option<string>, topics: seq<string>, k: Key)
    ensures k in RemoveTopics(acl, id, everyone, topics)
       <==> k in acl && !Removed(k, acl[k], id, everyone, topics)
  {
    if topics != [] {
      var n := |topics| - 1;
      RemoveTopicsIsSubAcl(acl, id, everyone, topics[..n]);
      RemoveTopicsExact(acl, id, everyone, topics[..n], k);
      assert EscapeAll(topics) == EscapeAll(topics[..n]) + [EscapeUnderscore(topics[n])];
    }
  }

  // ---------- sorted lists of topics ----------

  predicate StrictlySorted(r: seq<string>)
  {
    forall i, j | 0 <= i < j < |r| :: Less(r[i], r[j])
  }

  lemma HeadIsLeast(r: seq<string>, t: string)
    requires StrictlySorted(r) && t in r
    ensures t == r[0] || Less(r[0], t)
    ensures t in r[1..] <==> t != r[0]
  {
    var i :| 0 <= i < |r| && r[i] == t;
    LessTotal(r[0], r[0]);
    if i > 0 { assert r[1..][i - 1] == t; }
  }

  lemma {:induction false} SortedUnique(r: seq<string>, q: seq<string>)
    requires StrictlySorted(r) && StrictlySorted(q)
    requires forall t :: t in r <==> t in q
    ensures r == q
  {
    if r != [] && q != [] {
      assert r[0] in q && q[0] in r;
      HeadIsLeast(r, q[0]);
      HeadIsLeast(q, r[0]);
      LessTotal(r[0], q[0]);
      forall t ensures t in r[1..] <==> t in q[1..] {
        if t in r {
          HeadIsLeast(r, t);
          HeadIsLeast(q, t);
        }
      }
      SortedUnique(r[1..], q[1..]);
    } else {
      EmptyIff(r);
      EmptyIff(q);
    }
  }

  // ---------- trimming ----------

  function Kept(list: seq<string>, limit: nat): seq<string>
  {
    if |list| <= limit then list else list[..limit]
  }

  function StoredReservations(db: Db, name: string): seq<string>
    requires name in db.users
  {
    InOrder(Owned(db.access, db.users[name].id))
  }

  lemma OwnedAreStored(db: Db, id: string)
    requires Consistent(db)
    ensures forall s | s in Owned(db.access, id) :: StoredTopic(s)
  {
  }

  /** The reported topics are allowed and escape to the stored ones, position by position. */
  predicate Reports(rs: seq<Reservation>, stored: seq<string>)
  {
    |rs| == |stored| && forall i | 0 <= i < |rs| :: AllowedTopic(rs[i].topic) && EscapeUnderscore(rs[i].topic) == stored[i]
  }

  lemma ReservationsReport(db: Db, name: string)
    requires Consistent(db) && name in db.users
    ensures Reports(AccessControl.Reservations(db, name), StoredReservations(db, name))
  {
    OwnedAreStored(db, db.users[name].id);
    var stored := StoredReservations(db, name);
    forall i | 0 <= i < |stored| ensures StoredTopic(stored[i]) {
      assert stored[i] in Owned(db.access, db.users[name].id);
    }
  }

  lemma ReverseMembers(list: seq<string>, s: string)
    ensures s in Reverse(list) <==> s in list
  {
    if s in list {
      var i :| 0 <= i < |list| && list[i] == s;
      assert Reverse(list)[|list| - 1 - i] == s;
    }
  }

  /** The excess topics escape to the stored topics beyond the limit, in reverse. */
  lemma ExcessEscapes(rs: seq<Reservation>, stored: seq<string>, limit: nat)
    requires Reports(rs, stored) && limit < |stored|
    ensures EscapeAll(ExcessTopics(rs, limit)) == Reverse(stored[limit..])
    ensures forall i | 0 <= i < |ExcessTopics(rs, limit)| :: AllowedTopic(ExcessTopics(rs, limit)[i])
  {
    var excess, tail := ExcessTopics(rs, limit), stored[limit..];
    var n := |stored| - limit;
    assert |excess| == n && |Reverse(tail)| == n;
    forall i | 0 <= i < n ensures AllowedTopic(excess[i]) && EscapeUnderscore(excess[i]) == Reverse(tail)[i] {
      assert excess[i] == Topics(rs)[limit..][n - 1 - i] == rs[limit + (n - 1 - i)].topic;
      assert Reverse(tail)[i] == stored[limit + (n - 1 - i)];
    }
  }

  lemma ExcessIsStoredTail(rs: seq<Reservation>, stored: seq<string>, limit: nat, s: string)
    requires Reports(rs, stored)
    ensures var excess := ExcessTopics(rs, limit);
      && (excess == [] <==> |stored| <= limit)
      && (forall i | 0 <= i < |excess| :: AllowedTopic(excess[i]))
      && (s in EscapeAll(excess) <==> |stored| > limit && s in stored[limit..])
  {
    if |stored| > limit {
      ExcessEscapes(rs, stored, limit);
      ReverseMembers(stored[limit..], s);
    }
  }

  /** Removing topics of one user takes exactly those topics from what that user owns, and nothing
      from what others own. */
  lemma RemovedOwned(acl: Acl, uid: string, topics: seq<string>, id: string, s: string)
    requires id != EVERYONE_ID
    ensures s in Owned(RemoveTopics(acl, Some(uid), Some(EVERYONE_ID), topics), id)
       <==> s in Owned(acl, id) && !(id == uid && s in EscapeAll(topics))
  {
    RemoveTopicsExact(acl, Some(uid), Some(EVERYONE_ID), topics, (id, s));
    RemoveTopicsIsSubAcl(acl, Some(uid), Some(EVERYONE_ID), topics);
  }

  /** Membership in what a user owns after trimming. */
  lemma TrimmedOwned(db: Db, name: string, limit: nat, id: string, s: string)
    requires Consistent(db) && AllowedUsername(name) && name in db.users && id != EVERYONE_ID
    ensures var stored := StoredReservations(db, name);
            var r := RemoveExcessReservations(db, name, limit);
      && r.status == Success
      && (s in Owned(r.db.access, id) <==>
            s in Owned(db.access, id) && !(id == db.users[name].id && |stored| > limit && s in stored[limit..]))
  {
    var excess := ExcessTopics(AccessControl.Reservations(db, name), limit);
    ReservationsReport(db, name);
    ExcessIsStoredTail(AccessControl.Reservations(db, name), StoredReservations(db, name), limit, s);
    UsernameAboveEveryone(name);
    RemovedOwned(db.access, db.users[name].id, excess, id, s);
  }

  lemma TrimmedStored(db: Db, name: string, limit: nat, s: string)
    requires Consistent(db) && AllowedUsername(name) && name in db.users
    ensures var r := RemoveExcessReservations(db, name, limit);
      && r.status == Success && r.db.users == db.users && r.db.tiers == db.tiers
      && (s in StoredReservations(r.db, name) <==> s in Kept(StoredReservations(db, name), limit))
  {
    TrimConsistent(db, name, limit);
    UsernameAboveEveryone(name);
    assert db.users[name].id != EVERYONE_ID;
    TrimmedOwned(db, name, limit, db.users[name].id, s);
    KeptOrTail(StoredReservations(db, name), limit, s);
  }

  /** Trimming succeeds and keeps exactly the first `limit` reservations in stored order. */
  lemma TrimKeepsFirst(db: Db, name: string, limit: nat)
    requires Consistent(db) && AllowedUsername(name) && name in db.users
    ensures var r := RemoveExcessReservations(db, name, limit);
      && r.status == Success && r.db.users == db.users && r.db.tiers == db.tiers
      && StoredReservations(r.db, name) == Kept(StoredReservations(db, name), limit)
  {
    var r := RemoveExcessReservations(db, name, limit);
    TrimmedStored(db, name, limit, "");
    var kept, after := Kept(StoredReservations(db, name), limit), StoredReservations(r.db, name);
    forall s ensures s in after <==> s in kept {
      TrimmedStored(db, name, limit, s);
    }
    SortedUnique(after, kept);
  }

  /** Trimming one user leaves what every other user owns untouched. */
  lemma TrimSparesOthers(db: Db, name: string, limit: nat, other: string)
    requires Consistent(db) && AllowedUsername(name) && name in db.users
    requires other in db.users && other != name
    ensures var r := RemoveExcessReservations(db, name, limit);
      Owned(r.db.access, db.users[other].id) == Owned(db.access, db.users[other].id)
  {
    var r := RemoveExcessReservations(db, name, limit);
    var oid := db.users[other].id;
    if oid == EVERYONE_ID {
      TrimConsistent(db, name, limit);
      EveryoneOwnsNothing(db);
      EveryoneOwnsNothing(r.db);
    } else {
      forall s ensures s in Owned(r.db.access, oid) <==> s in Owned(db.access, oid) {
        TrimmedOwned(db, name, limit, oid, s);
      }
    }
  }

  lemma KeptOrTail(stored: seq<string>, limit: nat, s: string)
    requires StrictlySorted(stored)
    ensures s in stored && !(|stored| > limit && s in stored[limit..]) <==> s in Kept(stored, limit)
  {
    if |stored| > limit {
      assert stored == stored[..limit] + stored[limit..];
      forall i, j | 0 <= i < limit <= j < |stored| ensures stored[i] != stored[j] {
        LessTotal(stored[i], stored[i]);
      }
    }
  }

  lemma TrimmedFits(db: Db, name: string, limit: nat)
    requires name in db.users && |StoredReservations(db, name)| <= limit
    ensures ReservationsCount(db, name) <= limit && CheckReservationsLimit(db, name, limit) == Success
  {
  }

  function WithTier(db: Db, name: string, tier: Option<string>): Db
    requires name in db.users
  {
    db.(users := db.users[name := db.users[name].(tier := tier)])
  }

  lemma WithTierKeeps(db: Db, name: string, tier: Option<string>)
    requires name in db.users && (tier.Some? ==> tier.value in db.tiers)
    ensures var after := WithTier(db, name, tier);
      && after.users[name].tier == tier
      && StoredReservations(after, name) == StoredReservations(db, name)
      && ReservationsCount(after, name) == ReservationsCount(db, name)
      && TierLimit(after, after.users[name]) == TierOptionLimit(db.tiers, tier)
  {
  }

  lemma TierStepSucceeds(db: Db, name: string, tier: Option<string>)
    requires AllowedUsername(name) && name in db.users
    requires tier.Some? ==> tier.value in db.tiers
    requires CheckReservationsLimit(db, name, TierOptionLimit(db.tiers, tier)) == Success
    ensures TierStep(db, name, db.users[name].tier, tier) == Result(WithTier(db, name, tier), Success)
  {
    assert db.users[name].tier == tier ==> WithTier(db, name, tier) == db;
  }

  /** A subscription change always goes through: the user ends with the new tier, within its limit,
      and with the first reservations it allows. */
  lemma SubscriptionChangeSucceeds(db: Db, name: string, tier: Option<string>)
    requires Consistent(db) && AllowedUsername(name) && name in db.users
    requires tier.Some? ==> tier.value in db.tiers
    ensures var r := UpdateSubscriptionAndTier(db, name, tier);
            var limit := TierOptionLimit(db.tiers, tier);
      && r.status == Success && name in r.db.users && r.db.users[name].tier == tier
      && StoredReservations(r.db, name) == Kept(StoredReservations(db, name), limit)
      && TierLimit(r.db, r.db.users[name]) == limit
      && ReservationsCount(r.db, name) <= limit
  {
    var limit := TierOptionLimit(db.tiers, tier);
    var trimmed := RemoveExcessReservations(db, name, limit).db;
    TrimKeepsFirst(db, name, limit);
    TrimmedFits(trimmed, name, limit);
    TierStepSucceeds(trimmed, name, tier);
    WithTierKeeps(trimmed, name, tier);
    SubscriptionSteps(db, name, tier, RemoveExcessReservations(db, name, limit));
  }

  // ---------- a reservation and its inverse ----------

  lemma RemovedRowsBack(acl: Acl, id: string, topic: string, everyone: Permission)
    requires forall k | k in acl :: k.1 != EscapeUnderscore(topic)
    ensures RemoveTopics(Reserved(acl, id, EscapeUnderscore(topic), everyone), Some(id), Some(EVERYONE_ID), [topic]) == acl
  {
  }

  lemma ReservationReported(db: Db, name: string, topic: string)
    requires name in db.users && EscapeUnderscore(topic) in Owned(db.access, db.users[name].id)
    ensures Reservation(topic, EveryonePermission(db.access, EscapeUnderscore(topic))) in AccessControl.Reservations(db, name)
  {
    UnescapeEscape(topic, '_');
    var list := StoredReservations(db, name);
    var i :| 0 <= i < |list| && list[i] == EscapeUnderscore(topic);
    assert AccessControl.Reservations(db, name)[i].topic == topic;
  }

  /** Reserving a topic without rows is reported under its own name with the permission chosen for
      everyone, and removing what is reported restores the database exactly. */
  lemma ReserveThenRemove(db: Db, name: string, topic: string, everyone: Permission)
    requires Consistent(db) && AllowedUsername(name) && name in db.users && AllowedTopic(topic)
    requires forall k | k in db.access :: k.1 != EscapeUnderscore(topic)
    ensures var r := AddReservation(db, name, topic, everyone);
      && r.status == Success
      && Reservation(topic, NewPermission(IsRead(everyone), IsWrite(everyone))) in AccessControl.Reservations(r.db, name)
      && RemoveReservations(r.db, name, [topic]) == Result(db, Success)
  {
    UsernameAboveEveryone(name);
    var id := db.users[name].id;
    assert id != EVERYONE_ID;
    OwnedAfterReserve(db.access, id, EscapeUnderscore(topic), everyone, id);
    ReservationReported(AddReservation(db, name, topic, everyone).db, name, topic);
    RemovedRowsBack(db.access, id, topic, everyone);
  }

  lemma ReportedAt(db: Db, name: string, i: nat)
    requires Consistent(db) && name in db.users && i < |StoredReservations(db, name)|
    ensures |AccessControl.Reservations(db, name)| == |StoredReservations(db, name)|
    ensures var r, stored := AccessControl.Reservations(db, name)[i], StoredReservations(db, name)[i];
      && EscapeUnderscore(r.topic) == stored && r.topic == UnescapeUnderscore(stored)
      && r.everyone == EveryonePermission(db.access, stored)
  {
    ReservationsReport(db, name);
  }

  /** The reservations of a user are reported exactly: each owned topic under its name, with the access
      that everyone has, which is none without an entry of everyone. */
  lemma ReservationsExact(db: Db, name: string, r: Reservation)
    requires Consistent(db) && name in db.users
    ensures r in AccessControl.Reservations(db, name) <==>
      var k := (EVERYONE_ID, EscapeUnderscore(r.topic));
      && k.1 in Owned(db.access, db.users[name].id)
      && r.everyone == NewPermission(k in db.access && db.access[k].read, k in db.access && db.access[k].write)
  {
    var list, rs := StoredReservations(db, name), AccessControl.Reservations(db, name);
    UnescapeEscape(r.topic, '_');
    if r in rs {
      var i :| 0 <= i < |rs| && rs[i] == r;
      ReportedAt(db, name, i);
      assert list[i] in list;
    }
    if EscapeUnderscore(r.topic) in list {
      var i :| 0 <= i < |list| && list[i] == EscapeUnderscore(r.topic);
      ReportedAt(db, name, i);
      assert rs[i] in rs;
    }
  }

  // ---------- when a reservation succeeds, and what releasing it does ----------

  /** A reservation goes through exactly for a known, allowed user and an allowed topic, if a regular
      user has a tier with room or holds the topic already, and every entry on the stored topic, or
      with a pattern matching its stored form, is owned by the user. */
  lemma ReserveExact(db: Db, name: string, topic: string, everyone: Permission)
    requires Consistent(db)
    ensures HandleReservationAdd(db, name, topic, everyone).status == Success <==>
      && AllowedUsername(name) && name in db.users && AllowedTopic(topic)
      && var stored, u := EscapeUnderscore(topic), db.users[name];
         && (u.role == RoleUser ==>
               u.tier.Some? && (stored in Owned(db.access, u.id) || |Owned(db.access, u.id)| < TierLimit(db, u)))
         && forall k | k in db.access && (k.1 == stored || Like(stored, k.1)) :: db.access[k].owner == Some(u.id)
    ensures HandleReservationAdd(db, name, topic, everyone).status != Success ==>
      HandleReservationAdd(db, name, topic, everyone).db == db
  {
    if AllowedUsername(name) { UsernameAboveEveryone(name); }
    if name in db.users { GuardExactly(db, name, topic); }
  }

  lemma GuardExactly(db: Db, name: string, topic: string)
    requires name in db.users
    ensures AllowReservation(db, name, topic) == Success <==>
      && (AllowedUsername(name) || name == EVERYONE) && AllowedTopic(topic)
      && forall k | k in db.access && (k.1 == EscapeUnderscore(topic) || Like(EscapeUnderscore(topic), k.1)) ::
           db.access[k].owner == Some(db.users[name].id)
  {
    var stored := EscapeUnderscore(topic);
    forall k | k in db.access
      ensures Blocks(db, name, stored, k) <==> (k.1 == stored || Like(stored, k.1)) && db.access[k].owner != Some(db.users[name].id)
    {
    }
  }

  /** The topic has been given up by the user: the user owns it no more and everything else still, no
      row of the user or of everyone is left on it, other users own what they did, and rows on other
      topics stay as they are. */
  ghost predicate Released(before: Db, after: Db, name: string, topic: string)
    requires name in before.users
  {
    var id, stored := before.users[name].id, EscapeUnderscore(topic);
    && after.users == before.users && after.tiers == before.tiers
    && Owned(after.access, id) == Owned(before.access, id) - {stored}
    && (forall n | n in before.users && n != name ::
          Owned(after.access, before.users[n].id) == Owned(before.access, before.users[n].id))
    && (forall k | k in after.access && k.1 == stored :: k.0 != id && k.0 != EVERYONE_ID && after.access[k].owner != Some(id))
    && (forall k: Key | k.1 != stored :: k in after.access <==> k in before.access)
    && SubAcl(before.access, after.access)
  }

  lemma ReleasedRows(db: Db, name: string, topic: string, k: Key)
    requires Consistent(db) && AllowedUsername(name) && name in db.users && AllowedTopic(topic)
    ensures var id, stored := db.users[name].id, EscapeUnderscore(topic);
      k in RemoveReservations(db, name, [topic]).db.access <==>
        k in db.access && !(k.1 == stored && (k.0 == id || k.0 == EVERYONE_ID || db.access[k].owner == Some(id)))
  {
    UsernameAboveEveryone(name);
    RemoveTopicsExact(db.access, Some(db.users[name].id), Some(EVERYONE_ID), [topic], k);
    assert EscapeAll([topic]) == [EscapeUnderscore(topic)];
    if k in db.access { assert TaggedRowOk(k, db.access[k]); }
  }

  lemma ReleasedOwned(db: Db, name: string, topic: string, n: string)
    requires Consistent(db) && AllowedUsername(name) && name in db.users && AllowedTopic(topic) && n in db.users
    ensures var after := RemoveReservations(db, name, [topic]).db;
      Owned(after.access, db.users[n].id)
      == Owned(db.access, db.users[n].id) - (if n == name then {EscapeUnderscore(topic)} else {})
  {
    var after := RemoveReservations(db, name, [topic]).db;
    UsernameAboveEveryone(name);
    if n == EVERYONE {
      RemoveConsistent(db, name, [topic]);
      EveryoneOwnsNothing(db);
      EveryoneOwnsNothing(after);
    } else {
      assert EscapeAll([topic]) == [EscapeUnderscore(topic)];
      forall s
        ensures s in Owned(after.access, db.users[n].id) <==>
          s in Owned(db.access, db.users[n].id) && !(n == name && s == EscapeUnderscore(topic))
      {
        RemovedOwned(db.access, db.users[name].id, [topic], db.users[n].id, s);
      }
    }
  }

  lemma RemovedIsReleased(db: Db, name: string, topic: string)
    requires Consistent(db) && AllowedUsername(name) && name in db.users && AllowedTopic(topic)
    ensures Released(db, RemoveReservations(db, name, [topic]).db, name, topic)
  {
    RemoveReservationsShape(db, name, [topic]);
    forall k
      ensures k in RemoveReservations(db, name, [topic]).db.access <==>
        k in db.access && !(k.1 == EscapeUnderscore(topic)
                            && (k.0 == db.users[name].id || k.0 == EVERYONE_ID || db.access[k].owner == Some(db.users[name].id)))
    {
      ReleasedRows(db, name, topic, k);
    }
    forall n | n in db.users
      ensures Owned(RemoveReservations(db, name, [topic]).db.access, db.users[n].id)
           == Owned(db.access, db.users[n].id) - (if n == name then {EscapeUnderscore(topic)} else {})
    {
      ReleasedOwned(db, name, topic, n);
    }
  }

  /** Releasing succeeds exactly for an allowed topic that an allowed user has reserved; the topic is
      then given up, and otherwise nothing changes. */
  lemma ReleaseExact(db: Db, name: string, topic: string)
    requires Consistent(db)
    ensures var r := HandleReservationDelete(db, name, topic);
      && (r.status == Success <==> AllowedTopic(topic) && AllowedUsername(name) && HasReservation(db, name, topic))
      && if r.status == Success then Released(db, r.db, name, topic) && !HasReservation(r.db, name, topic) else r.db == db
  {
    if AllowedUsername(name) { UsernameAboveEveryone(name); }
    if AllowedTopic(topic) && AllowedUsername(name) && name in db.users {
      assert [topic][0] == topic;
      RemovedIsReleased(db, name, topic);
    }
  }
}
