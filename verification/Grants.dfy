/**
  What granting and resetting access does: it takes effect, it is listed as granted until it is
  reset, and clearing a user frees that user's topics and no others.
 */
module Grants {
  import opened Text
  import opened Wildcards
  import opened Authorization
  import opened AccessControl
  import opened Ownership
  import opened Quota
  import RA = ReservationAccess

  /** A grant to a known user or to everyone, on an allowed pattern. */
  predicate Grantable(db: Db, name: string, pattern: string)
  {
    (AllowedUsername(name) || name == EVERYONE) && name in db.users && AllowedTopicPattern(pattern)
  }

  /** A grant decides the user's access to every topic its pattern describes, as long as all other
      matching entries of the user have shorter stored patterns. */
  lemma GrantTakesEffect(db: Db, name: string, pattern: string, perm: Permission, table: seq<Row>,
                         defaultAccess: Permission, topic: string)
    requires AllowedUsername(name) && Grantable(db, name, pattern) && Glob(pattern, topic)
    requires RA.Tabulates(table, AllowAccess(db, name, pattern, perm).db)
    requires forall k | k in db.access && k.0 == db.users[name].id && Like(topic, k.1) && k.1 != ToSQLWildcard(pattern) ::
               |k.1| < |ToSQLWildcard(pattern)|
    ensures var u := Some(User(name, false));
      && Authorize(table, defaultAccess, u, topic, PERMISSION_READ) == IsRead(perm)
      && Authorize(table, defaultAccess, u, topic, PERMISSION_WRITE) == IsWrite(perm)
  {
    var after := AllowAccess(db, name, pattern, perm).db;
    var stored := ToSQLWildcard(pattern);
    AllowedHasNoSQLChars(pattern);
    LikeIsGlob(pattern, topic);
    var own := RA.RowFor(after, name, stored);
    assert RA.RowOf(after, own);
    OwnEntryDecides(table, name, topic, own);
    MatchingContents(table, name, topic);
    var d := First(Matching(table, name, topic));
    assert RA.RowOf(after, d);
    var k := (db.users[name].id, d.topic);
    assert k.1 != stored ==> k in db.access;
    assert d.topic == stored;
  }

  // ---------- the list of grants ----------

  /** A stored pattern that some allowed pattern has been turned into. */
  predicate StoredPattern(s: string)
  {
    AllowedTopicPattern(FromSQLWildcard(s)) && ToSQLWildcard(FromSQLWildcard(s)) == s
  }

  ghost predicate PatternsOk(db: Db)
  {
    forall k | k in db.access :: StoredPattern(k.1)
  }

  lemma PatternIsStored(p: string)
    requires AllowedTopicPattern(p)
    ensures StoredPattern(ToSQLWildcard(p)) && FromSQLWildcard(ToSQLWildcard(p)) == p
  {
    AllowedHasNoSQLChars(p);
    FromToSQLWildcard(p);
  }

  lemma TopicIsStored(t: string)
    requires AllowedTopic(t)
    ensures StoredPattern(EscapeUnderscore(t))
  {
    TopicSQLForm(t);
    PatternIsStored(t);
  }

  lemma RemovedPatternsOk(before: Db, after: Db)
    requires PatternsOk(before) && SubAcl(before.access, after.access)
    ensures PatternsOk(after)
  {
  }

  lemma ReservePatternsOk(db: Db, name: string, topic: string, perm: Permission)
    requires PatternsOk(db)
    ensures PatternsOk(HandleReservationAdd(db, name, topic, perm).db)
  {
    var r := HandleReservationAdd(db, name, topic, perm);
    if r.status == Success {
      TopicIsStored(topic);
      assert forall k | k in r.db.access :: k in db.access || k.1 == EscapeUnderscore(topic);
    }
  }

  lemma SubscribePatternsOk(db: Db, name: string, tier: Option<string>)
    requires PatternsOk(db)
    ensures PatternsOk(UpdateSubscriptionAndTier(db, name, tier).db)
  {
    if name in db.users && (tier.Some? ==> tier.value in db.tiers) {
      var limit := TierOptionLimit(db.tiers, tier);
      var trimmed := RemoveExcessReservations(db, name, limit);
      SubscriptionSteps(db, name, tier, trimmed);
      RemoveReservationsShape(db, name, Excess(db, name, limit));
      RemovedPatternsOk(db, trimmed.db);
      TierStepAccess(trimmed.db, name, db.users[name].tier, tier);
    }
  }

  lemma TierStepAccess(db: Db, name: string, current: Option<string>, tier: Option<string>)
    ensures TierStep(db, name, current, tier).db.access == db.access
  {
  }

  lemma RemovalPatternsOk(db: Db, op: Op)
    requires PatternsOk(db) && (op.Reset? || op.Release? || op.Remove?)
    ensures PatternsOk(Apply(db, op))
  {
    match op
    case Reset(name, pattern) => RemovedPatternsOk(db, ResetAccess(db, name, pattern).db);
    case Release(name, topic) =>
      RemoveReservationsShape(db, name, [topic]);
      RemovedPatternsOk(db, RemoveReservations(db, name, [topic]).db);
    case Remove(name, topics) =>
      RemoveReservationsShape(db, name, topics);
      RemovedPatternsOk(db, RemoveReservations(db, name, topics).db);
  }

  lemma TierOpAccess(db: Db, op: Op)
    requires TierOp(op) && !op.Subscribe?
    ensures Apply(db, op).access == db.access
  {
  }

  lemma RemovedUsersAccess(db: Db, op: Op)
    requires op.Unregister? || op.PurgeRemoved?
    ensures SubAcl(db.access, Apply(db, op).access)
  {
  }

  lemma ChangedUsersAccess(db: Db, op: Op)
    requires op.SetRole? || op.Register? || op.MarkRemoved?
    ensures SubAcl(db.access, Apply(db, op).access)
  {
  }

  lemma AccountPatternsOk(db: Db, op: Op)
    requires PatternsOk(db) && AccountOp(op) && !op.Subscribe?
    ensures PatternsOk(Apply(db, op))
  {
    if TierOp(op) {
      TierOpAccess(db, op);
    } else if op.Unregister? || op.PurgeRemoved? {
      RemovedUsersAccess(db, op);
    } else {
      ChangedUsersAccess(db, op);
    }
    RemovedPatternsOk(db, Apply(db, op));
  }

  lemma ApplyPatternsOk(db: Db, op: Op)
    requires PatternsOk(db)
    ensures PatternsOk(Apply(db, op))
  {
    if op.Subscribe? {
      SubscribePatternsOk(db, op.name, op.tier);
    } else if AccountOp(op) {
      AccountPatternsOk(db, op);
    } else if op.Reset? || op.Release? || op.Remove? {
      RemovalPatternsOk(db, op);
    } else {
      match op
      case Grant(name, pattern, perm) => if AllowedTopicPattern(pattern) { PatternIsStored(pattern); }
      case Reserve(name, topic, perm) => ReservePatternsOk(db, name, topic, perm);
    }
  }

  /** After every run each entry stores an allowed pattern, which it is reported as. */
  lemma {:induction false} RunPatternsOk(ops: seq<Op>)
    ensures PatternsOk(Run(Initial(), ops))
  {
    if ops != [] {
      RunPatternsOk(ops[..|ops| - 1]);
      ApplyPatternsOk(Run(Initial(), ops[..|ops| - 1]), ops[|ops| - 1]);
    }
  }

  function TopicsOf(acl: Acl, id: string): set<string>
  {
    set k | k in acl && k.0 == id :: k.1
  }

  /** ORDER BY LENGTH(topic) DESC, write DESC, read DESC, topic: `a` comes strictly before `b`. */
  predicate ListedBefore(acl: Acl, id: string, a: string, b: string)
    requires (id, a) in acl && (id, b) in acl
  {
    var x, y := acl[(id, a)], acl[(id, b)];
    || |a| > |b|
    || (|a| == |b| && x.write && !y.write)
    || (|a| == |b| && x.write == y.write && x.read && !y.read)
    || (|a| == |b| && x.write == y.write && x.read == y.read && Less(a, b))
  }

  predicate AllStored(acl: Acl, id: string, list: seq<string>)
  {
    forall i | 0 <= i < |list| :: (id, list[i]) in acl
  }

  function PlaceTopic(acl: Acl, id: string, t: string, list: seq<string>): (r: seq<string>)
    requires (id, t) in acl && AllStored(acl, id, list)
    ensures AllStored(acl, id, r) && |r| == |list| + 1
    ensures forall s :: s in r <==> s == t || s in list
  {
    if list == [] then [t]
    else if ListedBefore(acl, id, t, list[0]) then [t] + list
    else
      assert list == [list[0]] + list[1..];
      [list[0]] + PlaceTopic(acl, id, t, list[1..])
  }

  function OrderTopics(acl: Acl, id: string, list: seq<string>): (r: seq<string>)
    requires AllStored(acl, id, list)
    ensures AllStored(acl, id, r) && |r| == |list|
    ensures forall s :: s in r <==> s in list
  {
    if list == [] then []
    else
      assert list == [list[0]] + list[1..];
      PlaceTopic(acl, id, list[0], OrderTopics(acl, id, list[1..]))
  }

  predicate InListOrder(acl: Acl, id: string, list: seq<string>)
    requires AllStored(acl, id, list)
  {
    forall i, j | 0 <= i < j < |list| :: !ListedBefore(acl, id, list[j], list[i])
  }

  lemma ListedTransitive(acl: Acl, id: string, a: string, b: string, c: string)
    requires (id, a) in acl && (id, b) in acl && (id, c) in acl
    requires !ListedBefore(acl, id, b, a) && !ListedBefore(acl, id, c, b)
    ensures !ListedBefore(acl, id, c, a)
  {
    LessTotal(a, b);
    LessTotal(b, c);
    LessTotal(a, c);
    if Less(a, b) && Less(b, c) { LessTransitive(a, b, c); }
  }

  lemma ListedAsymmetric(acl: Acl, id: string, a: string, b: string)
    requires (id, a) in acl && (id, b) in acl && ListedBefore(acl, id, a, b)
    ensures !ListedBefore(acl, id, b, a)
  {
    LessTotal(a, b);
  }

  lemma {:induction false} PlaceKeepsOrder(acl: Acl, id: string, t: string, list: seq<string>)
    requires (id, t) in acl && AllStored(acl, id, list) && InListOrder(acl, id, list)
    ensures InListOrder(acl, id, PlaceTopic(acl, id, t, list))
  {
    if list != [] {
      var head := list[0];
      if ListedBefore(acl, id, t, head) {
        ListedAsymmetric(acl, id, t, head);
        forall s | s in list ensures (id, s) in acl && !ListedBefore(acl, id, s, t) {
          var i :| 0 <= i < |list| && list[i] == s;
          if i > 0 { ListedTransitive(acl, id, t, head, s); }
        }
      } else {
        assert InListOrder(acl, id, list[1..]);
        PlaceKeepsOrder(acl, id, t, list[1..]);
        var rest := PlaceTopic(acl, id, t, list[1..]);
        forall j | 0 <= j < |rest| ensures !ListedBefore(acl, id, rest[j], head) {
          assert rest[j] in rest;
          if rest[j] != t {
            var i :| 0 <= i < |list[1..]| && list[1..][i] == rest[j];
            assert list[i + 1] == rest[j];
          }
        }
      }
    }
  }

  lemma {:induction false} OrderTopicsOrders(acl: Acl, id: string, list: seq<string>)
    requires AllStored(acl, id, list)
    ensures InListOrder(acl, id, OrderTopics(acl, id, list))
  {
    if list != [] {
      OrderTopicsOrders(acl, id, list[1..]);
      PlaceKeepsOrder(acl, id, list[0], OrderTopics(acl, id, list[1..]));
    }
  }

  datatype Granted = Granted(pattern: string, allow: Permission)

  function Report(acl: Acl, id: string, t: string): Granted
    requires (id, t) in acl
  {
    Granted(FromSQLWildcard(t), NewPermission(acl[(id, t)].read, acl[(id, t)].write))
  }

  function GrantTopics(acl: Acl, id: string): (r: seq<string>)
    ensures AllStored(acl, id, r) && |r| == |TopicsOf(acl, id)|
    ensures forall t :: t in r <==> (id, t) in acl
  {
    var list := InOrder(TopicsOf(acl, id));
    assert forall i | 0 <= i < |list| :: list[i] in list;
    OrderTopics(acl, id, list)
  }

  lemma {:induction false} CoverSize(list: seq<string>, s: set<string>)
    requires forall t | t in s :: t in list
    ensures |s| <= |list|
  {
    if list != [] {
      assert list == [list[0]] + list[1..];
      CoverSize(list[1..], s - {list[0]});
    }
  }

  lemma CoverIsDistinct(list: seq<string>, s: set<string>, i: nat, j: nat)
    requires |list| == |s| && (forall t | t in s :: t in list) && i < j < |list|
    ensures list[i] != list[j]
  {
    if list[i] == list[j] {
      var rest := list[..j] + list[j + 1..];
      assert list == list[..j] + [list[j]] + list[j + 1..] && rest[i] == list[j];
      CoverSize(rest, s);
    }
  }

  /** The list of a user's entries holds each once, in the order of the query. */
  lemma GrantsOrdered(acl: Acl, id: string, i: nat, j: nat)
    requires i < j < |GrantTopics(acl, id)|
    ensures var list := GrantTopics(acl, id); list[i] != list[j] && ListedBefore(acl, id, list[i], list[j])
  {
    var list := InOrder(TopicsOf(acl, id));
    assert forall i | 0 <= i < |list| :: list[i] in list;
    OrderTopicsOrders(acl, id, list);
    var r := GrantTopics(acl, id);
    CoverIsDistinct(r, TopicsOf(acl, id), i, j);
    assert !ListedBefore(acl, id, r[j], r[i]);
    LessTotal(r[i], r[j]);
  }

  function Reports(acl: Acl, id: string, list: seq<string>): seq<Granted>
    requires AllStored(acl, id, list)
  {
    seq(|list|, i requires 0 <= i < |list| => Report(acl, id, list[i]))
  }

  /** Manager.Grants: the entries of a user, in the order of the query. */
  function Grants(db: Db, username: string): seq<Granted>
  {
    if username !in db.users then []
    else Reports(db.access, db.users[username].id, GrantTopics(db.access, db.users[username].id))
  }

  ghost predicate Reported(acl: Acl, id: string, g: Granted)
  {
    exists t :: (id, t) in acl && g == Report(acl, id, t)
  }

  lemma GrantsMembers(db: Db, username: string, g: Granted)
    requires username in db.users
    ensures g in Grants(db, username) <==> Reported(db.access, db.users[username].id, g)
  {
    ReportsMembers(db.access, db.users[username].id, GrantTopics(db.access, db.users[username].id), g);
  }

  lemma ReportsMembers(acl: Acl, id: string, list: seq<string>, g: Granted)
    requires AllStored(acl, id, list) && forall t :: t in list <==> (id, t) in acl
    ensures g in Reports(acl, id, list) <==> Reported(acl, id, g)
  {
    if t :| (id, t) in acl && g == Report(acl, id, t) {
      var i :| 0 <= i < |list| && list[i] == t;
      assert Reports(acl, id, list)[i] == g;
    }
    if g in Reports(acl, id, list) {
      var i :| 0 <= i < |list| && Reports(acl, id, list)[i] == g;
      assert list[i] in list;
    }
  }

  lemma GrantResult(db: Db, name: string, pattern: string, perm: Permission)
    requires Grantable(db, name, pattern)
    ensures AllowAccess(db, name, pattern, perm)
         == Result(db.(access := WithGrant(db.access, db.users[name].id, ToSQLWildcard(pattern), perm)), Success)
  {
  }

  function WithGrant(acl: Acl, id: string, stored: string, perm: Permission): Acl
  {
    acl[(id, stored) := Entry(IsRead(perm), IsWrite(perm), None)]
  }

  /** Granting succeeds and puts the pattern and permission on the user's list, in place of what the
      list said about the pattern; the rest of the list stays. */
  lemma GrantListed(db: Db, name: string, pattern: string, perm: Permission, g: Granted)
    requires PatternsOk(db) && Grantable(db, name, pattern)
    ensures AllowAccess(db, name, pattern, perm).status == Success
    ensures g in Grants(AllowAccess(db, name, pattern, perm).db, name) <==>
      || g == Granted(pattern, NewPermission(IsRead(perm), IsWrite(perm)))
      || (g in Grants(db, name) && g.pattern != pattern)
  {
    GrantResult(db, name, pattern, perm);
    PatternIsStored(pattern);
    GrantsMembers(db, name, g);
    GrantsMembers(AllowAccess(db, name, pattern, perm).db, name, g);
    GrantShows(db, db.users[name].id, ToSQLWildcard(pattern), pattern, perm, g);
  }

  /** The lists of all other users stay. */
  lemma GrantSparesLists(db: Db, name: string, pattern: string, perm: Permission, other: string, g: Granted)
    requires Consistent(db) && Grantable(db, name, pattern) && other in db.users && other != name
    ensures g in Grants(AllowAccess(db, name, pattern, perm).db, other) <==> g in Grants(db, other)
  {
    var after := AllowAccess(db, name, pattern, perm).db;
    GrantResult(db, name, pattern, perm);
    GrantsMembers(db, other, g);
    GrantsMembers(after, other, g);
    OtherReports(db.access, after.access, db.users[other].id, g);
  }

  lemma GrantShows(db: Db, id: string, stored: string, pattern: string, perm: Permission, g: Granted)
    requires PatternsOk(db) && StoredPattern(stored) && FromSQLWildcard(stored) == pattern
    ensures var acl := WithGrant(db.access, id, stored, perm);
      Reported(acl, id, g) <==>
        || g == Granted(pattern, NewPermission(IsRead(perm), IsWrite(perm)))
        || (Reported(db.access, id, g) && g.pattern != pattern)
  {
    var acl := WithGrant(db.access, id, stored, perm);
    var added := Granted(pattern, NewPermission(IsRead(perm), IsWrite(perm)));
    assert Report(acl, id, stored) == added;
    if t :| (id, t) in db.access && g == Report(db.access, id, t) && g.pattern != pattern {
      assert Report(acl, id, t) == g;
    }
    if t :| (id, t) in acl && g == Report(acl, id, t) && t != stored {
      SamePatternSameTopic(db, (id, t), stored);
      assert Report(db.access, id, t) == g;
    }
  }

  lemma SamePatternSameTopic(db: Db, k: Key, stored: string)
    requires PatternsOk(db) && k in db.access && StoredPattern(stored)
    ensures FromSQLWildcard(k.1) == FromSQLWildcard(stored) <==> k.1 == stored
  {
    assert StoredPattern(k.1);
  }

  lemma OtherReports(before: Acl, after: Acl, id: string, g: Granted)
    requires forall t :: ((id, t) in before <==> (id, t) in after) && ((id, t) in before ==> before[(id, t)] == after[(id, t)])
    ensures Reported(before, id, g) <==> Reported(after, id, g)
  {
    if t :| (id, t) in before && g == Report(before, id, t) { assert Report(after, id, t) == g; }
    if t :| (id, t) in after && g == Report(after, id, t) { assert Report(before, id, t) == g; }
  }

  lemma ResetResult(db: Db, name: string, pattern: string)
    requires Grantable(db, name, pattern)
    ensures var r := ResetAccess(db, name, pattern);
      && r == Result(db.(access := DeleteTopicAccess(db.access, Some(db.users[name].id), ToSQLWildcard(pattern))), Success)
  {
    assert pattern != "" && name != "";
  }

  /** Resetting takes the pattern off the list and leaves the rest. */
  lemma ResetListed(db: Db, name: string, pattern: string, g: Granted)
    requires PatternsOk(db) && Grantable(db, name, pattern)
    ensures g in Grants(ResetAccess(db, name, pattern).db, name) <==> g in Grants(db, name) && g.pattern != pattern
  {
    var id, stored := db.users[name].id, ToSQLWildcard(pattern);
    var acl := DeleteTopicAccess(db.access, Some(id), stored);
    ResetResult(db, name, pattern);
    PatternIsStored(pattern);
    GrantsMembers(db, name, g);
    GrantsMembers(db.(access := acl), name, g);
    assert forall t :: (id, t) in acl <==> (id, t) in db.access && t != stored;
    ResetShows(db, acl, id, stored, pattern, g);
  }

  /** A grant that replaced no entry is undone by a reset, exactly if the user owns no rows of the
      same topic. */
  lemma GrantThenReset(db: Db, name: string, pattern: string, perm: Permission)
    requires Grantable(db, name, pattern) && (db.users[name].id, ToSQLWildcard(pattern)) !in db.access
    ensures ResetAccess(AllowAccess(db, name, pattern, perm).db, name, pattern) == Result(db, Success)
       <==> forall k | k in db.access && k.1 == ToSQLWildcard(pattern) :: db.access[k].owner != Some(db.users[name].id)
  {
    var id, stored := db.users[name].id, ToSQLWildcard(pattern);
    GrantResult(db, name, pattern, perm);
    var granted := WithGrant(db.access, id, stored, perm);
    ResetResult(db.(access := granted), name, pattern);
    var back := DeleteTopicAccess(granted, Some(id), stored);
    if forall k | k in db.access && k.1 == stored :: db.access[k].owner != Some(id) {
      assert back == db.access;
    } else {
      var k :| k in db.access && k.1 == stored && db.access[k].owner == Some(id);
      assert k !in back;
    }
  }

  lemma ResetShows(db: Db, acl: Acl, id: string, stored: string, pattern: string, g: Granted)
    requires PatternsOk(db) && SubAcl(db.access, acl) && StoredPattern(stored) && FromSQLWildcard(stored) == pattern
    requires forall t :: (id, t) in acl <==> (id, t) in db.access && t != stored
    ensures Reported(acl, id, g) <==> Reported(db.access, id, g) && g.pattern != pattern
  {
    if t :| (id, t) in db.access && g == Report(db.access, id, t) && g.pattern != pattern {
      assert Report(acl, id, t) == g;
    }
    if t :| (id, t) in acl && g == Report(acl, id, t) {
      SamePatternSameTopic(db, (id, t), stored);
      assert Report(db.access, id, t) == g;
    }
  }

  // ---------- clearing a user ----------

  /** A row that neither belongs to the user nor is owned by the user. */
  predicate Foreign(db: Db, name: string, k: Key)
    requires name in db.users
  {
    k in db.access && k.0 != db.users[name].id && db.access[k].owner != Some(db.users[name].id)
  }

  /** The table holds exactly the foreign rows, and `other` has kept the account. */
  ghost predicate Cleared(db: Db, after: Db, name: string, other: string)
    requires name in db.users
  {
    && SubAcl(db.access, after.access) && (forall k :: k in after.access <==> Foreign(db, name, k))
    && other in db.users && other in after.users && after.users[other].id == db.users[other].id
  }

  /** No foreign row stands in the way of `other`. */
  ghost predicate OnlyOwnRowsBlock(db: Db, name: string, other: string, topic: string)
    requires name in db.users
  {
    forall k | k in db.access && Blocks(db, other, EscapeUnderscore(topic), k) :: !Foreign(db, name, k)
  }

  lemma ClearedFrees(db: Db, after: Db, name: string, other: string, topic: string)
    requires name in db.users && Cleared(db, after, name, other) && AllowedUsername(other) && AllowedTopic(topic)
    ensures Owned(after.access, db.users[name].id) == {}
    ensures AllowReservation(after, other, topic) == Success <==> OnlyOwnRowsBlock(db, name, other, topic)
  {
    var stored := EscapeUnderscore(topic);
    forall k | k in after.access ensures Blocks(after, other, stored, k) <==> Blocks(db, other, stored, k) {
    }
    assert AllowReservation(after, other, topic) == Success <==>
      forall k | k in after.access :: !Blocks(after, other, stored, k);
  }

  lemma DeletionClears(db: Db, name: string, other: string)
    requires AllowedUsername(name) && name in db.users && other in db.users && other != name
    ensures Cleared(db, RemoveUser(db, name).db, name, other)
    ensures RemoveUser(db, name).db.users == map n | n in db.users && n != name :: db.users[n]
  {
    assert (set n | n in db.users && n in {name} :: db.users[n].id) == {db.users[name].id};
  }

  lemma OtherClears(db: Db, name: string, at: int, other: string)
    requires AllowedUsername(name) && name in db.users && other in db.users && other != name
    ensures Cleared(db, ChangeRole(db, name, RoleAdmin).db, name, other)
    ensures Cleared(db, MarkUserRemoved(db, name, at).db, name, other)
    ensures Cleared(db, ResetAccess(db, name, "").db, name, other)
  {
    assert name != "";
  }

  /** However a user is cleared (promoted to administrator, marked as removed, reset or deleted), the
      user owns nothing afterwards, and another user may reserve a topic exactly if no row of third
      parties stood in the way before. */
  lemma ClearingFreesTopics(db: Db, name: string, at: int, other: string, topic: string)
    requires AllowedUsername(name) && name in db.users && other in db.users && other != name
    requires AllowedUsername(other) && AllowedTopic(topic)
    ensures forall after | after in [ChangeRole(db, name, RoleAdmin).db, MarkUserRemoved(db, name, at).db,
                                     ResetAccess(db, name, "").db, RemoveUser(db, name).db] ::
      && Owned(after.access, db.users[name].id) == {}
      && (AllowReservation(after, other, topic) == Success <==> OnlyOwnRowsBlock(db, name, other, topic))
  {
    OtherClears(db, name, at, other);
    DeletionClears(db, name, other);
    ClearedFrees(db, ChangeRole(db, name, RoleAdmin).db, name, other, topic);
    ClearedFrees(db, MarkUserRemoved(db, name, at).db, name, other, topic);
    ClearedFrees(db, ResetAccess(db, name, "").db, name, other, topic);
    ClearedFrees(db, RemoveUser(db, name).db, name, other, topic);
  }

  /** A regular user with a tier and room in it can reserve a topic that no entry concerns, becomes
      its owner and uses up one reservation. */
  lemma FreeTopicCanBeReserved(db: Db, name: string, topic: string, everyone: Permission)
    requires Consistent(db) && AllowedUsername(name) && name in db.users && AllowedTopic(topic)
    requires db.users[name].role == RoleUser && db.users[name].tier.Some?
    requires ReservationsCount(db, name) < TierLimit(db, db.users[name])
    requires forall k | k in db.access :: k.1 != EscapeUnderscore(topic) && !Like(EscapeUnderscore(topic), k.1)
    ensures var r := HandleReservationAdd(db, name, topic, everyone);
      && r.status == Success && HasReservation(r.db, name, topic)
      && ReservationsCount(r.db, name) == ReservationsCount(db, name) + 1
  {
    UsernameAboveEveryone(name);
    var id, stored := db.users[name].id, EscapeUnderscore(topic);
    FreeTopicPasses(db, name, topic);
    assert stored !in Owned(db.access, id);
    OwnedAfterReserve(db.access, id, stored, everyone, id);
    var added := AddReservation(db, name, topic, everyone);
    assert HandleReservationAdd(db, name, topic, everyone) == added;
    assert Owned(added.db.access, id) == Owned(db.access, id) + {stored};
  }

  lemma FreeTopicPasses(db: Db, name: string, topic: string)
    requires AllowedUsername(name) && AllowedTopic(topic)
    requires forall k | k in db.access :: k.1 != EscapeUnderscore(topic) && !Like(EscapeUnderscore(topic), k.1)
    ensures AllowReservation(db, name, topic) == Success
  {
    assert forall k | k in db.access :: !Blocks(db, name, EscapeUnderscore(topic), k);
  }
}
