/**
  Runs from a fresh database at which a promise of the source fails. The conditions under which each
  promise holds are in ReservationAccess and Quota.
 */
module Scenarios {
  import opened Text
  import opened Wildcards
  import opened Authorization
  import opened AccessControl
  import opened Ownership
  import opened Quota
  import opened ReservationAccess
  import opened ReservationGuard

  // ---------- a reservation of the same name in other case ----------

  const FULL: Permission := 3
  const NOTHING: Permission := 0

  function AliceReserves(): seq<Op>
  {
    [Register(ALICE, "u_alice", RoleAdmin)] + [Reserve(ALICE, "abc", FULL)]
  }

  lemma AliceReserved()
    ensures var db := Run(Initial(), AliceReserves());
      && db.users == AliceRegistered(RoleAdmin).users
      && db.access == Reserved(map[], "u_alice", "abc", FULL)
  {
    var db := AliceRegistered(RoleAdmin);
    AliceRegisters(RoleAdmin);
    UsernameAboveEveryone(ALICE);
    EscapeIdentity("abc");
    RunSnoc(Initial(), [Register(ALICE, "u_alice", RoleAdmin)], Reserve(ALICE, "abc", FULL));
    assert AllowReservation(db, ALICE, "abc") == Success;
    assert HandleReservationAdd(db, ALICE, "abc", FULL) == AddReservation(db, ALICE, "abc", FULL);
  }

  /** An administrator who owns every row can reserve any topic. */
  lemma OwnRowsDoNotBlock(db: Db, name: string, topic: string, everyone: Permission)
    requires Consistent(db) && AllowedUsername(name) && name in db.users && db.users[name].role == RoleAdmin
    requires AllowedTopic(topic) && forall k | k in db.access :: db.access[k].owner == Some(db.users[name].id)
    ensures Succeeds(db, name, topic, everyone)
  {
    UsernameAboveEveryone(name);
    assert forall k | k in db.access :: !Blocks(db, name, EscapeUnderscore(topic), k);
    assert AllowReservation(db, name, topic) == Success;
  }

  lemma LowerVariant(db: Db)
    requires db.access == Reserved(map[], "u_alice", "abc", FULL)
    ensures WritableVariant(db, "ABC")
  {
    EscapeIdentity("abc");
    assert Variant(db, "ABC", "abc") && VariantEntry(db, "ABC", "abc").write;
  }

  lemma TopicsAllowed()
    ensures AllowedTopic("abc") && AllowedTopic("ABC") && '_' !in "abc" && '_' !in "ABC"
  {
  }

  lemma SecondReservation(db: Db)
    requires Consistent(db) && db.users == AliceRegistered(RoleAdmin).users
    requires db.access == Reserved(map[], "u_alice", "abc", FULL)
    ensures Grants(db, ALICE, "ABC", NOTHING)
  {
    AliceRegisters(RoleAdmin);
    TopicsAllowed();
    assert db.users[ALICE] == Account("u_alice", RoleAdmin, None, None);
    OwnRowsDoNotBlock(db, ALICE, "ABC", NOTHING);
    GrantsWithoutUnderscore(db, ALICE, "ABC", NOTHING);
  }

  lemma VariantOpens(db: Db, table: seq<Row>, defaultAccess: Permission)
    requires Grants(db, ALICE, "ABC", NOTHING) && WritableVariant(db, "ABC")
    requires Tabulates(table, HandleReservationAdd(db, ALICE, "ABC", NOTHING).db)
    ensures Authorize(table, defaultAccess, None, "ABC", PERMISSION_WRITE)
  {
    OthersWriteAccess(db, ALICE, "ABC", NOTHING, table, defaultAccess, None);
  }

  /** One user reserves abc for everyone to write and then ABC for nobody else: everybody may write ABC. */
  lemma VariantOpensTopic(table: seq<Row>, defaultAccess: Permission)
    requires Tabulates(table, Run(Initial(), AliceReserves() + [Reserve(ALICE, "ABC", NOTHING)]))
    ensures !IsWrite(NOTHING) && Authorize(table, defaultAccess, None, "ABC", PERMISSION_WRITE)
  {
    var db := Run(Initial(), AliceReserves());
    AliceReserved();
    RunConsistent(AliceReserves());
    SecondReservation(db);
    LowerVariant(db);
    RunSnoc(Initial(), AliceReserves(), Reserve(ALICE, "ABC", NOTHING));
    VariantOpens(db, table, defaultAccess);
  }

  // ---------- a demoted administrator ----------

  lemma AliceOwnsOne(db: Db)
    requires db.users == AliceRegistered(RoleAdmin).users && db.access == Reserved(map[], "u_alice", "abc", FULL)
    ensures AllWithinQuota(db) && !Safe(db, SetRole(ALICE, RoleUser))
  {
    AliceRegisters(RoleAdmin);
    forall name ensures WithinQuota(db, name) {
    }
    assert "abc" in Owned(db.access, "u_alice");
    assert ReservationsCount(db, ALICE) > 0 && TierLimit(db, db.users[ALICE]) == 0;
  }

  /** An administrator without tier reserves a topic and becomes a regular user, who then owns more
      topics than allowed. */
  lemma DemotionBreaksQuota()
    ensures AllWithinQuota(Run(Initial(), AliceReserves()))
    ensures !AllWithinQuota(Run(Initial(), AliceReserves() + [SetRole(ALICE, RoleUser)]))
  {
    var db := Run(Initial(), AliceReserves());
    AliceReserved();
    AliceOwnsOne(db);
    RunConsistent(AliceReserves());
    SafeIsExact(db, SetRole(ALICE, RoleUser));
    RunSnoc(Initial(), AliceReserves(), SetRole(ALICE, RoleUser));
  }

  // ---------- an owner who may not write ----------

  const SUBSCRIBE: seq<Op> := [Register(ALICE, "u_alice", RoleUser)] + [NewTier("pro", 1)] + [SetTier(ALICE, "pro")]

  function AliceSubscribed(): Db
  {
    Db(Initial().users[ALICE := Account("u_alice", RoleUser, Some("pro"), None)], map["pro" := 1], map[])
  }

  lemma TierChosen(db: Db)
    requires db == AliceRegistered(RoleUser) && AllowedUsername(ALICE)
    ensures ChangeTier(AddTier(db, "pro", 1).db, ALICE, "pro").db == AliceSubscribed()
  {
    assert CheckReservationsLimit(AddTier(db, "pro", 1).db, ALICE, 1) == Success;
  }

  lemma AliceSubscribes()
    ensures Run(Initial(), SUBSCRIBE) == AliceSubscribed() && AllowedUsername(ALICE)
  {
    AliceRegisters(RoleUser);
    var register, tier := Register(ALICE, "u_alice", RoleUser), NewTier("pro", 1);
    RunSnoc(Initial(), [register], tier);
    RunSnoc(Initial(), [register] + [tier], SetTier(ALICE, "pro"));
    TierChosen(AliceRegistered(RoleUser));
  }

  function LockedOut(topic: string): Db
  {
    AliceSubscribed().(access := map[("u_alice", ToSQLWildcard(topic + "*")) := Entry(true, false, None)])
  }

  lemma AliceGranted(topic: string)
    requires AllowedTopic(topic) && |topic| < 64
    ensures Run(Initial(), SUBSCRIBE + [Grant(ALICE, topic + "*", PERMISSION_READ)]) == LockedOut(topic)
  {
    AliceSubscribes();
    RunSnoc(Initial(), SUBSCRIBE, Grant(ALICE, topic + "*", PERMISSION_READ));
    var db := AliceSubscribed();
    assert AllowedTopicPattern(topic + "*") && IsRead(PERMISSION_READ) && !IsWrite(PERMISSION_READ);
    assert AllowAccess(db, ALICE, topic + "*", PERMISSION_READ).db == LockedOut(topic);
  }

  /** The topic with a star after it matches the topic, is longer, and escapes the guard. */
  lemma StarredTopic(topic: string)
    requires AllowedTopic(topic) && '_' in topic
    ensures var p := ToSQLWildcard(topic + "*");
      Like(topic, p) && !Like(EscapeUnderscore(topic), p) && |p| > |EscapeUnderscore(topic)|
  {
    AllowedHasNoSQLChars(topic);
    PrefixLike(topic, topic);
    PrefixSQLLength(topic);
    var k := FirstUnderscore(topic);
    EscapeKeepsPrefix(topic, k);
    PrefixLike(topic, EscapeUnderscore(topic));
    assert Fold(topic[k]) != Fold(EscapeUnderscore(topic)[k]);
  }

  lemma LockedOutReserves(db: Db, topic: string)
    requires Consistent(db) && db == LockedOut(topic) && AllowedUsername(ALICE)
    requires AllowedTopic(topic) && '_' in topic
    ensures Succeeds(db, ALICE, topic, NOTHING)
  {
    StarredTopic(topic);
    UsernameAboveEveryone(ALICE);
    assert forall k | k in db.access :: !Blocks(db, ALICE, EscapeUnderscore(topic), k);
    assert AllowReservation(db, ALICE, topic) == Success;
    assert Owned(db.access, "u_alice") == {};
    assert TierLimit(db, db.users[ALICE]) == 1;
  }

  lemma LockedOutDenies(topic: string)
    requires AllowedTopic(topic) && '_' in topic
    ensures !LongerEntriesAllowWriting(LockedOut(topic), ALICE, topic)
  {
    StarredTopic(topic);
    assert OwnMatch(LockedOut(topic), ALICE, topic, ("u_alice", ToSQLWildcard(topic + "*")));
  }

  /** For every topic with an underscore and room for a star: a regular user with a read grant on the
      starred topic reserves the topic, which the guard lets through, and may not write it. */
  lemma OwnerLockedOut(topic: string, table: seq<Row>, defaultAccess: Permission)
    requires AllowedTopic(topic) && '_' in topic && |topic| < 64
    requires Tabulates(table, Run(Initial(), SUBSCRIBE + [Grant(ALICE, topic + "*", PERMISSION_READ)]
                                             + [Reserve(ALICE, topic, NOTHING)]))
    ensures !Authorize(table, defaultAccess, Some(User(ALICE, false)), topic, PERMISSION_WRITE)
  {
    var ops := SUBSCRIBE + [Grant(ALICE, topic + "*", PERMISSION_READ)];
    AliceSubscribes();
    AliceGranted(topic);
    RunConsistent(ops);
    LockedOutReserves(LockedOut(topic), topic);
    LockedOutDenies(topic);
    RunSnoc(Initial(), ops, Reserve(ALICE, topic, NOTHING));
    OwnerWriteAccess(LockedOut(topic), ALICE, topic, NOTHING, table, defaultAccess);
  }
}
