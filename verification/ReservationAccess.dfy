/**
  The access a guarded reservation grants, judged by Authorize on the resulting table. A topic is
  stored with its underscores escaped, so all statements speak of the stored form.
 */
module ReservationAccess {
  import opened Text
  import opened Wildcards
  import opened Authorization
  import opened AccessControl
  import opened Ownership

  // ---------- patterns without wildcards ----------

  predicate SameUpToCase(a: string, b: string)
  {
    |a| == |b| && forall i | 0 <= i < |a| :: Fold(a[i]) == Fold(b[i])
  }

  predicate Literal(p: string)
  {
    NoSQLChars(p) && '*' !in p
  }

  lemma SameUpToCaseCons(a: string, b: string)
    requires a != [] && b != []
    ensures SameUpToCase(a, b) <==> Fold(a[0]) == Fold(b[0]) && SameUpToCase(a[1..], b[1..])
  {
  }

  /** A stored topic matches a text exactly when the two agree up to ASCII case. */
  lemma {:induction false} LiteralLike(t: string, p: string)
    requires Literal(p)
    ensures Like(t, EscapeUnderscore(p)) <==> SameUpToCase(t, p)
  {
    if p != [] {
      assert p == [p[0]] + p[1..];
      EscapeCons(p[0], p[1..], '_');
      var sql := EscapeUnderscore(p);
      assert sql[(if p[0] == '_' then 2 else 1)..] == EscapeUnderscore(p[1..]);
      if t != [] {
        SameUpToCaseCons(t, p);
        LiteralLike(t[1..], p[1..]);
      }
    }
  }

  lemma {:induction false} EscapeIdentity(t: string)
    requires '_' !in t
    ensures EscapeUnderscore(t) == t
  {
    if t != [] {
      assert t == [t[0]] + t[1..];
      EscapeCons(t[0], t[1..], '_');
      EscapeIdentity(t[1..]);
    }
  }

  lemma SelfUpToCase(t: string)
    ensures SameUpToCase(t, t)
  {
  }

  /** A case variant of an allowed topic is a literal pattern, as long as the topic when stored. */
  lemma CaseVariant(topic: string, t: string)
    requires AllowedTopic(topic) && SameUpToCase(topic, t)
    ensures Literal(t) && |EscapeUnderscore(t)| == |EscapeUnderscore(topic)|
  {
    forall i | 0 <= i < |t| ensures TopicChar(t[i]) && (topic[i] == '_' <==> t[i] == '_') {
      assert Fold(topic[i]) == Fold(t[i]) && TopicChar(topic[i]);
    }
    EscapeLengthEqual(topic, t);
  }

  // ---------- the table Authorize reads ----------

  /** A row of user_access joined with the user it belongs to. */
  predicate RowOf(db: Db, r: Row)
  {
    && r.user in db.users
    && var k := (db.users[r.user].id, r.topic);
       k in db.access && db.access[k].read == r.read && db.access[k].write == r.write
  }

  ghost predicate Tabulates(table: seq<Row>, db: Db)
  {
    forall r :: r in table <==> RowOf(db, r)
  }

  /** The row of a key, under the name of its user. */
  function RowFor(db: Db, name: string, stored: string): Row
    requires name in db.users && (db.users[name].id, stored) in db.access
  {
    var e := db.access[(db.users[name].id, stored)];
    Row(name, stored, e.read, e.write)
  }

  // ---------- a guarded reservation ----------

  /** Every row matching the topic has an owner, and it is the user if the user exists. */
  ghost predicate NoForeignRows(db: Db, username: string, topic: string)
  {
    forall k | k in db.access && Like(topic, k.1) ::
      db.access[k].owner.Some? && (username in db.users ==> db.access[k].owner == IdOf(db, username))
  }

  ghost predicate Succeeds(db: Db, name: string, topic: string, everyone: Permission)
  {
    Consistent(db) && HandleReservationAdd(db, name, topic, everyone).status == Success
  }

  /** A reservation that the account handler lets through while no foreign row matches the topic. */
  ghost predicate Grants(db: Db, name: string, topic: string, everyone: Permission)
  {
    Succeeds(db, name, topic, everyone) && NoForeignRows(db, name, topic)
  }

  lemma GuardWithoutUnderscore(db: Db, username: string, topic: string)
    requires AllowReservation(db, username, topic) == Success && '_' !in topic
    ensures NoForeignRows(db, username, topic)
  {
    EscapeIdentity(topic);
    forall k | k in db.access && Like(topic, k.1)
      ensures db.access[k].owner.Some? && (username in db.users ==> db.access[k].owner == IdOf(db, username))
    {
      assert !Blocks(db, username, topic, k);
    }
  }

  /** For a topic without underscore the guard itself sees to it that no foreign row matches. */
  lemma GrantsWithoutUnderscore(db: Db, name: string, topic: string, everyone: Permission)
    requires Succeeds(db, name, topic, everyone) && '_' !in topic
    ensures Grants(db, name, topic, everyone)
  {
    GuardWithoutUnderscore(db, name, topic);
  }

  /** The name under which a row of a reserved topic was stored. */
  function NameOfStored(stored: string): string { UnescapeUnderscore(stored) }

  /** Before the reservation every row matching the topic is the reserving user's, and stores the
      topic or a case variant of it. */
  lemma MatchingRowsAreOwn(db: Db, name: string, topic: string, everyone: Permission, k: Key)
    requires Grants(db, name, topic, everyone) && k in db.access && Like(topic, k.1)
    ensures k.0 == EVERYONE_ID || (k.0 == db.users[name].id && db.access[k].read && db.access[k].write)
    ensures EscapeUnderscore(NameOfStored(k.1)) == k.1 && SameUpToCase(topic, NameOfStored(k.1))
  {
    assert TaggedRowOk(k, db.access[k]);
    var t := NameOfStored(k.1);
    AllowedHasNoSQLChars(t);
    LiteralLike(topic, t);
  }

  lemma TopicMatchesItself(topic: string)
    requires AllowedTopic(topic)
    ensures Like(topic, EscapeUnderscore(topic))
  {
    AllowedHasNoSQLChars(topic);
    SelfUpToCase(topic);
    LiteralLike(topic, topic);
  }

  /** The row the reservation adds for its owner, and the row that decides for the owner. */
  lemma OwnerRows(db: Db, name: string, topic: string, everyone: Permission, table: seq<Row>)
    requires Succeeds(db, name, topic, everyone)
    requires Tabulates(table, HandleReservationAdd(db, name, topic, everyone).db)
    ensures var after := HandleReservationAdd(db, name, topic, everyone).db;
      var stored, id := EscapeUnderscore(topic), db.users[name].id;
      && AllowedUsername(name) && id != EVERYONE_ID
      && after.access[(id, stored)] == Entry(true, true, Some(id))
      && Row(name, stored, true, true) in table && Like(topic, stored)
      && Matching(table, name, topic) != []
      && var d := First(Matching(table, name, topic));
         d.user == name && |d.topic| >= |stored| && RowOf(after, d) && Like(topic, d.topic)
  {
    var after := HandleReservationAdd(db, name, topic, everyone).db;
    TopicMatchesItself(topic);
    UsernameAboveEveryone(name);
    var own := RowFor(after, name, EscapeUnderscore(topic));
    assert RowOf(after, own);
    OwnEntryDecides(table, name, topic, own);
    MatchingContents(table, name, topic);
  }

  /** Rows other than the two written are those from before. */
  lemma OtherRowsKept(db: Db, name: string, topic: string, everyone: Permission, k: Key)
    requires Succeeds(db, name, topic, everyone) && k.1 != EscapeUnderscore(topic)
    ensures var after := HandleReservationAdd(db, name, topic, everyone).db;
      (k in after.access <==> k in db.access) && (k in db.access ==> after.access[k] == db.access[k])
  {
  }

  /** The owner may read and write the topic, whatever the entries of everyone and the default say. */
  lemma OwnerHasFullAccess(db: Db, name: string, topic: string, everyone: Permission, table: seq<Row>,
                           defaultAccess: Permission, perm: Permission)
    requires Grants(db, name, topic, everyone)
    requires Tabulates(table, HandleReservationAdd(db, name, topic, everyone).db)
    requires perm == PERMISSION_READ || perm == PERMISSION_WRITE
    ensures Authorize(table, defaultAccess, Some(User(name, db.users[name].role == RoleAdmin)), topic, perm)
  {
    OwnerRows(db, name, topic, everyone, table);
    var d := First(Matching(table, name, topic));
    var k := (db.users[name].id, d.topic);
    if d.topic != EscapeUnderscore(topic) {
      OtherRowsKept(db, name, topic, everyone, k);
      MatchingRowsAreOwn(db, name, topic, everyone, k);
    }
  }

  // ---------- the owner, with foreign rows ----------

  /** An entry of the user that matches the topic. */
  predicate OwnMatch(db: Db, name: string, topic: string, k: Key)
  {
    name in db.users && k in db.access && k.0 == db.users[name].id && Like(topic, k.1)
  }

  /** Every entry of the user that matches the topic, is longer than its stored form and denies
      writing is outranked by one that allows it. */
  ghost predicate LongerEntriesAllowWriting(db: Db, name: string, topic: string)
  {
    forall k | OwnMatch(db, name, topic, k) && |k.1| > |EscapeUnderscore(topic)| && !db.access[k].write ::
      exists j :: OwnMatch(db, name, topic, j) && |j.1| >= |k.1| && db.access[j].write
  }

  lemma DecidingWriterOutranks(db: Db, name: string, topic: string, everyone: Permission, table: seq<Row>)
    requires Succeeds(db, name, topic, everyone)
    requires Tabulates(table, HandleReservationAdd(db, name, topic, everyone).db)
    requires Matching(table, name, topic) != [] && First(Matching(table, name, topic)).write
    ensures LongerEntriesAllowWriting(db, name, topic)
  {
    var after := HandleReservationAdd(db, name, topic, everyone).db;
    OwnerRows(db, name, topic, everyone, table);
    var d := First(Matching(table, name, topic));
    var j := (db.users[name].id, d.topic);
    forall k | OwnMatch(db, name, topic, k) && |k.1| > |EscapeUnderscore(topic)| && !db.access[k].write
      ensures exists j :: OwnMatch(db, name, topic, j) && |j.1| >= |k.1| && db.access[j].write
    {
      OtherRowsKept(db, name, topic, everyone, k);
      var r := RowFor(after, name, k.1);
      assert RowOf(after, r);
      OwnEntryDecides(table, name, topic, r);
      OtherRowsKept(db, name, topic, everyone, j);
      assert OwnMatch(db, name, topic, j);
    }
  }

  lemma DenyingRowIsOutranked(db: Db, name: string, topic: string, everyone: Permission, table: seq<Row>)
    requires Succeeds(db, name, topic, everyone) && LongerEntriesAllowWriting(db, name, topic)
    requires Tabulates(table, HandleReservationAdd(db, name, topic, everyone).db)
    ensures Matching(table, name, topic) != [] && First(Matching(table, name, topic)).write
  {
    var after := HandleReservationAdd(db, name, topic, everyone).db;
    var stored := EscapeUnderscore(topic);
    OwnerRows(db, name, topic, everyone, table);
    FirstIsTop(table, name, topic);
    var d := First(Matching(table, name, topic));
    assert Applies(Row(name, stored, true, true), name, topic);
    var k := (db.users[name].id, d.topic);
    if d.topic != stored && |d.topic| > |stored| && !d.write {
      OtherRowsKept(db, name, topic, everyone, k);
      assert OwnMatch(db, name, topic, k);
      var j :| OwnMatch(db, name, topic, j) && |j.1| >= |k.1| && db.access[j].write;
      OtherRowsKept(db, name, topic, everyone, j);
      var r := RowFor(after, name, j.1);
      assert RowOf(after, r);
      assert Applies(r, name, topic) && Before(r, d);
    }
  }

  /** With foreign rows, a regular owner may write exactly when every longer entry of the owner that
      matches the topic and denies writing is outranked. */
  lemma OwnerWriteAccess(db: Db, name: string, topic: string, everyone: Permission, table: seq<Row>,
                         defaultAccess: Permission)
    requires Succeeds(db, name, topic, everyone)
    requires Tabulates(table, HandleReservationAdd(db, name, topic, everyone).db)
    ensures Authorize(table, defaultAccess, Some(User(name, false)), topic, PERMISSION_WRITE)
       <==> LongerEntriesAllowWriting(db, name, topic)
  {
    OwnerRows(db, name, topic, everyone, table);
    if First(Matching(table, name, topic)).write {
      DecidingWriterOutranks(db, name, topic, everyone, table);
    }
    if LongerEntriesAllowWriting(db, name, topic) {
      DenyingRowIsOutranked(db, name, topic, everyone, table);
    }
  }

  // ---------- everybody else ----------

  /** Another topic, equal up to case, has an entry of everyone. */
  predicate Variant(db: Db, topic: string, t: string)
  {
    t != topic && SameUpToCase(topic, t) && (EVERYONE_ID, EscapeUnderscore(t)) in db.access
  }

  function VariantEntry(db: Db, topic: string, t: string): Entry
    requires Variant(db, topic, t)
  {
    db.access[(EVERYONE_ID, EscapeUnderscore(t))]
  }

  /** Some variant lets everyone write. */
  ghost predicate WritableVariant(db: Db, topic: string)
  {
    exists t :: Variant(db, topic, t) && VariantEntry(db, topic, t).write
  }

  ghost predicate HasVariant(db: Db, topic: string)
  {
    exists t :: Variant(db, topic, t)
  }

  /** The user is not the reserving user and not an administrator. */
  predicate IsOther(name: string, user: Option<User>)
  {
    user.Some? ==> user.value.name != name && AllowedUsername(user.value.name) && !user.value.admin
  }

  /** What the entry for everyone allows on the topic, or on a variant of it. */
  function EntryFor(db: Db, topic: string, everyone: Permission, t: string): Entry
    requires t == topic || Variant(db, topic, t)
  {
    if t == topic then Entry(IsRead(everyone), IsWrite(everyone), None)
    else VariantEntry(db, topic, t)
  }

  lemma EntryStored(db: Db, name: string, topic: string, everyone: Permission, t: string)
    requires Grants(db, name, topic, everyone) && (t == topic || Variant(db, topic, t))
    ensures var after := HandleReservationAdd(db, name, topic, everyone).db;
      var e := EntryFor(db, topic, everyone, t);
      && (EVERYONE_ID, EscapeUnderscore(t)) in after.access
      && RowOf(after, Row(EVERYONE, EscapeUnderscore(t), e.read, e.write))
      && Like(topic, EscapeUnderscore(t)) && |EscapeUnderscore(t)| == |EscapeUnderscore(topic)|
  {
    SelfUpToCase(topic);
    CaseVariant(topic, t);
    LiteralLike(topic, t);
    UnescapeEscape(t, '_');
    UnescapeEscape(topic, '_');
    if t != topic { OtherRowsKept(db, name, topic, everyone, (EVERYONE_ID, EscapeUnderscore(t))); }
  }

  /** For everybody else the rows that match are entries of everyone on the topic or on a variant. */
  lemma OthersSeeEveryoneRows(db: Db, name: string, topic: string, everyone: Permission, r: Row, other: string)
    requires Grants(db, name, topic, everyone) && RowOf(HandleReservationAdd(db, name, topic, everyone).db, r)
    requires other != name && Applies(r, other, topic)
    ensures var t := NameOfStored(r.topic);
      && r.user == EVERYONE && r.topic == EscapeUnderscore(t)
      && (t == topic || Variant(db, topic, t))
      && var e := EntryFor(db, topic, everyone, t); r.read == e.read && r.write == e.write
  {
    var after := HandleReservationAdd(db, name, topic, everyone).db;
    var k := (after.users[r.user].id, r.topic);
    UnescapeEscape(topic, '_');
    if r.topic != EscapeUnderscore(topic) { OtherRowsKept(db, name, topic, everyone, k); }
    if k in db.access { MatchingRowsAreOwn(db, name, topic, everyone, k); }
  }

  lemma OthersDecidingRow(db: Db, name: string, topic: string, everyone: Permission, table: seq<Row>, other: string)
    returns (t: string)
    requires Grants(db, name, topic, everyone) && other != name
    requires Tabulates(table, HandleReservationAdd(db, name, topic, everyone).db)
    ensures Matching(table, other, topic) != [] && (t == topic || Variant(db, topic, t))
    ensures var d, e := First(Matching(table, other, topic)), EntryFor(db, topic, everyone, t);
      d == Row(EVERYONE, EscapeUnderscore(t), e.read, e.write) && Top(table, other, topic, d)
  {
    EntryStored(db, name, topic, everyone, topic);
    var chosen := Row(EVERYONE, EscapeUnderscore(topic), IsRead(everyone), IsWrite(everyone));
    assert chosen in table && Applies(chosen, other, topic);
    MatchingContents(table, other, topic);
    assert chosen in Matching(table, other, topic);
    FirstIsTop(table, other, topic);
    var d := First(Matching(table, other, topic));
    OthersSeeEveryoneRows(db, name, topic, everyone, d, other);
    t := NameOfStored(d.topic);
  }

  /** Everyone may write the topic, or a variant of it. */
  ghost predicate SomeEntryWrites(db: Db, topic: string, everyone: Permission)
  {
    IsWrite(everyone) || WritableVariant(db, topic)
  }

  /** A row that writes as much as any other entry ties for the first place. */
  lemma WritingEntryIsTop(db: Db, name: string, topic: string, everyone: Permission, table: seq<Row>, other: string,
                          t: string)
    requires Grants(db, name, topic, everyone) && other != name
    requires Tabulates(table, HandleReservationAdd(db, name, topic, everyone).db)
    requires t == topic || Variant(db, topic, t)
    requires EntryFor(db, topic, everyone, t).write == SomeEntryWrites(db, topic, everyone)
    ensures var e := EntryFor(db, topic, everyone, t);
      Top(table, other, topic, Row(EVERYONE, EscapeUnderscore(t), e.read, e.write))
  {
    var e := EntryFor(db, topic, everyone, t);
    var r := Row(EVERYONE, EscapeUnderscore(t), e.read, e.write);
    EntryStored(db, name, topic, everyone, t);
    LessTotal(EVERYONE, EVERYONE);
    forall s | s in table && Applies(s, other, topic) ensures !Before(s, r) {
      OthersSeeEveryoneRows(db, name, topic, everyone, s, other);
      EntryStored(db, name, topic, everyone, NameOfStored(s.topic));
    }
  }

  lemma DecidingEntryWrites(db: Db, name: string, topic: string, everyone: Permission, table: seq<Row>, other: string,
                            t: string)
    requires Grants(db, name, topic, everyone) && other != name
    requires Tabulates(table, HandleReservationAdd(db, name, topic, everyone).db)
    requires t == topic || Variant(db, topic, t)
    requires var e := EntryFor(db, topic, everyone, t);
      Top(table, other, topic, Row(EVERYONE, EscapeUnderscore(t), e.read, e.write))
    ensures EntryFor(db, topic, everyone, t).write == SomeEntryWrites(db, topic, everyone)
  {
    var e := EntryFor(db, topic, everyone, t);
    var d := Row(EVERYONE, EscapeUnderscore(t), e.read, e.write);
    if SomeEntryWrites(db, topic, everyone) {
      var w := topic;
      if !IsWrite(everyone) { w :| Variant(db, topic, w) && VariantEntry(db, topic, w).write; }
      var f := EntryFor(db, topic, everyone, w);
      WritingEntryIsTop(db, name, topic, everyone, table, other, w);
      TopsTie(table, other, topic, d, Row(EVERYONE, EscapeUnderscore(w), f.read, f.write));
    }
  }

  lemma OtherName(db: Db, name: string, topic: string, everyone: Permission, user: Option<User>)
    requires Succeeds(db, name, topic, everyone) && IsOther(name, user)
    ensures NameOf(user) != name
  {
    UsernameAboveEveryone(name);
  }

  /** Everybody else is judged by one of the entries of everyone that write as much as any. */
  lemma OthersVerdict(db: Db, name: string, topic: string, everyone: Permission, table: seq<Row>,
                      defaultAccess: Permission, user: Option<User>)
    returns (t: string)
    requires Grants(db, name, topic, everyone) && IsOther(name, user)
    requires Tabulates(table, HandleReservationAdd(db, name, topic, everyone).db)
    ensures t == topic || Variant(db, topic, t)
    ensures var e := EntryFor(db, topic, everyone, t);
      && e.write == SomeEntryWrites(db, topic, everyone)
      && Authorize(table, defaultAccess, user, topic, PERMISSION_WRITE) == e.write
      && ReadAllowed(table, defaultAccess, user, topic) == e.read
  {
    OtherName(db, name, topic, everyone, user);
    t := OthersDecidingRow(db, name, topic, everyone, table, NameOf(user));
    DecidingEntryWrites(db, name, topic, everyone, table, NameOf(user), t);
    FirstDecides(table, defaultAccess, user, topic);
  }

  /** Everybody else may write exactly when the reservation lets everyone write, or an entry on the
      same name in other case does. */
  lemma OthersWriteAccess(db: Db, name: string, topic: string, everyone: Permission, table: seq<Row>,
                          defaultAccess: Permission, user: Option<User>)
    requires Grants(db, name, topic, everyone) && IsOther(name, user)
    requires Tabulates(table, HandleReservationAdd(db, name, topic, everyone).db)
    ensures Authorize(table, defaultAccess, user, topic, PERMISSION_WRITE)
       <==> IsWrite(everyone) || WritableVariant(db, topic)
  {
    var t := OthersVerdict(db, name, topic, everyone, table, defaultAccess, user);
  }

  /** The variants that write as much as any entry read as the reservation says. */
  ghost predicate VariantsReadAlike(db: Db, topic: string, everyone: Permission)
  {
    forall t | Variant(db, topic, t) && VariantEntry(db, topic, t).write == SomeEntryWrites(db, topic, everyone) ::
      VariantEntry(db, topic, t).read == IsRead(everyone)
  }

  /** In every scan order everybody else reads as the reservation says. */
  ghost predicate ReadsAsChosen(table: seq<Row>, defaultAccess: Permission, user: Option<User>, topic: string,
                                everyone: Permission)
  {
    forall b | Reordered(table, b) :: ReadAllowed(b, defaultAccess, user, topic) == IsRead(everyone)
  }

  lemma AlikeVariantsRead(db: Db, name: string, topic: string, everyone: Permission, table: seq<Row>,
                          defaultAccess: Permission, user: Option<User>)
    requires Grants(db, name, topic, everyone) && IsOther(name, user) && VariantsReadAlike(db, topic, everyone)
    requires Tabulates(table, HandleReservationAdd(db, name, topic, everyone).db)
    ensures ReadAllowed(table, defaultAccess, user, topic) == IsRead(everyone)
  {
    var t := OthersVerdict(db, name, topic, everyone, table, defaultAccess, user);
  }

  lemma UnlikeVariantReads(db: Db, name: string, topic: string, everyone: Permission, table: seq<Row>,
                           defaultAccess: Permission, user: Option<User>)
    requires Grants(db, name, topic, everyone) && IsOther(name, user) && !VariantsReadAlike(db, topic, everyone)
    requires Tabulates(table, HandleReservationAdd(db, name, topic, everyone).db)
    ensures !ReadsAsChosen(table, defaultAccess, user, topic, everyone)
  {
    OtherName(db, name, topic, everyone, user);
    var t :| Variant(db, topic, t) && VariantEntry(db, topic, t).write == SomeEntryWrites(db, topic, everyone)
             && VariantEntry(db, topic, t).read != IsRead(everyone);
    var e := VariantEntry(db, topic, t);
    WritingEntryIsTop(db, name, topic, everyone, table, NameOf(user), t);
    var b := TopDecidesSomewhere(table, defaultAccess, user, topic, Row(EVERYONE, EscapeUnderscore(t), e.read, e.write));
  }

  /** Everybody else reads as the reservation says, in every scan order, exactly when the variants
      that tie with it, or precede it by their write bit, read alike. */
  lemma OthersReadAccess(db: Db, name: string, topic: string, everyone: Permission, table: seq<Row>,
                         defaultAccess: Permission, user: Option<User>)
    requires Grants(db, name, topic, everyone) && IsOther(name, user)
    requires Tabulates(table, HandleReservationAdd(db, name, topic, everyone).db)
    ensures ReadsAsChosen(table, defaultAccess, user, topic, everyone) <==> VariantsReadAlike(db, topic, everyone)
  {
    if VariantsReadAlike(db, topic, everyone) {
      forall b | Reordered(table, b) ensures ReadAllowed(b, defaultAccess, user, topic) == IsRead(everyone) {
        ReorderedMembers(table, b);
        AlikeVariantsRead(db, name, topic, everyone, b, defaultAccess, user);
      }
    } else {
      UnlikeVariantReads(db, name, topic, everyone, table, defaultAccess, user);
    }
  }

  /** Without an entry on the same name in other case, everybody else gets exactly the permission the
      owner chose for everyone. */
  lemma OthersGetChosenPermission(db: Db, name: string, topic: string, everyone: Permission, table: seq<Row>,
                                  defaultAccess: Permission, user: Option<User>)
    requires Grants(db, name, topic, everyone) && !HasVariant(db, topic) && IsOther(name, user)
    requires Tabulates(table, HandleReservationAdd(db, name, topic, everyone).db)
    ensures Authorize(table, defaultAccess, user, topic, PERMISSION_WRITE) == IsWrite(everyone)
    ensures Authorize(table, defaultAccess, user, topic, PERMISSION_READ) == IsRead(everyone)
  {
    OthersWriteAccess(db, name, topic, everyone, table, defaultAccess, user);
    AlikeVariantsRead(db, name, topic, everyone, table, defaultAccess, user);
  }
}
