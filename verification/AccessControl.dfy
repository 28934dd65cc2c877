/**
  The user database of user.Manager as a value: accounts, tiers and the access control list, with
  one function per operation. Each SQL statement is one table update; a subselect that finds no row
  is NULL, and NULL compares to nothing.
 */
module AccessControl {
  import opened Text
  import opened Wildcards
  import opened Authorization

  const EVERYONE_ID := "u_everyone"

  datatype Role = RoleAdmin | RoleUser | RoleAnonymous

  datatype Account = Account(id: string, role: Role, tier: Option<string>, deleted: Option<int>)

  /** One row of user_access; its key is (user id, stored topic). */
  datatype Entry = Entry(read: bool, write: bool, owner: Option<string>)

  type Key = (string, string)
  type Acl = map<Key, Entry>

  datatype Db = Db(users: map<string, Account>, tiers: map<string, nat>, access: Acl)

  datatype Status =
    | Success
    | InvalidArgument
    | ConstraintViolation
    | UserNotFound
    | TierNotFound
    | TooManyReservations
    | TopicOwnedByOthers
    | Unauthorized
    | LimitReservations

  datatype Result = Result(db: Db, status: Status)

  function Initial(): Db
  {
    Db(map[EVERYONE := Account(EVERYONE_ID, RoleAnonymous, None, None)], map[], map[])
  }

  /** (SELECT id FROM user WHERE user = ?) */
  function IdOf(db: Db, name: string): Option<string>
  {
    if name in db.users then Some(db.users[name].id) else None
  }

  // ---------- statements on the access table ----------

  /** (user_id = id OR owner_user_id = id), which no row satisfies when the id is NULL. */
  predicate Touches(k: Key, e: Entry, id: Option<string>)
  {
    id.Some? && (k.0 == id.value || e.owner == id)
  }

  function DeleteUserAccess(acl: Acl, id: Option<string>): Acl
  {
    map k | k in acl && !Touches(k, acl[k], id) :: acl[k]
  }

  function DeleteTopicAccess(acl: Acl, id: Option<string>, topic: string): Acl
  {
    map k | k in acl && !(Touches(k, acl[k], id) && k.1 == topic) :: acl[k]
  }

  // ---------- user.Manager ----------

  function AllowAccess(db: Db, username: string, pattern: string, perm: Permission): Result
  {
    if (!AllowedUsername(username) && username != EVERYONE) || !AllowedTopicPattern(pattern) then
      Result(db, InvalidArgument)
    else if username !in db.users then Result(db, ConstraintViolation)
    else
      var k := (db.users[username].id, ToSQLWildcard(pattern));
      Result(db.(access := db.access[k := Entry(IsRead(perm), IsWrite(perm), None)]), Success)
  }

  function ResetAccess(db: Db, username: string, pattern: string): Result
  {
    if !AllowedUsername(username) && username != EVERYONE && username != "" then Result(db, InvalidArgument)
    else if !AllowedTopicPattern(pattern) && pattern != "" then Result(db, InvalidArgument)
    else if username == "" && pattern == "" then Result(db.(access := map[]), Success)
    else if pattern == "" then
      Result(db.(access := DeleteUserAccess(db.access, IdOf(db, username))), Success)
    else
      Result(db.(access := DeleteTopicAccess(db.access, IdOf(db, username), ToSQLWildcard(pattern))), Success)
  }

  /** The row stands in the way of a reservation of the stored topic: it has the topic itself or a
      pattern matching the stored form, and its owner is NULL or known to be someone else. */
  predicate Blocks(db: Db, username: string, stored: string, k: Key)
    requires k in db.access
  {
    && (k.1 == stored || Like(stored, k.1))
    && var owner := db.access[k].owner;
       owner.None? || (username in db.users && owner != Some(db.users[username].id))
  }

  function AllowReservation(db: Db, username: string, topic: string): Status
  {
    if (!AllowedUsername(username) && username != EVERYONE) || !AllowedTopic(topic) then InvalidArgument
    else if exists k | k in db.access :: Blocks(db, username, EscapeUnderscore(topic), k) then TopicOwnedByOthers
    else Success
  }

  function Reserved(acl: Acl, id: string, stored: string, everyone: Permission): Acl
  {
    acl[(id, stored) := Entry(true, true, Some(id))]
       [(EVERYONE_ID, stored) := Entry(IsRead(everyone), IsWrite(everyone), Some(id))]
  }

  function AddReservation(db: Db, username: string, topic: string, everyone: Permission): Result
  {
    if !AllowedUsername(username) || username == EVERYONE || !AllowedTopic(topic) then Result(db, InvalidArgument)
    else if username !in db.users || IdOf(db, EVERYONE) != Some(EVERYONE_ID) then Result(db, ConstraintViolation)
    else
      Result(db.(access := Reserved(db.access, db.users[username].id, EscapeUnderscore(topic), everyone)), Success)
  }

  function RemoveTopics(acl: Acl, id: Option<string>, everyone: Option<string>, topics: seq<string>): Acl
  {
    if topics == [] then acl
    else
      var stored := EscapeUnderscore(topics[|topics| - 1]);
      var before := RemoveTopics(acl, id, everyone, topics[..|topics| - 1]);
      DeleteTopicAccess(DeleteTopicAccess(before, id, stored), everyone, stored)
  }

  function RemoveReservations(db: Db, username: string, topics: seq<string>): Result
  {
    if !AllowedUsername(username) || username == EVERYONE || topics == [] then Result(db, InvalidArgument)
    else if exists i | 0 <= i < |topics| :: !AllowedTopic(topics[i]) then Result(db, InvalidArgument)
    else
      Result(db.(access := RemoveTopics(db.access, IdOf(db, username), IdOf(db, EVERYONE), topics)), Success)
  }

  function ChangeRole(db: Db, username: string, role: Role): Result
  {
    if !AllowedUsername(username) || role == RoleAnonymous then Result(db, InvalidArgument)
    else
      var users := if username in db.users then db.users[username := db.users[username].(role := role)] else db.users;
      var access := if role == RoleAdmin then DeleteUserAccess(db.access, IdOf(db, username)) else db.access;
      Result(db.(users := users, access := access), Success)
  }

  /** Inserting a user whose id or name is taken violates a key. */
  function AddUser(db: Db, username: string, id: string, role: Role): Result
  {
    if !AllowedUsername(username) || role == RoleAnonymous then Result(db, InvalidArgument)
    else if username in db.users || exists n | n in db.users :: db.users[n].id == id then
      Result(db, ConstraintViolation)
    else Result(db.(users := db.users[username := Account(id, role, None, None)]), Success)
  }

  /** DELETE FROM user for the given names; both foreign keys of user_access cascade. */
  function DeleteUsers(db: Db, names: set<string>): Db
  {
    var ids := set n | n in db.users && n in names :: db.users[n].id;
    db.(users := map n | n in db.users && n !in names :: db.users[n],
        access := map k | k in db.access && k.0 !in ids
                          && !(db.access[k].owner.Some? && db.access[k].owner.value in ids) :: db.access[k])
  }

  function RemoveUser(db: Db, username: string): Result
  {
    if !AllowedUsername(username) then Result(db, InvalidArgument)
    else Result(DeleteUsers(db, {username}), Success)
  }

  function MarkUserRemoved(db: Db, username: string, hardDeleteAt: int): Result
  {
    if !AllowedUsername(username) then Result(db, InvalidArgument)
    else if username !in db.users then Result(db, Success)
    else
      Result(db.(users := db.users[username := db.users[username].(deleted := Some(hardDeleteAt))],
                 access := DeleteUserAccess(db.access, IdOf(db, username))), Success)
  }

  function MarkedBefore(db: Db, now: int): set<string>
  {
    set n | n in db.users && db.users[n].deleted.Some? && db.users[n].deleted.value < now
  }

  function RemoveDeletedUsers(db: Db, now: int): Db
  {
    DeleteUsers(db, MarkedBefore(db, now))
  }

  // ---------- reservations ----------

  /** Stored topics whose row has the given user both as user and as owner. */
  function Owned(acl: Acl, id: string): set<string>
  {
    set k | k in acl && k.0 == id && acl[k].owner == Some(id) :: k.1
  }

  predicate Least(s: set<string>, m: string)
  {
    m in s && forall x | x in s :: x == m || Less(m, x)
  }

  lemma {:induction false} LeastExists(s: set<string>)
    requires s != {}
    ensures exists m :: Least(s, m)
  {
    var x :| x in s;
    if s == {x} {
      assert Least(s, x);
    } else {
      var rest := s - {x};
      assert exists y :: y in rest by {
        var y :| y in s && y != x;
        assert y in rest;
      }
      LeastExists(rest);
      var m :| Least(rest, m);
      LessTotal(x, m);
      if Less(x, m) {
        forall y | y in s ensures y == x || Less(x, y) {
          if y != x && y != m { LessTransitive(x, m, y); }
        }
        assert Least(s, x);
      } else {
        assert Least(s, m);
      }
    }
  }

  lemma LeastUnique(s: set<string>)
    ensures forall m, n | Least(s, m) && Least(s, n) :: m == n
  {
    forall m, n | Least(s, m) && Least(s, n) ensures m == n {
      LessTotal(m, n);
    }
  }

  /** ORDER BY topic */
  function InOrder(s: set<string>): (r: seq<string>)
    ensures |r| == |s|
    ensures forall t :: t in r <==> t in s
    ensures forall i, j | 0 <= i < j < |r| :: Less(r[i], r[j])
  {
    if s == {} then []
    else
      LeastExists(s);
      LeastUnique(s);
      var m :| Least(s, m);
      [m] + InOrder(s - {m})
  }

  datatype Reservation = Reservation(topic: string, everyone: Permission)

  function EveryonePermission(acl: Acl, stored: string): Permission
  {
    var k := (EVERYONE_ID, stored);
    if k in acl then NewPermission(acl[k].read, acl[k].write) else NewPermission(false, false)
  }

  /** The reported reservations, in the order of the stored topics. */
  function Reservations(db: Db, username: string): (r: seq<Reservation>)
  {
    if username !in db.users then []
    else
      var stored := InOrder(Owned(db.access, db.users[username].id));
      seq(|stored|, i requires 0 <= i < |stored| =>
        Reservation(UnescapeUnderscore(stored[i]), EveryonePermission(db.access, stored[i])))
  }

  function ReservationsCount(db: Db, username: string): nat
  {
    if username in db.users then |Owned(db.access, db.users[username].id)| else 0
  }

  predicate HasReservation(db: Db, username: string, topic: string)
  {
    username in db.users && EscapeUnderscore(topic) in Owned(db.access, db.users[username].id)
  }

  // ---------- tiers ----------

  function AddTier(db: Db, code: string, limit: nat): Result
  {
    if code in db.tiers then Result(db, ConstraintViolation)
    else Result(db.(tiers := db.tiers[code := limit]), Success)
  }

  function UpdateTier(db: Db, code: string, limit: nat): Result
  {
    if code in db.tiers then Result(db.(tiers := db.tiers[code := limit]), Success)
    else Result(db, Success)
  }

  function RemoveTier(db: Db, code: string): Result
  {
    if exists n | n in db.users :: db.users[n].tier == Some(code) then Result(db, ConstraintViolation)
    else Result(db.(tiers := map c | c in db.tiers && c != code :: db.tiers[c]), Success)
  }

  function TierLimit(db: Db, account: Account): nat
  {
    if account.tier.Some? && account.tier.value in db.tiers then db.tiers[account.tier.value] else 0
  }

  function CheckReservationsLimit(db: Db, username: string, limit: nat): Status
  {
    if username !in db.users then UserNotFound
    else
      var u := db.users[username];
      if u.tier.Some? && limit < TierLimit(db, u) && |Reservations(db, username)| > limit then TooManyReservations
      else Success
  }

  /** The user has a tier, the limit is below the tier's and the user owns more topics. */
  predicate OverLimit(db: Db, username: string, limit: nat)
  {
    && username in db.users && db.users[username].tier.Some?
    && limit < TierLimit(db, db.users[username])
    && |Owned(db.access, db.users[username].id)| > limit
  }

  lemma LimitChecked(db: Db, username: string, limit: nat)
    ensures CheckReservationsLimit(db, username, limit)
         == if username !in db.users then UserNotFound
            else if OverLimit(db, username, limit) then TooManyReservations else Success
  {
  }

  function ChangeTier(db: Db, username: string, code: string): Result
  {
    if !AllowedUsername(username) then Result(db, InvalidArgument)
    else if code !in db.tiers then Result(db, TierNotFound)
    else
      var status := CheckReservationsLimit(db, username, db.tiers[code]);
      if status != Success then Result(db, status)
      else Result(db.(users := db.users[username := db.users[username].(tier := Some(code))]), Success)
  }

  function ResetTier(db: Db, username: string): Result
  {
    if !AllowedUsername(username) && username != EVERYONE && username != "" then Result(db, InvalidArgument)
    else
      var status := CheckReservationsLimit(db, username, 0);
      if status != Success then Result(db, status)
      else Result(db.(users := db.users[username := db.users[username].(tier := None)]), Success)
  }
}
