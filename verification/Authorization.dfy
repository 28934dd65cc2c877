/**
  The decision of user.Manager.Authorize: the access control entries of the user and of everyone
  that match the topic, ordered by user name, stored pattern length and write bit; the first row
  decides. The table's scan order is a parameter, because SQL leaves the order of ties open.
 */
module Authorization {
  import opened Text
  import opened Wildcards

  // ---------- permissions ----------

  type Permission = bv8
  const PERMISSION_READ: Permission := 1
  const PERMISSION_WRITE: Permission := 2

  function NewPermission(read: bool, write: bool): (p: Permission)
    ensures IsRead(p) == read && IsWrite(p) == write
  {
    (if read then PERMISSION_READ else 0) | (if write then PERMISSION_WRITE else 0)
  }

  predicate IsRead(p: Permission) { p & PERMISSION_READ != 0 }

  predicate IsWrite(p: Permission) { p & PERMISSION_WRITE != 0 }

  // ---------- the query ----------

  const EVERYONE := "*"

  datatype Row = Row(user: string, topic: string, read: bool, write: bool)

  datatype User = User(name: string, admin: bool)

  predicate Applies(r: Row, username: string, topic: string)
  {
    (r.user == EVERYONE || r.user == username) && Like(topic, r.topic)
  }

  /** ORDER BY user DESC, LENGTH(topic) DESC, write DESC: `a` comes strictly before `b`. */
  predicate Before(a: Row, b: Row)
  {
    || Less(b.user, a.user)
    || (a.user == b.user && |a.topic| > |b.topic|)
    || (a.user == b.user && |a.topic| == |b.topic| && a.write && !b.write)
  }

  function Matching(table: seq<Row>, username: string, topic: string): seq<Row>
  {
    if table == [] then []
    else
      var rest := Matching(table[1..], username, topic);
      if Applies(table[0], username, topic) then [table[0]] + rest else rest
  }

  /** The first row of a stable ORDER BY over `rows`. */
  function First(rows: seq<Row>): (r: Row)
    requires rows != []
    ensures r in rows
  {
    if |rows| == 1 then rows[0]
    else
      var best := First(rows[..|rows| - 1]);
      var last := rows[|rows| - 1];
      if Before(last, best) then last else best
  }

  function ResolvePerms(granted: Permission, perm: Permission): bool
  {
    (perm == PERMISSION_READ && IsRead(granted)) || (perm == PERMISSION_WRITE && IsWrite(granted))
  }

  function Authorize(table: seq<Row>, defaultAccess: Permission, user: Option<User>, topic: string,
                     perm: Permission): bool
  {
    if user.Some? && user.value.admin then true
    else
      var username := if user.Some? then user.value.name else EVERYONE;
      var rows := Matching(table, username, topic);
      if rows == [] then ResolvePerms(defaultAccess, perm)
      else ResolvePerms(NewPermission(First(rows).read, First(rows).write), perm)
  }

  // ---------- what the first row is, without an order on ties ----------

  /** `r` applies and no applying row comes before it. */
  ghost predicate Top(table: seq<Row>, username: string, topic: string, r: Row)
  {
    && r in table && Applies(r, username, topic)
    && forall s | s in table && Applies(s, username, topic) :: !Before(s, r)
  }

  lemma {:induction false} MatchingContents(table: seq<Row>, username: string, topic: string)
    ensures forall r :: r in Matching(table, username, topic) <==> r in table && Applies(r, username, topic)
  {
    if table != [] {
      MatchingContents(table[1..], username, topic);
      assert table == [table[0]] + table[1..];
    }
  }

  lemma BeforeTransitive(a: Row, b: Row, c: Row)
    requires !Before(b, a) && !Before(c, b)
    ensures !Before(c, a)
  {
    LessTotal(a.user, b.user);
    LessTotal(b.user, c.user);
    LessTotal(a.user, c.user);
    if Less(b.user, a.user) && Less(c.user, b.user) { LessTransitive(c.user, b.user, a.user); }
  }

  lemma BeforeAsymmetric(a: Row, b: Row)
    ensures !(Before(a, b) && Before(b, a))
  {
    LessTotal(a.user, b.user);
  }

  lemma {:induction false} FirstIsMinimal(rows: seq<Row>)
    requires rows != []
    ensures forall s | s in rows :: !Before(s, First(rows))
  {
    var n := |rows| - 1;
    var last := rows[n];
    assert rows == rows[..n] + [last];
    BeforeAsymmetric(last, last);
    if n > 0 {
      FirstIsMinimal(rows[..n]);
      var best := First(rows[..n]);
      BeforeAsymmetric(last, best);
      forall s | s in rows[..n] ensures !Before(s, First(rows)) {
        if Before(last, best) { BeforeTransitive(last, best, s); }
      }
    }
  }

  lemma FirstIsTop(table: seq<Row>, username: string, topic: string)
    requires Matching(table, username, topic) != []
    ensures Top(table, username, topic, First(Matching(table, username, topic)))
  {
    MatchingContents(table, username, topic);
    FirstIsMinimal(Matching(table, username, topic));
  }

  lemma TopsTie(table: seq<Row>, username: string, topic: string, r: Row, s: Row)
    requires Top(table, username, topic, r) && Top(table, username, topic, s)
    ensures r.user == s.user && |r.topic| == |s.topic| && r.write == s.write
  {
    LessTotal(r.user, s.user);
  }

  /** Every allowed user name sorts above the name of everyone. */
  lemma UsernameAboveEveryone(u: string)
    requires AllowedUsername(u)
    ensures Less(EVERYONE, u) && u != EVERYONE
  {
  }

  /** The decision without an order of the rows: administrators may do everything, no matching entry
      leaves the default, and otherwise a top row decides. */
  lemma AuthorizeByTop(table: seq<Row>, defaultAccess: Permission, user: Option<User>, topic: string, perm: Permission)
    requires perm == PERMISSION_READ || perm == PERMISSION_WRITE
    ensures user.Some? && user.value.admin ==> Authorize(table, defaultAccess, user, topic, perm)
    ensures !(user.Some? && user.value.admin) && (forall r | r in table :: !Applies(r, NameOf(user), topic)) ==>
      Authorize(table, defaultAccess, user, topic, perm)
      == if perm == PERMISSION_READ then IsRead(defaultAccess) else IsWrite(defaultAccess)
    ensures !(user.Some? && user.value.admin) && (exists r :: r in table && Applies(r, NameOf(user), topic)) ==>
      exists r :: Top(table, NameOf(user), topic, r)
                  && Authorize(table, defaultAccess, user, topic, perm) == if perm == PERMISSION_READ then r.read else r.write
  {
    var u := NameOf(user);
    var rows := Matching(table, u, topic);
    MatchingContents(table, u, topic);
    if rows != [] {
      FirstIsTop(table, u, topic);
      assert rows[0] in rows;
    }
  }

  // ---------- precedence ----------

  /** If any entry of the user matches, an entry of the user decides, and it has the longest stored
      pattern among the user's matching entries, whatever everyone's entries say. */
  lemma OwnEntryDecides(table: seq<Row>, u: string, topic: string, own: Row)
    requires AllowedUsername(u)
    requires own in table && own.user == u && Like(topic, own.topic)
    ensures Matching(table, u, topic) != []
    ensures var d := First(Matching(table, u, topic)); d.user == u && |d.topic| >= |own.topic|
  {
    MatchingContents(table, u, topic);
    FirstIsTop(table, u, topic);
    UsernameAboveEveryone(u);
    LessTotal(EVERYONE, u);
    assert Applies(own, u, topic);
  }

  lemma {:induction false} MatchingFiltered(table: seq<Row>, u: string, topic: string)
    ensures Matching(OnlyUser(table, u), u, topic) == OnlyUser(Matching(table, u, topic), u)
  {
    if table != [] {
      MatchingFiltered(table[1..], u, topic);
      if table[0].user == u {
        assert OnlyUser(table, u)[1..] == OnlyUser(table[1..], u);
      }
      if Applies(table[0], u, topic) {
        assert Matching(table, u, topic)[1..] == Matching(table[1..], u, topic);
      }
    }
  }

  function OnlyUser(table: seq<Row>, u: string): seq<Row>
  {
    if table == [] then []
    else if table[0].user == u then [table[0]] + OnlyUser(table[1..], u)
    else OnlyUser(table[1..], u)
  }

  lemma {:induction false} OnlyUserSnoc(rows: seq<Row>, last: Row, u: string)
    ensures OnlyUser(rows + [last], u) == OnlyUser(rows, u) + (if last.user == u then [last] else [])
  {
    if rows == [] {
      assert rows + [last] == [last];
      assert [last][1..] == [];
    } else {
      assert (rows + [last])[1..] == rows[1..] + [last];
      OnlyUserSnoc(rows[1..], last, u);
    }
  }

  lemma OwnBeforeEveryone(own: Row, other: Row)
    requires AllowedUsername(own.user) && other.user == EVERYONE
    ensures Before(own, other) && !Before(other, own)
  {
  }

  lemma FirstSnoc(rows: seq<Row>, last: Row)
    requires rows != []
    ensures First(rows + [last]) == if Before(last, First(rows)) then last else First(rows)
  {
  }

  /** The stable first row is unaffected by rows of everyone once the user has a row. */
  lemma {:induction false} FirstIgnoresEveryone(rows: seq<Row>, u: string)
    requires AllowedUsername(u) && u != EVERYONE
    requires forall r | r in rows :: r.user == u || r.user == EVERYONE
    requires rows != []
    ensures OnlyUser(rows, u) != [] ==> First(rows) == First(OnlyUser(rows, u))
    ensures OnlyUser(rows, u) == [] ==> First(rows).user == EVERYONE
  {
    var n := |rows| - 1;
    var init, last := rows[..n], rows[n];
    assert rows == init + [last];
    OnlyUserSnoc(init, last, u);
    if n == 0 {
      assert OnlyUser(init, u) == [] && rows == [last];
    } else {
      FirstIgnoresEveryone(init, u);
      FirstSnoc(init, last);
      OnlyUserMembers(init, u);
      var own, best := OnlyUser(init, u), First(init);
      if last.user == u && own == [] {
        OwnBeforeEveryone(last, best);
        assert OnlyUser(rows, u) == [last];
      } else if last.user == u {
        FirstSnoc(own, last);
        assert OnlyUser(rows, u) == own + [last];
      } else if own != [] {
        OwnBeforeEveryone(best, last);
        assert OnlyUser(rows, u) == own;
      } else {
        assert First(rows) in rows && First(rows).user != u;
      }
    }
  }

  lemma {:induction false} OnlyUserMembers(rows: seq<Row>, u: string)
    ensures forall r :: r in OnlyUser(rows, u) <==> r in rows && r.user == u
  {
    if rows != [] { OnlyUserMembers(rows[1..], u); }
  }

  /** A user with a matching entry is judged as if the entries of everyone did not exist. */
  lemma EveryoneIrrelevant(table: seq<Row>, defaultAccess: Permission, u: User, topic: string,
                           perm: Permission, own: Row)
    requires AllowedUsername(u.name)
    requires own in table && own.user == u.name && Like(topic, own.topic)
    ensures Authorize(table, defaultAccess, Some(u), topic, perm)
         == Authorize(OnlyUser(table, u.name), defaultAccess, Some(u), topic, perm)
  {
    var rows := Matching(table, u.name, topic);
    OwnEntryDecides(table, u.name, topic, own);
    MatchingContents(table, u.name, topic);
    MatchingFiltered(table, u.name, topic);
    FirstIgnoresEveryone(rows, u.name);
    UsernameAboveEveryone(u.name);
  }

  // ---------- independence of the scan order ----------

  function NameOf(user: Option<User>): string
  {
    if user.Some? then user.value.name else EVERYONE
  }

  ghost predicate SameRows(a: seq<Row>, b: seq<Row>)
  {
    forall r :: r in a <==> r in b
  }

  /** The write verdict depends on the set of entries only. */
  lemma WriteVerdictOrderFree(a: seq<Row>, b: seq<Row>, defaultAccess: Permission, user: Option<User>,
                              topic: string)
    requires SameRows(a, b)
    ensures Authorize(a, defaultAccess, user, topic, PERMISSION_WRITE)
         == Authorize(b, defaultAccess, user, topic, PERMISSION_WRITE)
  {
    var u := NameOf(user);
    MatchingContents(a, u, topic);
    MatchingContents(b, u, topic);
    var ra, rb := Matching(a, u, topic), Matching(b, u, topic);
    if ra != [] || rb != [] {
      assert ra != [] ==> ra[0] in rb;
      assert rb != [] ==> rb[0] in ra;
      FirstIsTop(a, u, topic);
      FirstIsTop(b, u, topic);
      assert Top(a, u, topic, First(rb));
      TopsTie(a, u, topic, First(ra), First(rb));
    }
  }

  /** Without administrator rights and with a matching row, the first row decides. */
  lemma FirstDecides(table: seq<Row>, defaultAccess: Permission, user: Option<User>, topic: string)
    requires !(user.Some? && user.value.admin) && Matching(table, NameOf(user), topic) != []
    ensures var d := First(Matching(table, NameOf(user), topic));
      && Authorize(table, defaultAccess, user, topic, PERMISSION_WRITE) == d.write
      && Authorize(table, defaultAccess, user, topic, PERMISSION_READ) == d.read
  {
  }

  /** An entry of exactly this name that matches the topic. */
  predicate Speaks(table: seq<Row>, name: string, topic: string, r: Row)
  {
    r in table && r.user == name && Like(topic, r.topic)
  }

  /** Every matching entry of the name that denies writing is at most as long as one that allows it. */
  ghost predicate WritersOutrank(table: seq<Row>, name: string, topic: string)
  {
    forall k | Speaks(table, name, topic, k) && !k.write ::
      exists j :: Speaks(table, name, topic, j) && j.write && |j.topic| >= |k.topic|
  }

  /** The name whose entries decide: the user's own if one of them matches, otherwise everyone's. */
  ghost function Speaker(table: seq<Row>, user: Option<User>, topic: string): string
  {
    if exists r :: Speaks(table, NameOf(user), topic, r) then NameOf(user) else EVERYONE
  }

  lemma SpeakerDecides(table: seq<Row>, user: Option<User>, topic: string)
    requires user.Some? ==> AllowedUsername(user.value.name)
    requires Matching(table, NameOf(user), topic) != []
    ensures var d := First(Matching(table, NameOf(user), topic));
      Top(table, NameOf(user), topic, d) && Speaks(table, Speaker(table, user, topic), topic, d)
  {
    var u := NameOf(user);
    FirstIsTop(table, u, topic);
    if user.Some? && exists r :: Speaks(table, u, topic, r) {
      var own :| Speaks(table, u, topic, own);
      OwnEntryDecides(table, u, topic, own);
    } else {
      var d := First(Matching(table, u, topic));
      assert d.user == u ==> Speaks(table, u, topic, d);
    }
  }

  /** The write verdict without an order of the rows: the default if no entry matches, otherwise
      writing is allowed exactly when, among the entries of the name that decides, every denying one
      is outranked. */
  lemma WriteVerdict(table: seq<Row>, defaultAccess: Permission, user: Option<User>, topic: string)
    requires user.Some? ==> AllowedUsername(user.value.name) && !user.value.admin
    ensures Authorize(table, defaultAccess, user, topic, PERMISSION_WRITE)
       <==> if forall r | r in table :: !Applies(r, NameOf(user), topic) then IsWrite(defaultAccess)
            else WritersOutrank(table, Speaker(table, user, topic), topic)
  {
    var u := NameOf(user);
    MatchingContents(table, u, topic);
    if Matching(table, u, topic) != [] {
      var d, name := First(Matching(table, u, topic)), Speaker(table, user, topic);
      assert d in table && Applies(d, u, topic);
      SpeakerDecides(table, user, topic);
      FirstDecides(table, defaultAccess, user, topic);
      TopWriter(table, u, name, topic, d);
    }
  }

  lemma TopWriter(table: seq<Row>, u: string, name: string, topic: string, d: Row)
    requires Top(table, u, topic, d) && Speaks(table, name, topic, d) && (name == u || name == EVERYONE)
    ensures d.write <==> WritersOutrank(table, name, topic)
  {
    if d.write {
      forall k | Speaks(table, name, topic, k) && !k.write
        ensures exists j :: Speaks(table, name, topic, j) && j.write && |j.topic| >= |k.topic|
      {
        assert Applies(k, u, topic) && !Before(k, d);
        assert Speaks(table, name, topic, d);
      }
    } else if WritersOutrank(table, name, topic) {
      var j :| Speaks(table, name, topic, j) && j.write && |j.topic| >= |d.topic|;
      assert Applies(j, u, topic) && Before(j, d);
    }
  }

  predicate ReadAllowed(table: seq<Row>, defaultAccess: Permission, user: Option<User>, topic: string)
  {
    Authorize(table, defaultAccess, user, topic, PERMISSION_READ)
  }

  /** `b` lists the rows of `a` in some order, each as often as `a` does. */
  ghost predicate Reordered(a: seq<Row>, b: seq<Row>)
  {
    multiset(a) == multiset(b)
  }

  lemma ReorderedMembers(a: seq<Row>, b: seq<Row>)
    requires Reordered(a, b)
    ensures SameRows(a, b)
  {
    forall r ensures r in a <==> r in b {
      assert r in a <==> r in multiset(a);
      assert r in b <==> r in multiset(b);
    }
  }

  /** Every scan order of the rows of `a` gives the same read verdict. */
  ghost predicate ReadOrderFree(a: seq<Row>, defaultAccess: Permission, user: Option<User>, topic: string)
  {
    forall b | Reordered(a, b) ::
      ReadAllowed(a, defaultAccess, user, topic) == ReadAllowed(b, defaultAccess, user, topic)
  }

  /** The rows that tie for the first place agree on the read bit. */
  ghost predicate TopsAgreeOnRead(a: seq<Row>, username: string, topic: string)
  {
    forall r, s | Top(a, username, topic, r) && Top(a, username, topic, s) :: r.read == s.read
  }

  function ToFront(a: seq<Row>, i: nat): seq<Row>
    requires i < |a|
  {
    [a[i]] + (a[..i] + a[i + 1..])
  }

  lemma ToFrontReorders(a: seq<Row>, i: nat)
    requires i < |a|
    ensures Reordered(a, ToFront(a, i))
  {
    assert a == a[..i] + [a[i]] + a[i + 1..];
  }

  /** Listing a top row first makes it the deciding row. */
  lemma TopCanBeFirst(a: seq<Row>, u: string, topic: string, i: nat)
    requires i < |a| && Top(a, u, topic, a[i])
    ensures var b := ToFront(a, i); Matching(b, u, topic) != [] && First(Matching(b, u, topic)) == a[i]
  {
    var rest := a[..i] + a[i + 1..];
    assert ToFront(a, i)[1..] == rest;
    MatchingContents(rest, u, topic);
    assert forall s | s in rest :: s in a;
    FrontStaysFirst(a[i], Matching(rest, u, topic));
  }

  /** Some scan order of the same rows lets the given top row decide. */
  lemma TopDecidesSomewhere(a: seq<Row>, defaultAccess: Permission, user: Option<User>, topic: string, r: Row)
    returns (b: seq<Row>)
    requires !(user.Some? && user.value.admin) && Top(a, NameOf(user), topic, r)
    ensures Reordered(a, b) && ReadAllowed(b, defaultAccess, user, topic) == r.read
  {
    var i :| 0 <= i < |a| && a[i] == r;
    b := ToFront(a, i);
    ToFrontReorders(a, i);
    TopCanBeFirst(a, NameOf(user), topic, i);
  }

  lemma ReadVerdictOfTops(a: seq<Row>, b: seq<Row>, defaultAccess: Permission, user: Option<User>, topic: string)
    requires SameRows(a, b) && TopsAgreeOnRead(a, NameOf(user), topic)
    ensures ReadAllowed(a, defaultAccess, user, topic) == ReadAllowed(b, defaultAccess, user, topic)
  {
    var u := NameOf(user);
    MatchingContents(a, u, topic);
    MatchingContents(b, u, topic);
    var ra, rb := Matching(a, u, topic), Matching(b, u, topic);
    assert ra != [] ==> ra[0] in rb;
    assert rb != [] ==> rb[0] in ra;
    if ra != [] {
      FirstIsTop(a, u, topic);
      FirstIsTop(b, u, topic);
      assert Top(a, u, topic, First(rb));
    }
  }

  lemma AgreeingTopsAreOrderFree(a: seq<Row>, defaultAccess: Permission, user: Option<User>, topic: string)
    requires TopsAgreeOnRead(a, NameOf(user), topic)
    ensures ReadOrderFree(a, defaultAccess, user, topic)
  {
    forall b | Reordered(a, b)
      ensures ReadAllowed(a, defaultAccess, user, topic) == ReadAllowed(b, defaultAccess, user, topic)
    {
      ReorderedMembers(a, b);
      ReadVerdictOfTops(a, b, defaultAccess, user, topic);
    }
  }

  lemma OrderFreeTopsAgree(a: seq<Row>, defaultAccess: Permission, user: Option<User>, topic: string, r: Row, s: Row)
    requires !(user.Some? && user.value.admin) && ReadOrderFree(a, defaultAccess, user, topic)
    requires Top(a, NameOf(user), topic, r) && Top(a, NameOf(user), topic, s)
    ensures r.read == s.read
  {
    var withR := TopDecidesSomewhere(a, defaultAccess, user, topic, r);
    var withS := TopDecidesSomewhere(a, defaultAccess, user, topic, s);
    assert ReadAllowed(a, defaultAccess, user, topic) == ReadAllowed(withR, defaultAccess, user, topic);
    assert ReadAllowed(a, defaultAccess, user, topic) == ReadAllowed(withS, defaultAccess, user, topic);
  }

  /** The read verdict is the same in every scan order exactly when all rows that tie for the
      first place agree on the read bit. */
  lemma ReadVerdictOrderFree(a: seq<Row>, defaultAccess: Permission, user: Option<User>, topic: string)
    requires !(user.Some? && user.value.admin)
    ensures ReadOrderFree(a, defaultAccess, user, topic) <==> TopsAgreeOnRead(a, NameOf(user), topic)
  {
    if TopsAgreeOnRead(a, NameOf(user), topic) {
      AgreeingTopsAreOrderFree(a, defaultAccess, user, topic);
    } else if ReadOrderFree(a, defaultAccess, user, topic) {
      var r, s :| Top(a, NameOf(user), topic, r) && Top(a, NameOf(user), topic, s) && r.read != s.read;
      OrderFreeTopsAgree(a, defaultAccess, user, topic, r, s);
    }
  }

  lemma {:induction false} FrontStaysFirst(r: Row, rows: seq<Row>)
    requires forall s | s in rows :: !Before(s, r)
    ensures First([r] + rows) == r
  {
    if rows != [] {
      var n := |rows| - 1;
      assert ([r] + rows)[..n + 1] == [r] + rows[..n];
      FrontStaysFirst(r, rows[..n]);
    }
  }

  // ---------- prefix patterns ----------

  lemma {:induction false} EscapeLengthPrefix(p: string, q: string)
    requires |p| < |q|
    requires forall i | 0 <= i < |p| :: p[i] == '_' <==> q[i] == '_'
    ensures |EscapeUnderscore(p)| < |EscapeUnderscore(q)|
  {
    assert q == [q[0]] + q[1..];
    EscapeCons(q[0], q[1..], '_');
    if p != [] {
      assert p == [p[0]] + p[1..];
      EscapeCons(p[0], p[1..], '_');
      EscapeLengthPrefix(p[1..], q[1..]);
    }
  }

  /** A glob `prefix*` matches exactly the topics that start with the prefix up to ASCII case. */
  lemma {:induction false} PrefixLike(p: string, t: string)
    requires NoSQLChars(p) && '*' !in p
    ensures Like(t, ToSQLWildcard(p + "*"))
       <==> |p| <= |t| && forall i | 0 <= i < |p| :: Fold(p[i]) == Fold(t[i])
  {
    if p == [] {
      assert p + "*" == ['*'] + [];
      ToSQLCons('*', []);
      assert ToSQLWildcard("*") == "%";
      PercentMatchesAll(t);
    } else {
      assert p + "*" == [p[0]] + (p[1..] + "*");
      ToSQLCons(p[0], p[1..] + "*");
      var sql := ToSQLWildcard(p + "*");
      assert sql[|SQLChar(p[0])|..] == ToSQLWildcard(p[1..] + "*");
      if t != [] {
        PrefixLike(p[1..], t[1..]);
        assert |p| <= |t| ==> forall i | 0 <= i < |p[1..]| :: p[1..][i] == p[i + 1] && t[1..][i] == t[i + 1];
        assert |p| <= |t| ==>
          ((forall i | 0 <= i < |p| :: Fold(p[i]) == Fold(t[i])) <==>
           Fold(p[0]) == Fold(t[0]) && forall i | 0 <= i < |p[1..]| :: Fold(p[1..][i]) == Fold(t[1..][i])) by {
          if |p| <= |t| && Fold(p[0]) == Fold(t[0])
             && forall i | 0 <= i < |p[1..]| :: Fold(p[1..][i]) == Fold(t[1..][i]) {
            forall i | 0 <= i < |p| ensures Fold(p[i]) == Fold(t[i]) {
              if i > 0 { assert p[i] == p[1..][i - 1] && t[i] == t[1..][i - 1]; }
            }
          }
        }
      }
    }
  }

  lemma {:induction false} PercentMatchesAll(t: string)
    ensures Like(t, "%")
  {
    if t != [] { PercentMatchesAll(t[1..]); }
    assert "%"[1..] == "";
  }

  /** Of two prefix patterns matching one topic, the longer prefix is the longer stored pattern,
      although each underscore counts twice once stored. */
  lemma LongerPrefixIsLonger(p: string, q: string, t: string)
    requires NoSQLChars(p) && NoSQLChars(q) && '*' !in p && '*' !in q
    requires Like(t, ToSQLWildcard(p + "*")) && Like(t, ToSQLWildcard(q + "*"))
    ensures |p| < |q| <==> |ToSQLWildcard(p + "*")| < |ToSQLWildcard(q + "*")|
  {
    PrefixLike(p, t);
    PrefixLike(q, t);
    PrefixSQLLength(p);
    PrefixSQLLength(q);
    if |p| < |q| {
      EscapeLengthPrefix(p, q);
    } else if |q| < |p| {
      EscapeLengthPrefix(q, p);
    } else {
      EscapeLengthEqual(p, q);
    }
  }

  lemma {:induction false} EscapeLengthEqual(p: string, q: string)
    requires |p| == |q| && forall i | 0 <= i < |p| :: p[i] == '_' <==> q[i] == '_'
    ensures |EscapeUnderscore(p)| == |EscapeUnderscore(q)|
  {
    if p != [] {
      assert p == [p[0]] + p[1..] && q == [q[0]] + q[1..];
      EscapeCons(p[0], p[1..], '_');
      EscapeCons(q[0], q[1..], '_');
      EscapeLengthEqual(p[1..], q[1..]);
    }
  }

  lemma {:induction false} PrefixSQLLength(p: string)
    requires '*' !in p
    ensures |ToSQLWildcard(p + "*")| == |EscapeUnderscore(p)| + 1
  {
    if p == [] {
      assert p + "*" == ['*'] + [];
      ToSQLCons('*', []);
    } else {
      assert p + "*" == [p[0]] + (p[1..] + "*") && p == [p[0]] + p[1..];
      ToSQLCons(p[0], p[1..] + "*");
      EscapeCons(p[0], p[1..], '_');
      PrefixSQLLength(p[1..]);
    }
  }

  /** When all matching entries of the user are prefix patterns, the longest prefix decides. */
  lemma LongestPrefixDecides(table: seq<Row>, u: string, topic: string, prefixOf: map<Row, string>, own: Row)
    requires AllowedUsername(u)
    requires forall r | r in table && r.user == u && Like(topic, r.topic) ::
               && r in prefixOf && NoSQLChars(prefixOf[r]) && '*' !in prefixOf[r]
               && r.topic == ToSQLWildcard(prefixOf[r] + "*")
    requires own in table && own.user == u && Like(topic, own.topic)
    ensures Matching(table, u, topic) != []
    ensures var d := First(Matching(table, u, topic)); d in prefixOf && |prefixOf[d]| >= |prefixOf[own]|
  {
    OwnEntryDecides(table, u, topic, own);
    MatchingContents(table, u, topic);
    var d := First(Matching(table, u, topic));
    LongerPrefixIsLonger(prefixOf[d], prefixOf[own], topic);
  }
}
