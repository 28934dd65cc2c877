/**
  How far the guard AllowReservation sees.
 */
module ReservationGuard {
  import opened Text
  import opened Wildcards
  import opened Authorization
  import opened AccessControl
  import opened Ownership
  import opened ReservationAccess

  // ---------- how far the guard sees ----------

  /** After every run, a reservation succeeds only if no foreign row matches its topic. */
  ghost predicate GuardSeesAll(topic: string)
  {
    forall ops, username, everyone | HandleReservationAdd(Run(Initial(), ops), username, topic, everyone).status == Success ::
      NoForeignRows(Run(Initial(), ops), username, topic)
  }

  lemma {:induction false} EscapeKeepsPrefix(t: string, k: nat)
    requires k < |t| && t[k] == '_' && '_' !in t[..k]
    ensures |EscapeUnderscore(t)| > k + 1 && EscapeUnderscore(t)[..k] == t[..k]
    ensures EscapeUnderscore(t)[k] == '\\' && EscapeUnderscore(t)[k + 1] == '_'
    ensures k + 1 == |t| ==> |EscapeUnderscore(t)| == |t| + 1
  {
    assert t == [t[0]] + t[1..];
    EscapeCons(t[0], t[1..], '_');
    if k == 0 {
      assert k + 1 == |t| ==> t[1..] == [];
    } else {
      assert t[..k] == [t[0]] + t[1..][..k - 1];
      EscapeKeepsPrefix(t[1..], k - 1);
      assert EscapeUnderscore(t)[1..] == EscapeUnderscore(t[1..]);
    }
  }

  /** `*` followed by literal text matches exactly the topics with that ending, up to case. */
  lemma {:induction false} SuffixLike(t: string, p: string)
    requires Literal(p)
    ensures Like(t, ToSQLWildcard("*" + p)) <==> |p| <= |t| && SameUpToCase(t[|t| - |p|..], p)
  {
    ToSQLCons('*', p);
    TopicSQLForm(p);
    assert ToSQLWildcard("*" + p)[1..] == EscapeUnderscore(p);
    LiteralLike(t, p);
    if t != [] {
      SuffixLike(t[1..], p);
      if |p| < |t| { assert t[1..][|t| - 1 - |p|..] == t[|t| - |p|..]; }
    }
    if |p| == |t| { assert t[0..] == t; }
  }

  /** Some allowed pattern matches the topic but not its escaped form. */
  ghost predicate Slips(topic: string, p: string)
  {
    && AllowedTopicPattern(p) && Like(topic, ToSQLWildcard(p))
    && !Like(EscapeUnderscore(topic), ToSQLWildcard(p)) && ToSQLWildcard(p) != EscapeUnderscore(topic)
  }

  lemma {:induction false} PercentIn(p: string, q: string)
    ensures '%' in ToSQLWildcard(p + "*" + q)
  {
    if p == [] {
      assert p + "*" + q == ['*'] + q;
      ToSQLCons('*', q);
      assert ToSQLWildcard(p + "*" + q)[0] == '%';
    } else {
      assert p + "*" + q == [p[0]] + (p[1..] + "*" + q);
      ToSQLCons(p[0], p[1..] + "*" + q);
      PercentIn(p[1..], q);
    }
  }

  lemma {:induction false} NoPercentIn(t: string)
    requires '%' !in t
    ensures '%' !in EscapeUnderscore(t)
  {
    if t != [] {
      assert t == [t[0]] + t[1..];
      EscapeCons(t[0], t[1..], '_');
      NoPercentIn(t[1..]);
    }
  }

  lemma SlippingPrefix(topic: string, k: nat)
    requires AllowedTopic(topic) && k < |topic| && topic[k] == '_' && '_' !in topic[..k] && k < 63
    ensures Slips(topic, topic[..k + 1] + "*")
  {
    var p := topic[..k + 1];
    AllowedHasNoSQLChars(topic);
    PrefixLike(p, topic);
    EscapeKeepsPrefix(topic, k);
    PrefixLike(p, EscapeUnderscore(topic));
    assert Fold(p[k]) != Fold(EscapeUnderscore(topic)[k]);
    PercentIn(p, "");
    assert p + "*" + "" == p + "*";
    NoPercentIn(topic);
  }

  lemma SlippingSuffix(topic: string)
    requires AllowedTopic(topic) && |topic| == 64 && topic[63] == '_' && '_' !in topic[..63]
    ensures Slips(topic, "*" + topic[1..])
  {
    var p := topic[1..];
    AllowedHasNoSQLChars(topic);
    SuffixLike(topic, p);
    var e := EscapeUnderscore(topic);
    EscapeKeepsPrefix(topic, 63);
    SuffixLike(e, p);
    assert e[2..][61] == '\\' && TopicChar(p[61]);
    assert Fold(e[2..][61]) != Fold(p[61]);
    PercentIn("", p);
    assert "" + "*" + p == "*" + p;
    NoPercentIn(topic);
  }

  const ALICE := "alice"

  function AliceRegistered(role: Role): Db
  {
    AddUser(Initial(), ALICE, "u_alice", role).db
  }

  lemma AliceRegisters(role: Role)
    requires role != RoleAnonymous
    ensures Run(Initial(), [Register(ALICE, "u_alice", role)]) == AliceRegistered(role)
    ensures AliceRegistered(role) == Initial().(users := Initial().users[ALICE := Account("u_alice", role, None, None)])
    ensures AllowedUsername(ALICE)
  {
    RunSnoc(Initial(), [], Register(ALICE, "u_alice", role));
    assert [] + [Register(ALICE, "u_alice", role)] == [Register(ALICE, "u_alice", role)];
  }

  /** An administrator registers, everyone is granted a pattern the guard cannot see, and the
      reservation of a topic the pattern matches succeeds. */
  lemma SlippedGrant(topic: string, p: string)
    requires AllowedTopic(topic) && Slips(topic, p)
    ensures !GuardSeesAll(topic)
  {
    var register, grant := Register(ALICE, "u_alice", RoleAdmin), Grant(EVERYONE, p, PERMISSION_READ);
    AliceRegisters(RoleAdmin);
    var before := AliceRegistered(RoleAdmin);
    RunSnoc(Initial(), [register], grant);
    var db := Run(Initial(), [register] + [grant]);
    var k := (EVERYONE_ID, ToSQLWildcard(p));
    assert db == before.(access := map[k := Entry(true, false, None)]);
    assert !Blocks(db, ALICE, EscapeUnderscore(topic), k);
    assert AllowReservation(db, ALICE, topic) == Success;
    assert HandleReservationAdd(db, ALICE, topic, PERMISSION_READ).status == Success;
    assert !NoForeignRows(db, ALICE, topic);
  }

  /** Reservations that succeed never clash with a foreign entry exactly for the topics without
      underscore. */
  lemma GuardExact(topic: string)
    requires AllowedTopic(topic)
    ensures GuardSeesAll(topic) <==> '_' !in topic
  {
    if '_' !in topic {
      forall ops, username, everyone | HandleReservationAdd(Run(Initial(), ops), username, topic, everyone).status == Success
        ensures NoForeignRows(Run(Initial(), ops), username, topic)
      {
        GuardWithoutUnderscore(Run(Initial(), ops), username, topic);
      }
    } else {
      var k := FirstUnderscore(topic);
      if k < 63 {
        SlippingPrefix(topic, k);
        SlippedGrant(topic, topic[..k + 1] + "*");
      } else {
        SlippingSuffix(topic);
        SlippedGrant(topic, "*" + topic[1..]);
      }
    }
  }

  lemma {:induction false} FirstUnderscore(t: string) returns (k: nat)
    requires '_' in t
    ensures k < |t| && t[k] == '_' && '_' !in t[..k]
  {
    if t[0] == '_' {
      k := 0;
    } else {
      var j := FirstUnderscore(t[1..]);
      k := j + 1;
      assert t[..k] == [t[0]] + t[1..][..j];
    }
  }
}
