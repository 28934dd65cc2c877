/**
  Resuming a subscription with since = id of the last message received, when messages may be
  scheduled: a delayed message gets its row id when it is stored, but shows up in polls only after
  the delayed sender has marked it as published.
 */
module ScheduledPolls {
  import opened Text
  import opened MessageTable
  import opened Cursor

  datatype Action = Store(message: Message, now: int) | Send(mid: string) | Resume

  function Do(s: Session, topic: string, a: Action): Session
  {
    match a
    case Store(m, now) => Step(s, topic, Arrive(m, now))
    case Send(mid) => s.(rows := MarkPublished(s.rows, mid))
    case Resume => Step(s, topic, Poll)
  }

  function DoAll(s: Session, topic: string, actions: seq<Action>): Session
    decreases |actions|
  {
    if actions == [] then s else DoAll(Do(s, topic, actions[0]), topic, actions[1..])
  }

  /** New messages have a new id and no negative time. */
  predicate Fresh(s: Session, a: Action)
  {
    a.Store? ==> a.message.time >= 0 && forall r | r in s.rows :: r.mid != a.message.id
  }

  ghost predicate AllFresh(s: Session, topic: string, actions: seq<Action>)
    decreases |actions|
  {
    actions == [] || (Fresh(s, actions[0]) && AllFresh(Do(s, topic, actions[0]), topic, actions[1..]))
  }

  function Start(): Session { Session([], 0, None, []) }

  // ---------- the invariant ----------

  ghost predicate RowsOk(s: Session)
  {
    UniqueMids(s.rows) && Increasing(s.rows) && forall r | r in s.rows :: r.time >= 0 && r.rowid < s.nextId
  }

  /** What has been received is stored and published, and the cursor is one of these rows. */
  ghost predicate SessionOk(s: Session, topic: string)
  {
    && RowsOk(s)
    && (forall x | x in s.received :: x in s.rows && x.published && x.topic == topic)
    && (s.cursor.Some? ==> exists last :: last in s.received && last.mid == s.cursor.value)
  }

  /** The row id polls start after. */
  function Position(s: Session): int
  {
    if s.cursor.None? then -1
    else if RowID(s.rows, s.cursor.value).Some? then RowID(s.rows, s.cursor.value).value
    else -1
  }

  lemma PositionIs(s: Session, topic: string, last: Row)
    requires SessionOk(s, topic) && last in s.rows && s.cursor == Some(last.mid)
    ensures Position(s) == last.rowid
  {
    RowIDFound(s.rows, last);
  }

  /** A poll returns the published rows of the topic after the position. */
  lemma AnswerMembers(s: Session, topic: string, r: Row)
    requires SessionOk(s, topic)
    ensures r in Answer(s, topic) <==> r in s.rows && r.topic == topic && r.published && r.rowid > Position(s)
  {
    match s.cursor {
      case None =>
        OrderByMembers(Where(s.rows, (r: Row) => r.topic == topic && r.time >= SINCE_ALL && (false || r.published)));
      case Some(mid) =>
        var last :| last in s.received && last.mid == mid;
        PositionIs(s, topic, last);
        RowIDFound(s.rows, last);
        var id := RowID(s.rows, mid);
        OrderByMembers(Where(s.rows, (r: Row) => r.topic == topic && r.rowid > id.value && r.published));
    }
  }

  lemma MarkedRow(rows: seq<Row>, mid: string, r: Row)
    requires r in rows
    ensures (if r.mid == mid then r.(published := true) else r) in MarkPublished(rows, mid)
  {
    var i :| 0 <= i < |rows| && rows[i] == r;
    assert MarkPublished(rows, mid)[i] in MarkPublished(rows, mid);
  }

  lemma StoreKeeps(s: Session, topic: string, m: Message, now: int)
    requires SessionOk(s, topic) && Fresh(s, Store(m, now))
    ensures var t := Do(s, topic, Store(m, now)); SessionOk(t, topic) && Position(t) == Position(s)
  {
    var t := Do(s, topic, Store(m, now));
    assert forall x | x in s.rows :: x in t.rows;
    assert RowsOk(t);
    SamePosition(s, t, topic);
  }

  lemma SamePosition(s: Session, t: Session, topic: string)
    requires SessionOk(s, topic) && RowsOk(t) && t.cursor == s.cursor && t.received == s.received
    requires forall x | x in s.received :: x in t.rows
    ensures SessionOk(t, topic) && Position(t) == Position(s)
  {
    if s.cursor.Some? {
      var last :| last in s.received && last.mid == s.cursor.value;
      PositionIs(s, topic, last);
      PositionIs(t, topic, last);
    }
  }

  lemma SendKeeps(s: Session, topic: string, mid: string)
    requires SessionOk(s, topic)
    ensures var t := Do(s, topic, Send(mid)); SessionOk(t, topic) && Position(t) == Position(s)
  {
    var t := Do(s, topic, Send(mid));
    forall x | x in s.received ensures x in t.rows {
      MarkedRow(s.rows, mid, x);
      assert x.(published := true) == x;
    }
    forall r | r in t.rows ensures r.time >= 0 && r.rowid < t.nextId {
      var i :| 0 <= i < |t.rows| && t.rows[i] == r;
      assert s.rows[i] in s.rows;
    }
    assert RowsOk(t);
    SamePosition(s, t, topic);
  }

  lemma PollKeeps(s: Session, topic: string)
    requires SessionOk(s, topic)
    ensures var t := Do(s, topic, Resume); SessionOk(t, topic) && Position(t) >= Position(s)
  {
    var t := Do(s, topic, Resume);
    var found := Answer(s, topic);
    if found != [] {
      var last := found[|found| - 1];
      assert last in found && last in t.received;
      forall x | x in found ensures x in s.rows && x.published && x.topic == topic { AnswerMembers(s, topic, x); }
      AnswerMembers(s, topic, last);
      PositionIs(t, topic, last);
    }
  }

  lemma DoKeeps(s: Session, topic: string, a: Action)
    requires SessionOk(s, topic) && Fresh(s, a)
    ensures SessionOk(Do(s, topic, a), topic) && Position(Do(s, topic, a)) >= Position(s)
  {
    match a
    case Store(m, now) => StoreKeeps(s, topic, m, now);
    case Send(mid) => SendKeeps(s, topic, mid);
    case Resume => PollKeeps(s, topic);
  }

  // ---------- received or missed ----------

  ghost predicate Received(s: Session, mid: string)
  {
    exists x :: x in s.received && x.mid == mid
  }

  /** Not received, and stored before the position. */
  ghost predicate Passed(s: Session, mid: string)
  {
    !Received(s, mid) && exists r :: r in s.rows && r.mid == mid && r.rowid < Position(s)
  }

  /** Received, or published and stored after the position. */
  ghost predicate Coming(s: Session, topic: string, mid: string)
  {
    Received(s, mid) || exists r :: r in s.rows && r.mid == mid && r.topic == topic && r.published && r.rowid > Position(s)
  }

  /** A row keeps its ids and topic, and a published one stays as it is. */
  lemma RowStays(s: Session, topic: string, a: Action, r: Row)
    requires r in s.rows
    ensures exists q :: q in Do(s, topic, a).rows && q.mid == r.mid && q.rowid == r.rowid && q.topic == r.topic
                        && (r.published ==> q == r)
  {
    match a
    case Store(m, now) => assert r in Do(s, topic, a).rows;
    case Send(mid) =>
      MarkedRow(s.rows, mid, r);
      var q := if r.mid == mid then r.(published := true) else r;
      assert q in Do(s, topic, a).rows;
    case Resume => assert r in Do(s, topic, a).rows;
  }

  lemma PassedNotAnswered(s: Session, topic: string, mid: string, x: Row)
    requires SessionOk(s, topic) && Passed(s, mid) && x in Answer(s, topic)
    ensures x.mid != mid
  {
    var r :| r in s.rows && r.mid == mid && r.rowid < Position(s);
    AnswerMembers(s, topic, x);
    if x.mid == mid { SameMidSameRow(s.rows, x, r); }
  }

  lemma PassedNotReceived(s: Session, topic: string, a: Action, mid: string)
    requires SessionOk(s, topic) && Passed(s, mid)
    ensures !Received(Do(s, topic, a), mid)
  {
    forall x | x in Do(s, topic, a).received ensures x.mid != mid {
      if x !in s.received { PassedNotAnswered(s, topic, mid, x); }
    }
  }

  lemma PassedStays(s: Session, topic: string, a: Action, mid: string)
    requires SessionOk(s, topic) && Fresh(s, a) && Passed(s, mid)
    ensures Passed(Do(s, topic, a), mid)
  {
    var r :| r in s.rows && r.mid == mid && r.rowid < Position(s);
    PassedNotReceived(s, topic, a, mid);
    DoKeeps(s, topic, a);
    RowStays(s, topic, a, r);
  }

  lemma ComingStays(s: Session, topic: string, a: Action, mid: string)
    requires SessionOk(s, topic) && Fresh(s, a) && Coming(s, topic, mid)
    ensures Coming(Do(s, topic, a), topic, mid) && (a.Resume? ==> Received(Do(s, topic, a), mid))
  {
    var t := Do(s, topic, a);
    ReceivedStays(s, topic, a, mid);
    if !Received(s, mid) {
      var r :| r in s.rows && r.mid == mid && r.topic == topic && r.published && r.rowid > Position(s);
      RowStays(s, topic, a, r);
      match a
      case Store(m, now) => StoreKeeps(s, topic, m, now);
      case Send(id) => SendKeeps(s, topic, id);
      case Resume =>
        AnswerMembers(s, topic, r);
        assert r in t.received;
    }
  }

  lemma ReceivedStays(s: Session, topic: string, a: Action, mid: string)
    ensures Received(s, mid) ==> Received(Do(s, topic, a), mid)
  {
    if x :| x in s.received && x.mid == mid { assert x in Do(s, topic, a).received; }
  }

  lemma {:induction false} PassedForever(s: Session, topic: string, actions: seq<Action>, mid: string)
    requires SessionOk(s, topic) && AllFresh(s, topic, actions) && Passed(s, mid)
    ensures !Received(DoAll(s, topic, actions), mid)
    decreases |actions|
  {
    if actions != [] {
      PassedStays(s, topic, actions[0], mid);
      DoKeeps(s, topic, actions[0]);
      PassedForever(Do(s, topic, actions[0]), topic, actions[1..], mid);
    }
  }

  lemma {:induction false} ComingArrives(s: Session, topic: string, actions: seq<Action>, mid: string)
    requires SessionOk(s, topic) && AllFresh(s, topic, actions) && Coming(s, topic, mid)
    requires Received(s, mid) || Resume in actions
    ensures Received(DoAll(s, topic, actions), mid)
    decreases |actions|
  {
    if actions != [] {
      var a, rest := actions[0], actions[1..];
      assert actions == [a] + rest;
      ComingStays(s, topic, a, mid);
      ReceivedStays(s, topic, a, mid);
      DoKeeps(s, topic, a);
      assert Received(Do(s, topic, a), mid) || Resume in rest;
      ComingArrives(Do(s, topic, a), topic, rest, mid);
    }
  }

  lemma {:induction false} DoAllKeeps(s: Session, topic: string, actions: seq<Action>)
    requires SessionOk(s, topic) && AllFresh(s, topic, actions)
    ensures SessionOk(DoAll(s, topic, actions), topic)
    decreases |actions|
  {
    if actions != [] {
      DoKeeps(s, topic, actions[0]);
      DoAllKeeps(Do(s, topic, actions[0]), topic, actions[1..]);
    }
  }

  lemma ReceivedArePublished(s: Session, topic: string, r: Row)
    requires SessionOk(s, topic) && r in s.rows && !r.published
    ensures !Received(s, r.mid)
  {
    forall x | x in s.received ensures x.mid != r.mid {
      if x.mid == r.mid { SameMidSameRow(s.rows, x, r); }
    }
  }

  lemma SentIsComing(s: Session, topic: string, r: Row)
    requires SessionOk(s, topic) && r in s.rows && !r.published && r.topic == topic
    ensures var t := Do(s, topic, Send(r.mid));
      if r.rowid > Position(s) then Coming(t, topic, r.mid) else r.rowid < Position(s) ==> Passed(t, r.mid)
  {
    var t := Do(s, topic, Send(r.mid));
    ReceivedArePublished(s, topic, r);
    MarkedRow(s.rows, r.mid, r);
    SendKeeps(s, topic, r.mid);
    assert r.(published := true) in t.rows;
  }

  /** A subscriber polls by id while messages are stored and sent. A message that is still scheduled
      is sent, and later the subscriber polls at least once: it receives the message if and only if
      its cursor, at the time of sending, was a message with a lower row id, or none. */
  lemma DelayedMissedExactly(topic: string, before: seq<Action>, r: Row, after: seq<Action>)
    requires AllFresh(Start(), topic, before)
    requires var s := DoAll(Start(), topic, before);
      r in s.rows && r.topic == topic && !r.published && AllFresh(Do(s, topic, Send(r.mid)), topic, after)
    requires Resume in after
    ensures var s := DoAll(Start(), topic, before);
      Received(DoAll(Do(s, topic, Send(r.mid)), topic, after), r.mid) <==> r.rowid > Position(s)
  {
    var s := DoAll(Start(), topic, before);
    DoAllKeeps(Start(), topic, before);
    var t := Do(s, topic, Send(r.mid));
    SendKeeps(s, topic, r.mid);
    SentIsComing(s, topic, r);
    NotAtPosition(s, topic, r);
    if r.rowid > Position(s) {
      ComingArrives(t, topic, after, r.mid);
    } else {
      PassedForever(t, topic, after, r.mid);
    }
  }

  /** The position is the row id of a published row. */
  lemma NotAtPosition(s: Session, topic: string, r: Row)
    requires SessionOk(s, topic) && r in s.rows && !r.published
    ensures r.rowid != Position(s)
  {
    if s.cursor.Some? {
      var last :| last in s.received && last.mid == s.cursor.value;
      PositionIs(s, topic, last);
      var i :| 0 <= i < |s.rows| && s.rows[i] == r;
      var j :| 0 <= j < |s.rows| && s.rows[j] == last;
    }
  }

  /** A delayed message is stored, then one that is not delayed; the subscriber polls; the delayed
      message is sent; and no later poll by id returns it. */
  lemma DelayedMissed(topic: string, now: int, m: Message, other: Message, after: seq<Action>)
    requires m.topic == other.topic == topic && m.id != other.id && m.time > now >= other.time >= 0
    requires Resume in after
    ensures var s := DoAll(Start(), topic, [Store(m, now), Store(other, now), Resume]);
      AllFresh(Do(s, topic, Send(m.id)), topic, after) ==> !Received(DoAll(Do(s, topic, Send(m.id)), topic, after), m.id)
  {
    var before := [Store(m, now), Store(other, now), Resume];
    var s := DoAll(Start(), topic, before);
    TwoStored(topic, now, m, other);
    if AllFresh(Do(s, topic, Send(m.id)), topic, after) {
      DelayedMissedExactly(topic, before, NewRow(0, m, now), after);
    }
  }

  lemma FirstAction(s: Session, topic: string, a: Action, rest: seq<Action>)
    ensures AllFresh(s, topic, [a] + rest) <==> Fresh(s, a) && AllFresh(Do(s, topic, a), topic, rest)
    ensures DoAll(s, topic, [a] + rest) == DoAll(Do(s, topic, a), topic, rest)
  {
    assert ([a] + rest)[1..] == rest;
  }

  lemma ThreeActions(s: Session, topic: string, a: Action, b: Action, c: Action)
    requires Fresh(s, a) && Fresh(Do(s, topic, a), b) && Fresh(Do(Do(s, topic, a), topic, b), c)
    ensures AllFresh(s, topic, [a, b, c])
    ensures DoAll(s, topic, [a, b, c]) == Do(Do(Do(s, topic, a), topic, b), topic, c)
  {
    var t := Do(s, topic, a);
    assert [a, b, c] == [a] + ([b] + ([c] + []));
    FirstAction(s, topic, a, [b] + ([c] + []));
    FirstAction(t, topic, b, [c] + []);
    FirstAction(Do(t, topic, b), topic, c, []);
  }

  lemma TwoStored(topic: string, now: int, m: Message, other: Message)
    requires m.topic == other.topic == topic && m.id != other.id && m.time > now >= other.time >= 0
    ensures var before := [Store(m, now), Store(other, now), Resume];
      var s := DoAll(Start(), topic, before);
      AllFresh(Start(), topic, before) && NewRow(0, m, now) in s.rows && Position(s) == 1
  {
    var r, q := NewRow(0, m, now), NewRow(1, other, now);
    var s1, s2 := Session([r], 1, None, []), Session([r, q], 2, None, []);
    assert Do(Start(), topic, Store(m, now)) == s1 && Do(s1, topic, Store(other, now)) == s2;
    ThreeActions(Start(), topic, Store(m, now), Store(other, now), Resume);
    TwoRowsOk(topic, r, q);
    FirstPollFinds(s2, topic, q);
    assert s2.rows[0] == r;
  }

  lemma TwoRowsOk(topic: string, r: Row, q: Row)
    requires r.mid != q.mid && r.rowid == 0 && q.rowid == 1 && r.time >= 0 && q.time >= 0
    ensures SessionOk(Session([r, q], 2, None, []), topic)
  {
  }

  lemma FirstPollFinds(s: Session, topic: string, q: Row)
    requires SessionOk(s, topic) && s.cursor.None? && q in s.rows && q.topic == topic && q.published
    requires forall x | x in s.rows && x.topic == topic && x.published :: x == q
    ensures Position(Do(s, topic, Resume)) == q.rowid && Do(s, topic, Resume).rows == s.rows
  {
    var found, t := Answer(s, topic), Do(s, topic, Resume);
    AnswerMembers(s, topic, q);
    var last := found[|found| - 1];
    AnswerMembers(s, topic, last);
    assert last in found;
    PollKeeps(s, topic);
    PositionIs(t, topic, q);
  }
}
