/**
  Resuming a subscription with since = id of the last message received, on a cache in which nothing
  is scheduled and nothing is deleted.
 */
module Cursor {
  import opened Text
  import opened MessageTable

  /** A subscriber of one topic, together with the table it polls. */
  datatype Session = Session(rows: seq<Row>, nextId: nat, cursor: Option<string>, received: seq<Row>)

  datatype Event = Arrive(message: Message, now: int) | Poll

  /** What the next poll returns: everything, or everything after the last message received. */
  function Answer(s: Session, topic: string): seq<Row>
  {
    match s.cursor
    case None => SinceTime(s.rows, topic, SINCE_ALL, false)
    case Some(mid) => SinceID(s.rows, topic, mid, false)
  }

  function Step(s: Session, topic: string, e: Event): Session
  {
    match e
    case Arrive(m, now) => s.(rows := s.rows + [NewRow(s.nextId, m, now)], nextId := s.nextId + 1)
    case Poll =>
      var found := Answer(s, topic);
      if found == [] then s
      else s.(cursor := Some(found[|found| - 1].mid), received := s.received + found)
  }

  function Replay(topic: string, events: seq<Event>): Session
  {
    if events == [] then Session([], 0, None, [])
    else Step(Replay(topic, events[..|events| - 1]), topic, events[|events| - 1])
  }

  /** A message that is not scheduled, with a new id and no negative time. */
  predicate Immediate(rows: seq<Row>, e: Event)
  {
    e.Arrive? ==> 0 <= e.message.time <= e.now && forall r | r in rows :: r.mid != e.message.id
  }

  /** Its time is not before that of any earlier message of the topic. */
  predicate InTimeOrder(rows: seq<Row>, topic: string, e: Event)
  {
    e.Arrive? && e.message.topic == topic ==> forall r | r in rows && r.topic == topic :: r.time <= e.message.time
  }

  ghost predicate AllImmediate(topic: string, events: seq<Event>)
  {
    forall i | 0 <= i < |events| :: Immediate(Replay(topic, events[..i]).rows, events[i])
  }

  ghost predicate AllInTimeOrder(topic: string, events: seq<Event>)
  {
    forall i | 0 <= i < |events| :: InTimeOrder(Replay(topic, events[..i]).rows, topic, events[i])
  }

  lemma PrefixImmediate(topic: string, events: seq<Event>, k: nat)
    requires k <= |events| && AllImmediate(topic, events)
    ensures AllImmediate(topic, events[..k])
  {
    forall i | 0 <= i < k ensures Immediate(Replay(topic, events[..k][..i]).rows, events[..k][i]) {
      assert events[..k][..i] == events[..i] && events[..k][i] == events[i];
    }
  }

  lemma PrefixInTimeOrder(topic: string, events: seq<Event>, k: nat)
    requires k <= |events| && AllInTimeOrder(topic, events)
    ensures AllInTimeOrder(topic, events[..k])
  {
    forall i | 0 <= i < k ensures InTimeOrder(Replay(topic, events[..k][..i]).rows, topic, events[..k][i]) {
      assert events[..k][..i] == events[..i] && events[..k][i] == events[i];
    }
  }

  // ---------- the table ----------

  ghost predicate TableOk(s: Session)
  {
    && UniqueMids(s.rows)
    && Increasing(s.rows)
    && (forall r | r in s.rows :: r.published && r.time >= 0 && r.rowid < s.nextId)
  }

  ghost predicate Ordered(rows: seq<Row>, topic: string)
  {
    forall i, j | 0 <= i < j < |rows| && rows[i].topic == topic && rows[j].topic == topic :: rows[i].time <= rows[j].time
  }

  function OfTopic(rows: seq<Row>, topic: string): seq<Row>
  {
    Where(rows, (r: Row) => r.topic == topic)
  }

  /** Rows of the topic after a row id. */
  function After(rows: seq<Row>, topic: string, id: int): seq<Row>
  {
    Where(rows, (r: Row) => r.topic == topic && r.rowid > id)
  }

  ghost predicate StrictlySorted(rows: seq<Row>)
  {
    forall i, j | 0 <= i < j < |rows| :: Before(rows[i], rows[j])
  }

  lemma ConsSorted(head: Row, rest: seq<Row>)
    requires StrictlySorted(rest) && forall x | x in rest :: Before(head, x)
    ensures StrictlySorted([head] + rest)
  {
  }

  lemma TailOrdered(rows: seq<Row>, topic: string)
    requires rows != [] && Increasing(rows) && Ordered(rows, topic)
    ensures Increasing(rows[1..]) && Ordered(rows[1..], topic)
  {
  }

  lemma {:induction false} WhereSorted(rows: seq<Row>, topic: string, p: Row -> bool)
    requires Increasing(rows) && Ordered(rows, topic) && forall r | r in rows && p(r) :: r.topic == topic
    ensures StrictlySorted(Where(rows, p))
  {
    if rows != [] {
      var head, tail := rows[0], rows[1..];
      TailOrdered(rows, topic);
      WhereSorted(tail, topic, p);
      if p(head) {
        forall x | x in Where(tail, p) ensures Before(head, x) {
          HeadBefore(rows, topic, p, x);
        }
        ConsSorted(head, Where(tail, p));
      }
    }
  }

  lemma HeadBefore(rows: seq<Row>, topic: string, p: Row -> bool, x: Row)
    requires rows != [] && Increasing(rows) && Ordered(rows, topic) && forall r | r in rows && p(r) :: r.topic == topic
    requires x in rows[1..] && p(x) && p(rows[0])
    ensures Before(rows[0], x)
  {
    var k :| 0 <= k < |rows[1..]| && rows[1..][k] == x;
    assert rows[k + 1] == x && rows[0] in rows && x in rows;
  }

  lemma {:induction false} RowIDFound(rows: seq<Row>, r: Row)
    requires UniqueMids(rows) && r in rows
    ensures RowID(rows, r.mid) == Some(r.rowid)
  {
    if rows[0].mid == r.mid {
      assert rows[0] == r;
    } else {
      RowIDFound(rows[1..], r);
    }
  }

  /** On this table a poll returns the topic's rows after the cursor, in order of time and id. */
  lemma AnswerIs(s: Session, topic: string, last: Row)
    requires TableOk(s)
    ensures s.cursor.None? ==> Answer(s, topic) == OrderBy(After(s.rows, topic, -1))
    ensures s.cursor == Some(last.mid) && last in s.rows ==> Answer(s, topic) == OrderBy(After(s.rows, topic, last.rowid))
  {
    WhereSame(s.rows, (r: Row) => r.topic == topic && r.time >= SINCE_ALL && (false || r.published),
              (r: Row) => r.topic == topic && r.rowid > -1);
    if s.cursor == Some(last.mid) && last in s.rows {
      RowIDFound(s.rows, last);
      var id := RowID(s.rows, last.mid);
      WhereSame(s.rows, (r: Row) => r.topic == topic && r.rowid > id.value && r.published,
                (r: Row) => r.topic == topic && r.rowid > last.rowid);
    }
  }

  lemma {:induction false} WhereConcat(a: seq<Row>, b: seq<Row>, p: Row -> bool)
    ensures Where(a + b, p) == Where(a, p) + Where(b, p)
  {
    if a == [] {
      assert a + b == b;
    } else {
      assert (a + b)[1..] == a[1..] + b;
      WhereConcat(a[1..], b, p);
    }
  }

  lemma ArriveKeepsTable(s: Session, topic: string, e: Event)
    requires TableOk(s) && e.Arrive? && Immediate(s.rows, e)
    ensures TableOk(Step(s, topic, e))
  {
  }

  // ---------- nothing is lost ----------

  /** The cursor is a stored row, and every row of the topic up to it has been received. */
  ghost predicate CaughtUp(s: Session, topic: string)
  {
    match s.cursor
    case None => true
    case Some(mid) =>
      exists last :: last in s.rows && last.mid == mid
                     && forall r | r in s.rows && r.topic == topic && r.rowid <= last.rowid :: r in s.received
  }

  lemma StepCatchesUp(s: Session, topic: string, e: Event)
    requires TableOk(s) && CaughtUp(s, topic) && Immediate(s.rows, e)
    ensures TableOk(Step(s, topic, e)) && CaughtUp(Step(s, topic, e), topic)
    ensures e.Poll? ==> forall r | r in s.rows && r.topic == topic :: r in Step(s, topic, e).received
  {
    var t := Step(s, topic, e);
    if e.Arrive? {
      ArriveKeepsTable(s, topic, e);
      if s.cursor.Some? {
        var last :| last in s.rows && last.mid == s.cursor.value
                    && forall r | r in s.rows && r.topic == topic && r.rowid <= last.rowid :: r in s.received;
        assert last in t.rows;
        forall r | r in t.rows && r.topic == topic && r.rowid <= last.rowid ensures r in t.received {
          assert r in s.rows;
        }
      }
    } else {
      PollCatchesUp(s, topic);
    }
  }

  lemma PollCatchesUp(s: Session, topic: string)
    requires TableOk(s) && CaughtUp(s, topic)
    ensures CaughtUp(Step(s, topic, Poll), topic)
    ensures forall r | r in s.rows && r.topic == topic :: r in Step(s, topic, Poll).received
  {
    var t := Step(s, topic, Poll);
    var found := Answer(s, topic);
    var from: int := -1;
    var last := Row(0, "", 0, 0, "", "", false);
    if s.cursor.Some? {
      last :| last in s.rows && last.mid == s.cursor.value
              && forall r | r in s.rows && r.topic == topic && r.rowid <= last.rowid :: r in s.received;
      from := last.rowid;
    }
    AnswerIs(s, topic, last);
    var rest := After(s.rows, topic, from);
    OrderByMembers(rest);
    forall r | r in s.rows && r.topic == topic ensures r in t.received {
      if r.rowid > from {
        assert r in found;
      }
    }
    if found != [] {
      var newest := found[|found| - 1];
      assert newest in rest;
      assert newest in t.rows && newest.mid == t.cursor.value;
    }
  }

  lemma {:induction false} ReplayCatchesUp(topic: string, events: seq<Event>)
    requires AllImmediate(topic, events)
    ensures TableOk(Replay(topic, events)) && CaughtUp(Replay(topic, events), topic)
  {
    if events != [] {
      var n := |events| - 1;
      PrefixImmediate(topic, events, n);
      ReplayCatchesUp(topic, events[..n]);
      StepCatchesUp(Replay(topic, events[..n]), topic, events[n]);
    }
  }

  /** However times are ordered, after a poll the subscriber has received every message of the topic. */
  lemma NothingLost(topic: string, events: seq<Event>, r: Row)
    requires AllImmediate(topic, events + [Poll])
    requires r in Replay(topic, events).rows && r.topic == topic
    ensures r in Replay(topic, events + [Poll]).received
  {
    var all := events + [Poll];
    assert all[..|events|] == events;
    assert forall i | 0 <= i < |events| :: all[..i] == events[..i] && all[i] == events[i];
    ReplayCatchesUp(topic, events);
    PollCatchesUp(Replay(topic, events), topic);
  }

  // ---------- in time order: no duplicate, same order ----------

  /** What has been received and what is still to come are together all rows of the topic, in order. */
  ghost predicate Exact(s: Session, topic: string)
  {
    && Ordered(s.rows, topic)
    && match s.cursor
       case None => s.received == []
       case Some(mid) =>
         exists last :: last in s.rows && last.mid == mid
                        && s.received + After(s.rows, topic, last.rowid) == OfTopic(s.rows, topic)
  }

  lemma AfterSorted(s: Session, topic: string, id: int)
    requires TableOk(s) && Ordered(s.rows, topic)
    ensures OrderBy(After(s.rows, topic, id)) == After(s.rows, topic, id)
  {
    WhereSorted(s.rows, topic, (r: Row) => r.topic == topic && r.rowid > id);
    OrderByIdentity(After(s.rows, topic, id));
  }

  lemma AfterWhole(s: Session, topic: string)
    ensures After(s.rows, topic, -1) == OfTopic(s.rows, topic)
  {
    WhereSame(s.rows, (r: Row) => r.topic == topic && r.rowid > -1, (r: Row) => r.topic == topic);
  }

  lemma NothingAfterLast(s: Session, topic: string, id: int)
    requires TableOk(s) && After(s.rows, topic, id) != []
    ensures var w := After(s.rows, topic, id); After(s.rows, topic, w[|w| - 1].rowid) == []
  {
    var w := After(s.rows, topic, id);
    WhereIncreasing(s.rows, (r: Row) => r.topic == topic && r.rowid > id);
    var last := w[|w| - 1];
    assert last in w;
    forall x | x in s.rows && x.topic == topic && x.rowid > id ensures x.rowid <= last.rowid {
      assert x in w;
      var k :| 0 <= k < |w| && w[k] == x;
    }
    EmptyIff(After(s.rows, topic, last.rowid));
  }

  /** The answer completes what has been received. */
  lemma AnswerCompletes(s: Session, topic: string) returns (from: int)
    requires TableOk(s) && Exact(s, topic)
    ensures Answer(s, topic) == After(s.rows, topic, from)
    ensures s.received + After(s.rows, topic, from) == OfTopic(s.rows, topic)
  {
    if s.cursor.None? {
      from := -1;
      AnswerIs(s, topic, Row(0, "", 0, 0, "", "", false));
      AfterWhole(s, topic);
    } else {
      var last :| last in s.rows && last.mid == s.cursor.value
                  && s.received + After(s.rows, topic, last.rowid) == OfTopic(s.rows, topic);
      from := last.rowid;
      AnswerIs(s, topic, last);
    }
    AfterSorted(s, topic, from);
  }

  lemma PollKeepsExact(s: Session, topic: string)
    requires TableOk(s) && Exact(s, topic)
    ensures Exact(Step(s, topic, Poll), topic)
    ensures Step(s, topic, Poll).received == OfTopic(s.rows, topic)
  {
    var from := AnswerCompletes(s, topic);
    var found := Answer(s, topic);
    if found == [] {
      assert s.received + found == s.received;
    } else {
      CursorMoves(s, topic, from);
    }
  }

  lemma CursorMoves(s: Session, topic: string, from: int)
    requires TableOk(s) && Ordered(s.rows, topic) && After(s.rows, topic, from) != []
    requires s.received + After(s.rows, topic, from) == OfTopic(s.rows, topic)
    ensures var found := After(s.rows, topic, from);
      Exact(s.(cursor := Some(found[|found| - 1].mid), received := s.received + found), topic)
  {
    var found := After(s.rows, topic, from);
    var newest := found[|found| - 1];
    var t := s.(cursor := Some(newest.mid), received := s.received + found);
    NothingAfterLast(s, topic, from);
    assert newest in found;
    assert t.received + [] == t.received;
    assert newest in t.rows && t.received + After(t.rows, topic, newest.rowid) == OfTopic(t.rows, topic);
  }

  lemma OrderedSnoc(rows: seq<Row>, row: Row, topic: string)
    requires Ordered(rows, topic) && (row.topic == topic ==> forall r | r in rows && r.topic == topic :: r.time <= row.time)
    ensures Ordered(rows + [row], topic)
  {
  }

  lemma WhereSnoc(rows: seq<Row>, row: Row, p: Row -> bool)
    ensures Where(rows + [row], p) == Where(rows, p) + if p(row) then [row] else []
  {
    WhereConcat(rows, [row], p);
    assert [row][1..] == [];
  }

  lemma ArriveKeepsExact(s: Session, topic: string, e: Event)
    requires TableOk(s) && Exact(s, topic) && e.Arrive? && Immediate(s.rows, e) && InTimeOrder(s.rows, topic, e)
    ensures Exact(Step(s, topic, e), topic)
  {
    var t := Step(s, topic, e);
    var row := NewRow(s.nextId, e.message, e.now);
    OrderedSnoc(s.rows, row, topic);
    if s.cursor.Some? {
      var last :| last in s.rows && last.mid == s.cursor.value
                  && s.received + After(s.rows, topic, last.rowid) == OfTopic(s.rows, topic);
      ArrivalExtends(s, topic, row, last);
      assert last in t.rows;
    }
  }

  lemma ArrivalExtends(s: Session, topic: string, row: Row, last: Row)
    requires last.rowid < row.rowid
    requires s.received + After(s.rows, topic, last.rowid) == OfTopic(s.rows, topic)
    ensures s.received + After(s.rows + [row], topic, last.rowid) == OfTopic(s.rows + [row], topic)
  {
    WhereSnoc(s.rows, row, (r: Row) => r.topic == topic && r.rowid > last.rowid);
    WhereSnoc(s.rows, row, (r: Row) => r.topic == topic);
  }

  lemma StepKeepsExact(s: Session, topic: string, e: Event)
    requires TableOk(s) && Exact(s, topic) && Immediate(s.rows, e) && InTimeOrder(s.rows, topic, e)
    ensures Exact(Step(s, topic, e), topic)
  {
    if e.Poll? { PollKeepsExact(s, topic); } else { ArriveKeepsExact(s, topic, e); }
  }

  lemma {:induction false} ReplayExact(topic: string, events: seq<Event>)
    requires AllImmediate(topic, events) && AllInTimeOrder(topic, events)
    ensures TableOk(Replay(topic, events)) && Exact(Replay(topic, events), topic)
  {
    ReplayCatchesUp(topic, events);
    if events != [] {
      var n := |events| - 1;
      PrefixImmediate(topic, events, n);
      PrefixInTimeOrder(topic, events, n);
      ReplayExact(topic, events[..n]);
      StepKeepsExact(Replay(topic, events[..n]), topic, events[n]);
    }
  }

  /** Polling with the id of the last message, interleaved with any arrivals in time order, adds up
      to exactly one final poll for everything: no loss, no duplicate, same order. */
  lemma PollsAddUp(topic: string, events: seq<Event>)
    requires AllImmediate(topic, events + [Poll]) && AllInTimeOrder(topic, events + [Poll])
    ensures var s := Replay(topic, events + [Poll]);
      s.received == SinceTime(s.rows, topic, SINCE_ALL, false)
  {
    var all := events + [Poll];
    assert all[..|events|] == events;
    assert forall i | 0 <= i < |events| :: all[..i] == events[..i] && all[i] == events[i];
    ReplayExact(topic, events);
    var s := Replay(topic, events);
    PollKeepsExact(s, topic);
    AfterWhole(s, topic);
    AfterSorted(s, topic, -1);
    AnswerIs(s.(cursor := None), topic, Row(0, "", 0, 0, "", "", false));
  }

  // ---------- out of time order ----------

  lemma LastNotBefore(rows: seq<Row>, r: Row)
    requires Sorted(rows) && r in rows
    ensures !Before(rows[|rows| - 1], r)
  {
  }

  lemma FirstAnswer(s: Session, topic: string)
    requires TableOk(s) && s.cursor.None?
    ensures Sorted(Answer(s, topic)) && forall r :: r in Answer(s, topic) <==> r in s.rows && r.topic == topic
  {
    AnswerIs(s, topic, Row(0, "", 0, 0, "", "", false));
    OrderByMembers(After(s.rows, topic, -1));
    OrderBySorted(After(s.rows, topic, -1));
  }

  lemma NextAnswer(s: Session, topic: string, last: Row, r: Row)
    requires TableOk(s) && s.cursor == Some(last.mid) && last in s.rows
    ensures r in Answer(s, topic) <==> r in s.rows && r.topic == topic && r.rowid > last.rowid
  {
    AnswerIs(s, topic, last);
    OrderByMembers(After(s.rows, topic, last.rowid));
  }

  /** The last message of a first poll is not one that an earlier message is ahead of in time. */
  lemma LastIsNotLate(s: Session, topic: string, late: Row, earlier: Row)
    requires TableOk(s) && s.cursor.None? && late in s.rows && earlier in s.rows
    requires late.topic == earlier.topic == topic && earlier.time > late.time
    ensures var found := Answer(s, topic);
      late in found && found[|found| - 1] in s.rows && found[|found| - 1] != late
  {
    var found := Answer(s, topic);
    FirstAnswer(s, topic);
    LastNotBefore(found, earlier);
    assert found[|found| - 1] in found;
  }

  lemma PollAnswered(s: Session, topic: string)
    requires TableOk(s) && Answer(s, topic) != []
    ensures var t, found := Step(s, topic, Poll), Answer(s, topic);
      TableOk(t) && t.rows == s.rows && t.cursor == Some(found[|found| - 1].mid)
  {
  }

  lemma AnsweredNext(s: Session, topic: string, last: Row, late: Row)
    requires TableOk(s) && Answer(s, topic) != [] && last == Answer(s, topic)[|Answer(s, topic)| - 1]
    requires last in s.rows && late in s.rows && late.topic == topic && late.rowid > last.rowid
    ensures late in Answer(Step(s, topic, Poll), topic)
  {
    PollAnswered(s, topic);
    NextAnswer(Step(s, topic, Poll), topic, last, late);
  }

  /** A message that arrives with a time before another one of its topic is delivered twice. */
  lemma LateMessageRepeats(s: Session, topic: string, late: Row, earlier: Row)
    requires TableOk(s) && s.cursor.None? && late in s.rows && earlier in s.rows
    requires late.topic == earlier.topic == topic && earlier.time > late.time
    requires forall r | r in s.rows && r != late :: r.rowid < late.rowid
    ensures late in Answer(s, topic) && late in Answer(Step(s, topic, Poll), topic)
  {
    LastIsNotLate(s, topic, late, earlier);
    var found := Answer(s, topic);
    AnsweredNext(s, topic, found[|found| - 1], late);
  }

  lemma ReplaySnoc(topic: string, events: seq<Event>, e: Event)
    ensures Replay(topic, events + [e]) == Step(Replay(topic, events), topic, e)
  {
  }

  lemma {:induction false} OnlyArrivals(topic: string, arrivals: seq<Event>)
    requires forall i | 0 <= i < |arrivals| :: arrivals[i].Arrive?
    ensures var s := Replay(topic, arrivals); s.cursor.None? && s.received == []
  {
    if arrivals != [] { OnlyArrivals(topic, arrivals[..|arrivals| - 1]); }
  }

  /** Polling twice after some of the arrivals adds up to one poll for everything. */
  ghost predicate TwoPollsAddUp(topic: string, arrivals: seq<Event>)
  {
    var s := Replay(topic, arrivals + [Poll] + [Poll]);
    s.received == SinceTime(s.rows, topic, SINCE_ALL, false)
  }

  lemma PollsStayInOrder(topic: string, arrivals: seq<Event>, k: nat)
    requires k <= |arrivals| && AllImmediate(topic, arrivals) && AllInTimeOrder(topic, arrivals)
    ensures var all := arrivals[..k] + [Poll] + [Poll]; AllImmediate(topic, all) && AllInTimeOrder(topic, all)
  {
    var all := arrivals[..k] + [Poll] + [Poll];
    forall i | 0 <= i < |all|
      ensures Immediate(Replay(topic, all[..i]).rows, all[i]) && InTimeOrder(Replay(topic, all[..i]).rows, topic, all[i])
    {
      if i < k { assert all[..i] == arrivals[..i] && all[i] == arrivals[i]; } else { assert all[i] == Poll; }
    }
  }

  lemma InOrderAddsUp(topic: string, arrivals: seq<Event>, k: nat)
    requires k <= |arrivals| && AllImmediate(topic, arrivals) && AllInTimeOrder(topic, arrivals)
    ensures TwoPollsAddUp(topic, arrivals[..k])
  {
    PollsStayInOrder(topic, arrivals, k);
    PollsAddUp(topic, arrivals[..k] + [Poll]);
  }

  lemma SessionRepeats(before: Session, topic: string, e: Event)
    requires TableOk(before) && before.cursor.None? && before.received == []
    requires e.Arrive? && Immediate(before.rows, e) && !InTimeOrder(before.rows, topic, e)
    ensures var s := Step(before, topic, e);
            var twice := Step(Step(s, topic, Poll), topic, Poll);
      |twice.received| > |SinceTime(twice.rows, topic, SINCE_ALL, false)|
  {
    var s := Step(before, topic, e);
    ArriveKeepsTable(before, topic, e);
    var late := NewRow(before.nextId, e.message, e.now);
    var earlier :| earlier in before.rows && earlier.topic == topic && earlier.time > e.message.time;
    assert late in s.rows && earlier in s.rows;
    LateMessageRepeats(s, topic, late, earlier);
    var once := Step(s, topic, Poll);
    assert |Answer(once, topic)| > 0 && |Answer(s, topic)| > 0;
  }

  lemma OutOfOrderRepeats(topic: string, arrivals: seq<Event>, i: nat)
    requires i < |arrivals| && AllImmediate(topic, arrivals)
    requires forall j | 0 <= j < |arrivals| :: arrivals[j].Arrive?
    requires !InTimeOrder(Replay(topic, arrivals[..i]).rows, topic, arrivals[i])
    ensures !TwoPollsAddUp(topic, arrivals[..i + 1])
  {
    var events, e := arrivals[..i], arrivals[i];
    var upTo := arrivals[..i + 1];
    assert upTo == events + [e];
    PrefixImmediate(topic, arrivals, i);
    ReplayCatchesUp(topic, events);
    OnlyArrivals(topic, events);
    SessionRepeats(Replay(topic, events), topic, e);
    ReplaySnoc(topic, events, e);
    ReplaySnoc(topic, upTo, Poll);
    ReplaySnoc(topic, upTo + [Poll], Poll);
  }

  /** For messages arriving one by one, resuming by id adds up after every prefix exactly when the
      topic's messages arrive in time order. */
  lemma TimeOrderIsNeeded(topic: string, arrivals: seq<Event>)
    requires AllImmediate(topic, arrivals) && forall i | 0 <= i < |arrivals| :: arrivals[i].Arrive?
    ensures AllInTimeOrder(topic, arrivals) <==> forall k | 0 <= k <= |arrivals| :: TwoPollsAddUp(topic, arrivals[..k])
  {
    if AllInTimeOrder(topic, arrivals) {
      forall k | 0 <= k <= |arrivals| ensures TwoPollsAddUp(topic, arrivals[..k]) {
        InOrderAddsUp(topic, arrivals, k);
      }
    } else {
      var i :| 0 <= i < |arrivals| && !InTimeOrder(Replay(topic, arrivals[..i]).rows, topic, arrivals[i]);
      OutOfOrderRepeats(topic, arrivals, i);
    }
  }
}
