/**
  The life of a message: published or delayed by a request, stored (possibly later, by the batching
  queue), sent when due by the delayed sender, expired and pruned. Requests, the single delayed
  sender and any number of prunes interleave; every step is one table statement or one decision.
 */
module Delivery {
  import opened Text
  import opened MessageTable

  /** A message on its way into the table, with the clock reading at which it was judged delayed. */
  datatype Pending = Pending(message: Message, decided: int)

  datatype State = State(
    now: int,
    used: set<string>,
    pending: map<string, Pending>,
    rows: seq<Row>,
    nextId: nat,
    sweep: seq<Row>,
    prunes: seq<seq<string>>,
    handed: seq<string>)

  datatype Step =
    | Tick(to: int)
    | Publish(message: Message, cache: bool)
    | Store(mid: string, reading: int)
    | BeginSweep
    | SendNext(userFound: bool)
    | ExpireMessages(topic: string)
    | LookForExpired
    | DeleteExpired(index: nat)

  function Start(now: int): State
  {
    State(now, {}, map[], [], 0, [], [], [])
  }

  /** The clock never goes back, ids are unique, a message is stored at a reading between its
      decision and now, and the delayed sender finishes one sweep before it starts the next. */
  predicate Enabled(s: State, step: Step)
  {
    match step
    case Tick(to) => s.now <= to
    case Publish(m, _) => m.id !in s.used
    case Store(mid, reading) => mid in s.pending && s.pending[mid].decided <= reading <= s.now
    case BeginSweep => s.sweep == []
    case SendNext(_) => s.sweep != []
    case ExpireMessages(_) => true
    case LookForExpired => true
    case DeleteExpired(i) => i < |s.prunes|
  }

  function Apply(s: State, step: Step): State
    requires Enabled(s, step)
  {
    match step
    case Tick(to) => s.(now := to)
    case Publish(m, cache) =>
      var delayed := m.time > s.now;
      s.(used := s.used + {m.id},
         handed := if delayed then s.handed else s.handed + [m.id],
         pending := if cache then s.pending[m.id := Pending(m, s.now)] else s.pending)
    case Store(mid, reading) =>
      s.(pending := map id | id in s.pending && id != mid :: s.pending[id],
         rows := s.rows + [NewRow(s.nextId, s.pending[mid].message, reading)],
         nextId := s.nextId + 1)
    case BeginSweep => s.(sweep := Due(s.rows, s.now))
    case SendNext(userFound) =>
      var m := s.sweep[0];
      if userFound then
        s.(sweep := s.sweep[1..], handed := s.handed + [m.mid], rows := MarkPublished(s.rows, m.mid))
      else s.(sweep := s.sweep[1..])
    case ExpireMessages(topic) => s.(rows := ExpireTopic(s.rows, topic, s.now - 1))
    case LookForExpired => s.(prunes := s.prunes + [Expired(s.rows, s.now)])
    case DeleteExpired(i) =>
      s.(rows := DeleteMessages(s.rows, s.prunes[i]), prunes := s.prunes[..i] + s.prunes[i + 1..])
  }

  // ---------- runs ----------

  ghost predicate Valid(s: State, steps: seq<Step>)
    decreases |steps|, 0
  {
    steps == [] || (Valid(s, steps[..|steps| - 1])
                    && Enabled(Exec(s, steps[..|steps| - 1]), steps[|steps| - 1]))
  }

  ghost function Exec(s: State, steps: seq<Step>): State
    requires Valid(s, steps)
    decreases |steps|, 1
  {
    if steps == [] then s else Apply(Exec(s, steps[..|steps| - 1]), steps[|steps| - 1])
  }

  // ---------- the invariant ----------

  predicate Distinct(ids: seq<string>)
  {
    forall i, j | 0 <= i < j < |ids| :: ids[i] != ids[j]
  }

  ghost predicate HasRow(s: State, mid: string)
  {
    exists r :: r in s.rows && r.mid == mid
  }

  /** Ids are used once: a message is pending or stored, never both. */
  ghost predicate IdsOk(s: State)
  {
    && UniqueMids(s.rows)
    && (forall r | r in s.rows :: r.mid in s.used && r.mid !in s.pending)
    && (forall id | id in s.pending :: id in s.used && s.pending[id].message.id == id && s.pending[id].decided <= s.now)
  }

  /** Nothing is handed over twice, nothing unpublished has been handed over, and a pending message
      has been handed over exactly if it was not delayed. */
  ghost predicate HandedOk(s: State)
  {
    && Distinct(s.handed)
    && (forall id | id in s.handed :: id in s.used)
    && (forall r | r in s.rows && !r.published :: r.mid !in s.handed)
    && (forall id | id in s.pending :: id in s.handed <==> s.pending[id].message.time <= s.pending[id].decided)
  }

  /** A published message is due. */
  ghost predicate PublishedOk(s: State)
  {
    forall r | r in s.rows && r.published :: r.time <= s.now
  }

  ghost predicate Awaiting(rows: seq<Row>, now: int, mid: string)
  {
    exists r :: r in rows && r.mid == mid && !r.published && r.time <= now
  }

  /** What the sweep still has to send is stored, due and unpublished. */
  ghost predicate SweepOk(s: State)
  {
    UniqueMids(s.sweep) && forall m | m in s.sweep :: Awaiting(s.rows, s.now, m.mid)
  }

  ghost predicate PruneOk(s: State, ids: seq<string>)
  {
    forall id | id in ids :: id in s.used && id !in s.pending && forall r | r in s.rows && r.mid == id :: r.published
  }

  /** What a prune is about to delete is published. */
  ghost predicate PrunesOk(s: State)
  {
    forall i | 0 <= i < |s.prunes| :: PruneOk(s, s.prunes[i])
  }

  ghost predicate Inv(s: State)
  {
    IdsOk(s) && HandedOk(s) && PublishedOk(s) && SweepOk(s) && PrunesOk(s)
  }

  // ---------- step lemmas ----------

  lemma MarkRows(rows: seq<Row>, mid: string)
    ensures forall r | r in MarkPublished(rows, mid) ::
              exists q :: q in rows && r == if q.mid == mid then q.(published := true) else q
    ensures forall q | q in rows :: (if q.mid == mid then q.(published := true) else q) in MarkPublished(rows, mid)
  {
    var after := MarkPublished(rows, mid);
    forall r | r in after ensures exists q :: q in rows && r == if q.mid == mid then q.(published := true) else q {
      var i :| 0 <= i < |after| && after[i] == r;
      assert rows[i] in rows;
    }
    forall q | q in rows ensures (if q.mid == mid then q.(published := true) else q) in after {
      var i :| 0 <= i < |rows| && rows[i] == q;
      assert after[i] in after;
    }
  }

  lemma ExpireRows(rows: seq<Row>, topic: string, at: int)
    ensures forall r | r in ExpireTopic(rows, topic, at) ::
              exists q :: q in rows && r == if q.topic == topic then q.(expires := at) else q
    ensures forall q | q in rows :: (if q.topic == topic then q.(expires := at) else q) in ExpireTopic(rows, topic, at)
  {
    var after := ExpireTopic(rows, topic, at);
    forall r | r in after ensures exists q :: q in rows && r == if q.topic == topic then q.(expires := at) else q {
      var i :| 0 <= i < |after| && after[i] == r;
      assert rows[i] in rows;
    }
    forall q | q in rows ensures (if q.topic == topic then q.(expires := at) else q) in after {
      var i :| 0 <= i < |rows| && rows[i] == q;
      assert after[i] in after;
    }
  }

  lemma TickKeeps(s: State, to: int)
    requires Inv(s) && s.now <= to
    ensures Inv(s.(now := to))
  {
  }

  lemma PublishKeeps(s: State, m: Message, cache: bool)
    requires Inv(s) && m.id !in s.used
    ensures Inv(Apply(s, Publish(m, cache)))
  {
    var t := Apply(s, Publish(m, cache));
    forall i | 0 <= i < |t.prunes| ensures PruneOk(t, t.prunes[i]) {
      assert PruneOk(s, s.prunes[i]);
    }
    assert SweepOk(t);
    assert Distinct(t.handed) by {
      assert m.id !in s.handed;
    }
  }

  lemma StoreKeeps(s: State, mid: string, reading: int)
    requires Inv(s) && Enabled(s, Store(mid, reading))
    ensures Inv(Apply(s, Store(mid, reading)))
  {
  }

  lemma BeginKeeps(s: State)
    requires Inv(s) && s.sweep == []
    ensures Inv(Apply(s, BeginSweep))
  {
    var t := Apply(s, BeginSweep);
    DueMembers(s.rows, s.now);
    WhereUnique(s.rows, (r: Row) => r.time <= s.now && !r.published);
    OrderByUnique(Where(s.rows, (r: Row) => r.time <= s.now && !r.published));
    forall m | m in t.sweep ensures Awaiting(t.rows, t.now, m.mid) {
    }
    forall i | 0 <= i < |t.prunes| ensures PruneOk(t, t.prunes[i]) {
      assert PruneOk(s, s.prunes[i]);
    }
  }

  lemma SendKeepsIds(s: State)
    requires Inv(s) && s.sweep != []
    ensures IdsOk(Apply(s, SendNext(true)))
  {
  }

  /** The head of the sweep is a stored, unpublished row, so it has not been handed over. */
  lemma SendKeepsHanded(s: State)
    requires Inv(s) && s.sweep != []
    ensures var t := Apply(s, SendNext(true)); HandedOk(t) && PublishedOk(t)
  {
  }

  lemma SendKeepsLists(s: State)
    requires Inv(s) && s.sweep != []
    ensures var t := Apply(s, SendNext(true)); SweepOk(t) && PrunesOk(t)
  {
    var mid := s.sweep[0].mid;
    var t := Apply(s, SendNext(true));
    MarkRows(s.rows, mid);
    forall m | m in t.sweep ensures Awaiting(t.rows, t.now, m.mid) {
      assert m in s.sweep && Awaiting(s.rows, s.now, m.mid);
      var r :| r in s.rows && r.mid == m.mid && !r.published && r.time <= s.now;
      assert m.mid != mid;
      assert r in t.rows;
    }
    forall i | 0 <= i < |t.prunes| ensures PruneOk(t, t.prunes[i]) {
      assert PruneOk(s, s.prunes[i]);
    }
  }

  lemma SkipKeeps(s: State)
    requires Inv(s) && s.sweep != []
    ensures Inv(Apply(s, SendNext(false)))
  {
  }

  lemma ExpireKeepsRows(s: State, topic: string)
    requires Inv(s)
    ensures var t := Apply(s, ExpireMessages(topic)); IdsOk(t) && HandedOk(t) && PublishedOk(t)
  {
  }

  lemma ExpireKeepsLists(s: State, topic: string)
    requires Inv(s)
    ensures var t := Apply(s, ExpireMessages(topic)); SweepOk(t) && PrunesOk(t)
  {
    var t := Apply(s, ExpireMessages(topic));
    forall m | m in t.sweep ensures Awaiting(t.rows, t.now, m.mid) {
      assert Awaiting(s.rows, s.now, m.mid);
      var r :| r in s.rows && r.mid == m.mid && !r.published && r.time <= s.now;
      var i :| 0 <= i < |s.rows| && s.rows[i] == r;
      assert t.rows[i] in t.rows;
    }
    forall i | 0 <= i < |t.prunes| ensures PruneOk(t, t.prunes[i]) {
      assert PruneOk(s, s.prunes[i]);
      forall r | r in t.rows && r.mid in t.prunes[i] ensures r.published {
        var j :| 0 <= j < |t.rows| && t.rows[j] == r;
        assert s.rows[j] in s.rows;
      }
    }
  }

  lemma LookKeeps(s: State)
    requires Inv(s)
    ensures Inv(Apply(s, LookForExpired))
  {
    var t := Apply(s, LookForExpired);
    var ids := Expired(s.rows, s.now);
    forall id | id in ids
      ensures id in t.used && id !in t.pending && forall r | r in t.rows && r.mid == id :: r.published
    {
      ExpiredMembers(s.rows, s.now, id);
      var q :| q in s.rows && q.mid == id && q.expires <= s.now && q.published;
      forall r | r in t.rows && r.mid == id ensures r.published {
        SameMidSameRow(s.rows, r, q);
      }
    }
    forall i | 0 <= i < |t.prunes| ensures PruneOk(t, t.prunes[i]) {
      if i < |s.prunes| { assert PruneOk(s, s.prunes[i]); }
    }
  }

  lemma DeleteKeeps(s: State, index: nat)
    requires Inv(s) && index < |s.prunes|
    ensures Inv(Apply(s, DeleteExpired(index)))
  {
    var t := Apply(s, DeleteExpired(index));
    var ids := s.prunes[index];
    assert PruneOk(s, ids);
    DeleteUnique(s.rows, ids);
    forall m | m in t.sweep ensures Awaiting(t.rows, t.now, m.mid) {
      assert Awaiting(s.rows, s.now, m.mid);
      var r :| r in s.rows && r.mid == m.mid && !r.published && r.time <= s.now;
      assert r in t.rows;
    }
    forall i | 0 <= i < |t.prunes| ensures PruneOk(t, t.prunes[i]) {
      assert t.prunes[i] == if i < index then s.prunes[i] else s.prunes[i + 1];
      assert PruneOk(s, s.prunes[if i < index then i else i + 1]);
    }
  }

  /** Every step keeps the invariant. */
  lemma ApplyKeeps(s: State, step: Step)
    requires Inv(s) && Enabled(s, step)
    ensures Inv(Apply(s, step))
  {
    match step
    case Tick(to) => TickKeeps(s, to);
    case Publish(m, cache) => PublishKeeps(s, m, cache);
    case Store(mid, reading) => StoreKeeps(s, mid, reading);
    case BeginSweep => BeginKeeps(s);
    case SendNext(userFound) =>
      if userFound {
        SendKeepsIds(s);
        SendKeepsHanded(s);
        SendKeepsLists(s);
      } else {
        SkipKeeps(s);
      }
    case ExpireMessages(topic) =>
      ExpireKeepsRows(s, topic);
      ExpireKeepsLists(s, topic);
    case LookForExpired => LookKeeps(s);
    case DeleteExpired(index) => DeleteKeeps(s, index);
  }

  lemma {:induction false} RunKeeps(s: State, steps: seq<Step>)
    requires Inv(s) && Valid(s, steps)
    ensures Inv(Exec(s, steps))
  {
    if steps != [] {
      RunKeeps(s, steps[..|steps| - 1]);
      ApplyKeeps(Exec(s, steps[..|steps| - 1]), steps[|steps| - 1]);
    }
  }

  // ---------- at most once, never early ----------

  lemma {:induction false} DistinctCount(ids: seq<string>, id: string)
    requires Distinct(ids)
    ensures multiset(ids)[id] == if id in ids then 1 else 0
  {
    if ids != [] {
      var n := |ids| - 1;
      assert ids == ids[..n] + [ids[n]];
      DistinctCount(ids[..n], id);
    }
  }

  /** In every run each message is handed over at most once, immediately or by the delayed sender. */
  lemma HandedAtMostOnce(now: int, steps: seq<Step>, id: string)
    requires Valid(Start(now), steps)
    ensures multiset(Exec(Start(now), steps).handed)[id] <= 1
  {
    RunKeeps(Start(now), steps);
    DistinctCount(Exec(Start(now), steps).handed, id);
  }

  lemma {:induction false} HandedStays(s: State, steps: seq<Step>, id: string)
    requires Valid(s, steps) && id in s.handed
    ensures id in Exec(s, steps).handed
  {
    if steps != [] {
      HandedStays(s, steps[..|steps| - 1], id);
      HandedGrows(Exec(s, steps[..|steps| - 1]), steps[|steps| - 1], id);
    }
  }

  /** A message that is due when it is published is handed over at once, and never again. */
  lemma ImmediateExactlyOnce(now: int, before: seq<Step>, m: Message, cache: bool, after: seq<Step>)
    requires Valid(Start(now), before)
    requires var s := Exec(Start(now), before);
      m.id !in s.used && m.time <= s.now && Valid(Apply(s, Publish(m, cache)), after)
    ensures var t := Apply(Exec(Start(now), before), Publish(m, cache));
      multiset(t.handed)[m.id] == 1 && multiset(Exec(t, after).handed)[m.id] == 1
  {
    var s := Exec(Start(now), before);
    var t := Apply(s, Publish(m, cache));
    RunKeeps(Start(now), before);
    PublishKeeps(s, m, cache);
    assert t.handed[|t.handed| - 1] == m.id;
    DistinctCount(t.handed, m.id);
    HandedStays(t, after, m.id);
    RunKeeps(t, after);
    DistinctCount(Exec(t, after).handed, m.id);
  }

  /** In every run a poll without scheduled messages shows only messages that are due. */
  lemma NeverEarly(now: int, steps: seq<Step>, topic: string, since: int, mid: string, r: Row)
    requires Valid(Start(now), steps)
    requires var rows := Exec(Start(now), steps).rows;
      r in SinceTime(rows, topic, since, false) || r in SinceID(rows, topic, mid, false) || r in Latest(rows, topic)
    ensures r.time <= Exec(Start(now), steps).now
  {
    var rows := Exec(Start(now), steps).rows;
    RunKeeps(Start(now), steps);
    if r in SinceTime(rows, topic, since, false) {
      SinceTimePublished(rows, topic, since, r);
    } else if r in SinceID(rows, topic, mid, false) {
      SinceIDPublished(rows, topic, mid, r);
    } else {
      LatestPublished(rows, topic, r);
    }
  }

  // ---------- never lost ----------

  /** An unpublished row survives every step: it is still there, with the same time, and it is
      published only if it has just been handed over. */
  lemma UnpublishedSurvives(s: State, step: Step, r: Row)
    requires Inv(s) && Enabled(s, step) && r in s.rows && !r.published
    ensures var t := Apply(s, step);
      exists q :: q in t.rows && q.mid == r.mid && q.time == r.time && (q.published ==> r.mid in t.handed)
  {
    var t := Apply(s, step);
    match step
    case SendNext(userFound) =>
      if userFound {
        MarkRows(s.rows, s.sweep[0].mid);
        var q := if r.mid == s.sweep[0].mid then r.(published := true) else r;
        assert q in t.rows;
        assert t.handed[|t.handed| - 1] == s.sweep[0].mid;
      } else {
        assert r in t.rows;
      }
    case ExpireMessages(topic) =>
      ExpireRows(s.rows, topic, s.now - 1);
      var q := if r.topic == topic then r.(expires := s.now - 1) else r;
      assert q in t.rows;
    case DeleteExpired(i) =>
      assert PruneOk(s, s.prunes[i]);
      assert r in t.rows;
    case _ =>
      assert r in t.rows;
  }

  lemma HandedGrows(s: State, step: Step, id: string)
    requires Enabled(s, step) && id in s.handed
    ensures id in Apply(s, step).handed
  {
  }

  /** Handed over, or stored unpublished with its time. */
  ghost predicate WaitsOrHanded(s: State, mid: string, time: int)
  {
    mid in s.handed || exists r :: r in s.rows && r.mid == mid && r.time == time && !r.published
  }

  /** A message stored unpublished is, at every later point, handed over or still waiting for the
      same time. */
  lemma {:induction false} NeverLost(s: State, steps: seq<Step>, mid: string, time: int)
    requires Inv(s) && Valid(s, steps) && WaitsOrHanded(s, mid, time)
    ensures WaitsOrHanded(Exec(s, steps), mid, time)
  {
    if steps != [] {
      var init, step := steps[..|steps| - 1], steps[|steps| - 1];
      NeverLost(s, init, mid, time);
      RunKeeps(s, init);
      var t := Exec(s, init);
      if mid in t.handed {
        HandedGrows(t, step, mid);
      } else {
        var r :| r in t.rows && r.mid == mid && r.time == time && !r.published;
        UnpublishedSurvives(t, step, r);
      }
    }
  }

  // ---------- a complete sweep ----------

  /** Whenever the sender takes up the message, it finds the user. */
  ghost predicate UserFoundFor(s: State, steps: seq<Step>, mid: string)
    requires Valid(s, steps)
    decreases |steps|
  {
    steps == [] || (
      var init, step := steps[..|steps| - 1], steps[|steps| - 1];
      && UserFoundFor(s, init, mid)
      && (step.SendNext? && Exec(s, init).sweep[0].mid == mid ==> step.userFound))
  }

  ghost predicate InSweep(s: State, mid: string)
  {
    exists m :: m in s.sweep && m.mid == mid
  }

  lemma SweepStep(s: State, step: Step, mid: string)
    requires Inv(s) && Enabled(s, step) && (mid in s.handed || InSweep(s, mid))
    requires step.SendNext? && s.sweep[0].mid == mid ==> step.userFound
    ensures var t := Apply(s, step); mid in t.handed || InSweep(t, mid)
  {
  }

  lemma {:induction false} SweepProgress(s: State, steps: seq<Step>, mid: string)
    requires Inv(s) && Valid(s, steps) && (mid in s.handed || InSweep(s, mid)) && UserFoundFor(s, steps, mid)
    ensures var t := Exec(s, steps); mid in t.handed || InSweep(t, mid)
  {
    if steps != [] {
      var init := steps[..|steps| - 1];
      SweepProgress(s, init, mid);
      RunKeeps(s, init);
      SweepStep(Exec(s, init), steps[|steps| - 1], mid);
    }
  }

  /** A sweep that starts while the message is due has handed it over when no sweep is in progress. */
  lemma SweepHands(s: State, during: seq<Step>, mid: string)
    requires Inv(s) && s.sweep == [] && (mid in s.handed || Awaiting(s.rows, s.now, mid))
    requires Valid(Apply(s, BeginSweep), during) && UserFoundFor(Apply(s, BeginSweep), during, mid)
    requires Exec(Apply(s, BeginSweep), during).sweep == []
    ensures mid in Exec(Apply(s, BeginSweep), during).handed
  {
    var begun := Apply(s, BeginSweep);
    BeginKeeps(s);
    DueMembers(s.rows, s.now);
    assert mid in begun.handed || InSweep(begun, mid);
    SweepProgress(begun, during, mid);
  }

  lemma StoredWaits(s: State, mid: string, reading: int)
    requires Inv(s) && Enabled(s, Store(mid, reading)) && reading < s.pending[mid].message.time
    ensures WaitsOrHanded(Apply(s, Store(mid, reading)), mid, s.pending[mid].message.time)
  {
    assert NewRow(s.nextId, s.pending[mid].message, reading) in Apply(s, Store(mid, reading)).rows;
  }

  /** The state in which a message has been stored and other steps have run. */
  ghost function AfterStore(s: State, mid: string, reading: int, between: seq<Step>): State
    requires Enabled(s, Store(mid, reading)) && Valid(Apply(s, Store(mid, reading)), between)
  {
    Exec(Apply(s, Store(mid, reading)), between)
  }

  lemma StoredIsDue(s: State, mid: string, reading: int, between: seq<Step>)
    requires Inv(s) && Enabled(s, Store(mid, reading)) && reading < s.pending[mid].message.time
    requires Valid(Apply(s, Store(mid, reading)), between)
    requires AfterStore(s, mid, reading, between).now >= s.pending[mid].message.time
    ensures var t := AfterStore(s, mid, reading, between);
      Inv(t) && (mid in t.handed || Awaiting(t.rows, t.now, mid))
  {
    var time := s.pending[mid].message.time;
    var stored := Apply(s, Store(mid, reading));
    StoreKeeps(s, mid, reading);
    StoredWaits(s, mid, reading);
    NeverLost(stored, between, mid, time);
    RunKeeps(stored, between);
    var t := AfterStore(s, mid, reading, between);
    if mid !in t.handed {
      var r :| r in t.rows && r.mid == mid && r.time == time && !r.published;
      assert Awaiting(t.rows, t.now, mid);
    }
  }

  /** A message is stored before its time, anything runs, a sweep starts at or after its time and
      ends, finding the user, while anything else runs: from then on the message has been handed
      over exactly once. */
  lemma SweepDelivers(now: int, before: seq<Step>, mid: string, reading: int, between: seq<Step>, during: seq<Step>,
                      after: seq<Step>)
    requires Valid(Start(now), before)
    requires var s := Exec(Start(now), before);
      && Enabled(s, Store(mid, reading)) && reading < s.pending[mid].message.time
      && Valid(Apply(s, Store(mid, reading)), between)
      && var t := AfterStore(s, mid, reading, between);
         && t.sweep == [] && t.now >= s.pending[mid].message.time
         && Valid(Apply(t, BeginSweep), during) && UserFoundFor(Apply(t, BeginSweep), during, mid)
         && Exec(Apply(t, BeginSweep), during).sweep == []
         && Valid(Exec(Apply(t, BeginSweep), during), after)
    ensures var t := AfterStore(Exec(Start(now), before), mid, reading, between);
      multiset(Exec(Exec(Apply(t, BeginSweep), during), after).handed)[mid] == 1
  {
    var s := Exec(Start(now), before);
    RunKeeps(Start(now), before);
    StoredIsDue(s, mid, reading, between);
    var t := AfterStore(s, mid, reading, between);
    HandedOnceFrom(t, during, after, mid);
  }

  lemma HandedOnceFrom(t: State, during: seq<Step>, after: seq<Step>, mid: string)
    requires Inv(t) && t.sweep == [] && (mid in t.handed || Awaiting(t.rows, t.now, mid))
    requires Valid(Apply(t, BeginSweep), during) && UserFoundFor(Apply(t, BeginSweep), during, mid)
    requires Exec(Apply(t, BeginSweep), during).sweep == [] && Valid(Exec(Apply(t, BeginSweep), during), after)
    ensures multiset(Exec(Exec(Apply(t, BeginSweep), during), after).handed)[mid] == 1
  {
    var begun := Apply(t, BeginSweep);
    SweepHands(t, during, mid);
    BeginKeeps(t);
    RunKeeps(begun, during);
    var swept := Exec(begun, during);
    HandedStays(swept, after, mid);
    RunKeeps(swept, after);
    DistinctCount(Exec(swept, after).handed, mid);
  }

  // ---------- stored too late ----------

  /** Stored as published without having been handed over. */
  ghost predicate Missed(s: State, mid: string)
  {
    mid in s.used && mid !in s.handed && mid !in s.pending && forall r | r in s.rows && r.mid == mid :: r.published
  }

  lemma MissedStays(s: State, step: Step, mid: string)
    requires Inv(s) && Enabled(s, step) && Missed(s, mid)
    ensures Missed(Apply(s, step), mid)
  {
  }

  lemma {:induction false} MissedForever(s: State, steps: seq<Step>, mid: string)
    requires Inv(s) && Valid(s, steps) && Missed(s, mid)
    ensures mid !in Exec(s, steps).handed && Missed(Exec(s, steps), mid)
  {
    if steps != [] {
      var init := steps[..|steps| - 1];
      MissedForever(s, init, mid);
      RunKeeps(s, init);
      MissedStays(Exec(s, init), steps[|steps| - 1], mid);
    }
  }

  /** What storing decides for a delayed message: stored before it is due it waits for a sweep,
      stored at or after that time it is never handed over. */
  lemma DelayedMessageFate(s: State, mid: string, reading: int, steps: seq<Step>)
    requires Inv(s) && Enabled(s, Store(mid, reading)) && mid !in s.handed
    requires Valid(Apply(s, Store(mid, reading)), steps)
    ensures var t := Exec(Apply(s, Store(mid, reading)), steps);
      var time := s.pending[mid].message.time;
      if reading < time then WaitsOrHanded(t, mid, time) else mid !in t.handed
  {
    var stored := Apply(s, Store(mid, reading));
    StoreKeeps(s, mid, reading);
    if reading < s.pending[mid].message.time {
      StoredWaits(s, mid, reading);
      NeverLost(stored, steps, mid, s.pending[mid].message.time);
    } else {
      StoredLate(s, mid, reading);
      MissedForever(stored, steps, mid);
    }
  }

  lemma StoredLate(s: State, mid: string, reading: int)
    requires Inv(s) && Enabled(s, Store(mid, reading)) && mid !in s.handed && reading >= s.pending[mid].message.time
    ensures Missed(Apply(s, Store(mid, reading)), mid)
  {
    var row := NewRow(s.nextId, s.pending[mid].message, reading);
    assert forall r | r in Apply(s, Store(mid, reading)).rows :: r in s.rows || r == row;
  }

  lemma ExecSnoc(s: State, steps: seq<Step>, step: Step)
    requires Valid(s, steps) && Enabled(Exec(s, steps), step)
    ensures Valid(s, steps + [step]) && Exec(s, steps + [step]) == Apply(Exec(s, steps), step)
  {
    assert (steps + [step])[..|steps|] == steps;
  }

  /** A delayed message that reaches the table only when its time has come, as behind a batching
      queue. */
  function LateStore(m: Message): seq<Step>
  {
    [] + [Publish(m, true)] + [Tick(m.time)] + [Store(m.id, m.time)]
  }

  lemma LateStoreRuns(now: int, m: Message)
    requires m.time > now
    ensures Valid(Start(now), LateStore(m)) && Missed(Exec(Start(now), LateStore(m)), m.id)
    ensures var s := Exec(Start(now), LateStore(m)); s.sweep == [] && Due(s.rows, s.now) == []
  {
    var s := Start(now);
    assert Valid(s, []) && Exec(s, []) == s;
    ExecSnoc(s, [], Publish(m, true));
    ExecSnoc(s, [] + [Publish(m, true)], Tick(m.time));
    var ticked := Exec(s, [] + [Publish(m, true)] + [Tick(m.time)]);
    ExecSnoc(s, [] + [Publish(m, true)] + [Tick(m.time)], Store(m.id, m.time));
    RunKeeps(s, [] + [Publish(m, true)] + [Tick(m.time)]);
    StoredLate(ticked, m.id, m.time);
    var t := Exec(s, LateStore(m));
    assert t.rows == [NewRow(0, m, m.time)];
    DueMembers(t.rows, t.now);
    EmptyIff(Due(t.rows, t.now));
  }

  /** From a fresh start such a message is accepted and stored, and no sweep ever sends it. */
  lemma LateStoreNeverSent(now: int, m: Message, after: seq<Step>)
    requires m.time > now
    ensures Valid(Start(now), LateStore(m)) && Due(Exec(Start(now), LateStore(m)).rows, m.time) == []
    ensures Valid(Exec(Start(now), LateStore(m)), after) ==> m.id !in Exec(Exec(Start(now), LateStore(m)), after).handed
  {
    LateStoreRuns(now, m);
    RunKeeps(Start(now), LateStore(m));
    if Valid(Exec(Start(now), LateStore(m)), after) {
      MissedForever(Exec(Start(now), LateStore(m)), after, m.id);
    }
  }

  // ---------- pruning ----------

  /** A deleted message does not come back. */
  ghost predicate Gone(s: State, mid: string)
  {
    mid in s.used && mid !in s.pending && !HasRow(s, mid)
  }

  lemma GoneStays(s: State, step: Step, mid: string)
    requires Inv(s) && Enabled(s, step) && Gone(s, mid)
    ensures Gone(Apply(s, step), mid)
  {
  }

  lemma {:induction false} GoneForever(s: State, steps: seq<Step>, mid: string)
    requires Inv(s) && Valid(s, steps) && Gone(s, mid)
    ensures Gone(Exec(s, steps), mid)
  {
    if steps != [] {
      var init := steps[..|steps| - 1];
      GoneForever(s, init, mid);
      RunKeeps(s, init);
      GoneStays(Exec(s, init), steps[|steps| - 1], mid);
    }
  }

  /** Where the list of a prune is after a step, unless the step was its deletion. */
  function Moved(position: Option<nat>, step: Step): Option<nat>
  {
    if position.None? || !step.DeleteExpired? then position
    else if step.index == position.value then None
    else if step.index < position.value then Some(position.value - 1)
    else position
  }

  function MovedAll(position: Option<nat>, steps: seq<Step>): Option<nat>
  {
    if steps == [] then position else Moved(MovedAll(position, steps[..|steps| - 1]), steps[|steps| - 1])
  }

  lemma ListWaitsStep(s: State, step: Step, position: nat)
    requires Enabled(s, step) && position < |s.prunes|
    ensures var p := Moved(Some(position), step);
      p.Some? ==> p.value < |Apply(s, step).prunes| && Apply(s, step).prunes[p.value] == s.prunes[position]
  {
  }

  /** The list of a prune waits unchanged until it is used. */
  lemma {:induction false} ListWaits(s: State, steps: seq<Step>, position: nat)
    requires Valid(s, steps) && position < |s.prunes|
    ensures var p := MovedAll(Some(position), steps);
      p.Some? ==> p.value < |Exec(s, steps).prunes| && Exec(s, steps).prunes[p.value] == s.prunes[position]
  {
    if steps != [] {
      var init := steps[..|steps| - 1];
      ListWaits(s, init, position);
      var p := MovedAll(Some(position), init);
      if p.Some? { ListWaitsStep(Exec(s, init), steps[|steps| - 1], p.value); }
    }
  }

  /** A prune looks, anything runs, it deletes its list, anything runs: every row that was published
      and expired when it looked is gone. */
  lemma PruneRemovesExpired(s: State, between: seq<Step>, after: seq<Step>, r: Row)
    requires Inv(s) && r in s.rows && r.published && r.expires <= s.now
    requires var looked := Apply(s, LookForExpired);
      var position := MovedAll(Some(|s.prunes|), between);
      && Valid(looked, between) && position.Some?
      && Enabled(Exec(looked, between), DeleteExpired(position.value))
      && Valid(Apply(Exec(looked, between), DeleteExpired(position.value)), after)
    ensures var later := Exec(Apply(s, LookForExpired), between);
      var position := MovedAll(Some(|s.prunes|), between).value;
      !HasRow(Exec(Apply(later, DeleteExpired(position)), after), r.mid)
  {
    var looked := Apply(s, LookForExpired);
    var later := Exec(looked, between);
    var position := MovedAll(Some(|s.prunes|), between).value;
    LookKeeps(s);
    RunKeeps(looked, between);
    ListWaits(looked, between, |s.prunes|);
    ListRemoves(s, later, position, after, r);
  }

  lemma ListRemoves(s: State, later: State, index: nat, steps: seq<Step>, r: Row)
    requires r in s.rows && r.published && r.expires <= s.now
    requires Inv(later) && index < |later.prunes| && later.prunes[index] == Expired(s.rows, s.now)
    requires Valid(Apply(later, DeleteExpired(index)), steps)
    ensures !HasRow(Exec(Apply(later, DeleteExpired(index)), steps), r.mid)
  {
    var t := Apply(later, DeleteExpired(index));
    ExpiredMembers(s.rows, s.now, r.mid);
    assert PruneOk(later, later.prunes[index]);
    DeleteKeeps(later, index);
    assert Gone(t, r.mid);
    GoneForever(t, steps, r.mid);
  }

  /** Expiring a topic puts every published message of the topic on the list of the next prune that
      looks, at that time or later, and leaves the rows of other topics as they are. */
  lemma ExpiredTopicIsPruned(s: State, topic: string, to: int, r: Row)
    requires r in s.rows && s.now <= to
    ensures var t := Apply(Apply(s, ExpireMessages(topic)), Tick(to));
      if r.topic == topic then r.published ==> r.mid in Expired(t.rows, t.now) else r in t.rows
  {
    var t := Apply(Apply(s, ExpireMessages(topic)), Tick(to));
    ExpireRows(s.rows, topic, s.now - 1);
    if r.topic == topic && r.published {
      assert r.(expires := s.now - 1) in t.rows;
      ExpiredMembers(t.rows, t.now, r.mid);
    }
  }

  // ---------- what is not stored, and row ids ----------

  /** A message published without caching never gets a row. */
  lemma UncachedNeverStored(now: int, before: seq<Step>, m: Message, after: seq<Step>)
    requires Valid(Start(now), before)
    requires var s := Exec(Start(now), before);
      m.id !in s.used && Valid(Apply(s, Publish(m, false)), after)
    ensures !HasRow(Exec(Apply(Exec(Start(now), before), Publish(m, false)), after), m.id)
  {
    var s := Exec(Start(now), before);
    RunKeeps(Start(now), before);
    PublishKeeps(s, m, false);
    GoneForever(Apply(s, Publish(m, false)), after, m.id);
  }

  /** Rows are in the order in which they were stored, by ever higher row ids. */
  ghost predicate RowIdsOk(s: State)
  {
    Increasing(s.rows) && forall r | r in s.rows :: r.rowid < s.nextId
  }

  lemma StoreRowIds(s: State, mid: string, reading: int)
    requires Enabled(s, Store(mid, reading)) && RowIdsOk(s)
    ensures RowIdsOk(Apply(s, Store(mid, reading)))
  {
    var t := Apply(s, Store(mid, reading));
    forall i, j | 0 <= i < j < |t.rows| ensures t.rows[i].rowid < t.rows[j].rowid {
      assert t.rows[i] in s.rows;
    }
  }

  lemma SameRowIds(rows: seq<Row>, after: seq<Row>, nextId: nat)
    requires |after| == |rows| && (forall i | 0 <= i < |rows| :: after[i].rowid == rows[i].rowid)
    requires Increasing(rows) && forall r | r in rows :: r.rowid < nextId
    ensures Increasing(after) && forall r | r in after :: r.rowid < nextId
  {
    forall r | r in after ensures r.rowid < nextId {
      var i :| 0 <= i < |after| && after[i] == r;
      assert rows[i] in rows;
    }
  }

  lemma StepRowIds(s: State, step: Step)
    requires Enabled(s, step) && RowIdsOk(s)
    ensures RowIdsOk(Apply(s, step))
  {
    match step
    case Store(mid, reading) => StoreRowIds(s, mid, reading);
    case SendNext(userFound) => SameRowIds(s.rows, Apply(s, step).rows, s.nextId);
    case ExpireMessages(topic) => SameRowIds(s.rows, Apply(s, step).rows, s.nextId);
    case DeleteExpired(i) => DeleteIncreasing(s.rows, s.prunes[i]);
    case _ =>
  }

  /** In every run row ids grow with every message stored. */
  lemma {:induction false} RunRowIds(now: int, steps: seq<Step>)
    requires Valid(Start(now), steps)
    ensures RowIdsOk(Exec(Start(now), steps))
  {
    if steps != [] {
      RunRowIds(now, steps[..|steps| - 1]);
      StepRowIds(Exec(Start(now), steps[..|steps| - 1]), steps[|steps| - 1]);
    }
  }
}
