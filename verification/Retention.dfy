/**
  How long a stored message stays: as long as its expiry says, and no longer than the next prune
  after that, over every interleaving of Delivery steps.
 */
module Retention {
  import opened Text
  import opened MessageTable
  import opened Delivery

  lemma TimePasses(s: State, step: Step)
    requires Enabled(s, step)
    ensures Apply(s, step).now >= s.now
  {
  }

  /** The message has its row, with its topic and expiry, and no prune is about to delete it. */
  ghost predicate Retained(s: State, mid: string, topic: string, expires: int)
  {
    && (exists r :: r in s.rows && r.mid == mid && r.topic == topic && r.expires == expires)
    && forall i | 0 <= i < |s.prunes| :: mid !in s.prunes[i]
  }

  /** A step other than expiring its topic keeps the row of a message as it is, up to the published
      mark, unless a prune lists it. */
  lemma RowKept(s: State, step: Step, r: Row)
    requires Enabled(s, step) && r in s.rows && step != ExpireMessages(r.topic)
    requires forall i | 0 <= i < |s.prunes| :: r.mid !in s.prunes[i]
    ensures exists q :: q in Apply(s, step).rows && q.mid == r.mid && q.topic == r.topic && q.expires == r.expires
  {
    var t := Apply(s, step);
    match step
    case SendNext(userFound) =>
      MarkRows(s.rows, s.sweep[0].mid);
      var q := if userFound && r.mid == s.sweep[0].mid then r.(published := true) else r;
      assert q in t.rows;
    case ExpireMessages(topic) =>
      ExpireRows(s.rows, topic, s.now - 1);
      assert r in t.rows;
    case DeleteExpired(i) => assert r in t.rows;
    case _ => assert r in t.rows;
  }

  /** Before its expiry a message is not put on the list of a prune. */
  lemma NotListed(s: State, step: Step, r: Row)
    requires Inv(s) && Enabled(s, step) && r in s.rows && s.now < r.expires
    requires forall i | 0 <= i < |s.prunes| :: r.mid !in s.prunes[i]
    ensures var t := Apply(s, step); forall i | 0 <= i < |t.prunes| :: r.mid !in t.prunes[i]
  {
    if step.LookForExpired? {
      ExpiredMembers(s.rows, s.now, r.mid);
      forall q | q in s.rows && q.mid == r.mid ensures q == r {
        SameMidSameRow(s.rows, q, r);
      }
    }
  }

  lemma RetainedStep(s: State, step: Step, mid: string, topic: string, expires: int)
    requires Inv(s) && Enabled(s, step) && Retained(s, mid, topic, expires)
    requires step != ExpireMessages(topic) && s.now < expires
    ensures Retained(Apply(s, step), mid, topic, expires)
  {
    var r :| r in s.rows && r.mid == mid && r.topic == topic && r.expires == expires;
    RowKept(s, step, r);
    NotListed(s, step, r);
  }

  lemma {:induction false} RetainedRun(s: State, steps: seq<Step>, mid: string, topic: string, expires: int)
    requires Inv(s) && Valid(s, steps) && Retained(s, mid, topic, expires)
    requires ExpireMessages(topic) !in steps && Exec(s, steps).now < expires
    ensures Retained(Exec(s, steps), mid, topic, expires)
  {
    if steps != [] {
      var init, step := steps[..|steps| - 1], steps[|steps| - 1];
      assert steps == init + [step];
      TimePasses(Exec(s, init), step);
      RunKeeps(s, init);
      RetainedRun(s, init, mid, topic, expires);
      RetainedStep(Exec(s, init), step, mid, topic, expires);
    }
  }

  lemma StoredRetained(s: State, mid: string, reading: int)
    requires Inv(s) && Enabled(s, Store(mid, reading))
    ensures var m := s.pending[mid].message; Retained(Apply(s, Store(mid, reading)), mid, m.topic, m.expires)
  {
    var t := Apply(s, Store(mid, reading));
    assert NewRow(s.nextId, s.pending[mid].message, reading) in t.rows;
    forall i | 0 <= i < |t.prunes| ensures mid !in t.prunes[i] {
      assert PruneOk(s, s.prunes[i]);
    }
  }

  /** A stored message whose topic is not expired keeps its row until the time its expiry says,
      whatever sweeps and prunes run. */
  lemma MessageRetained(now: int, before: seq<Step>, mid: string, reading: int, between: seq<Step>)
    requires Valid(Start(now), before)
    requires var s := Exec(Start(now), before);
      && Enabled(s, Store(mid, reading)) && Valid(Apply(s, Store(mid, reading)), between)
      && ExpireMessages(s.pending[mid].message.topic) !in between
      && AfterStore(s, mid, reading, between).now < s.pending[mid].message.expires
    ensures var s := Exec(Start(now), before);
      var m := s.pending[mid].message;
      exists r :: r in AfterStore(s, mid, reading, between).rows && r.mid == mid && r.topic == m.topic && r.expires == m.expires
  {
    var s := Exec(Start(now), before);
    var m := s.pending[mid].message;
    RunKeeps(Start(now), before);
    StoreKeeps(s, mid, reading);
    StoredRetained(s, mid, reading);
    RetainedRun(Apply(s, Store(mid, reading)), between, mid, m.topic, m.expires);
  }

  /** Whatever row the message has, it has the topic and expiry of the message. */
  ghost predicate ExpiryIs(s: State, mid: string, topic: string, expires: int)
  {
    mid in s.used && mid !in s.pending && forall r | r in s.rows && r.mid == mid :: r.topic == topic && r.expires == expires
  }

  lemma ExpiryStays(s: State, step: Step, mid: string, topic: string, expires: int)
    requires Inv(s) && Enabled(s, step) && ExpiryIs(s, mid, topic, expires) && step != ExpireMessages(topic)
    ensures ExpiryIs(Apply(s, step), mid, topic, expires)
  {
    var t := Apply(s, step);
    match step
    case SendNext(userFound) => MarkRows(s.rows, s.sweep[0].mid);
    case ExpireMessages(other) => ExpireRows(s.rows, other, s.now - 1);
    case _ =>
  }

  lemma {:induction false} ExpiryKept(s: State, steps: seq<Step>, mid: string, topic: string, expires: int)
    requires Inv(s) && Valid(s, steps) && ExpiryIs(s, mid, topic, expires) && ExpireMessages(topic) !in steps
    ensures ExpiryIs(Exec(s, steps), mid, topic, expires)
  {
    if steps != [] {
      var init, step := steps[..|steps| - 1], steps[|steps| - 1];
      assert steps == init + [step];
      RunKeeps(s, init);
      ExpiryKept(s, init, mid, topic, expires);
      ExpiryStays(Exec(s, init), step, mid, topic, expires);
    }
  }

  lemma StoredExpiry(s: State, mid: string, reading: int)
    requires Inv(s) && Enabled(s, Store(mid, reading))
    ensures var m := s.pending[mid].message; ExpiryIs(Apply(s, Store(mid, reading)), mid, m.topic, m.expires)
  {
  }

  /** A prune that looks, runs anything, and deletes its list. */
  ghost predicate Prunes(t: State, waiting: seq<Step>, after: seq<Step>)
  {
    && Valid(Apply(t, LookForExpired), waiting)
    && var position := MovedAll(Some(|t.prunes|), waiting);
       && position.Some?
       && Enabled(Exec(Apply(t, LookForExpired), waiting), DeleteExpired(position.value))
       && Valid(Apply(Exec(Apply(t, LookForExpired), waiting), DeleteExpired(position.value)), after)
  }

  ghost function Pruned(t: State, waiting: seq<Step>, after: seq<Step>): State
    requires Prunes(t, waiting, after)
  {
    Exec(Apply(Exec(Apply(t, LookForExpired), waiting), DeleteExpired(MovedAll(Some(|t.prunes|), waiting).value)), after)
  }

  lemma GoneStaysGone(t: State, waiting: seq<Step>, after: seq<Step>, mid: string)
    requires Inv(t) && Gone(t, mid) && Prunes(t, waiting, after)
    ensures !HasRow(Pruned(t, waiting, after), mid)
  {
    var looked := Apply(t, LookForExpired);
    LookKeeps(t);
    GoneStays(t, LookForExpired, mid);
    RunKeeps(looked, waiting);
    GoneForever(looked, waiting, mid);
    var later, step := Exec(looked, waiting), DeleteExpired(MovedAll(Some(|t.prunes|), waiting).value);
    ApplyKeeps(later, step);
    GoneStays(later, step, mid);
    GoneForever(Apply(later, step), after, mid);
  }

  /** A stored message whose topic is not expired is gone for good after a prune that looked when its
      expiry had come and it was published, whatever ran between looking and deleting. */
  lemma ExpiredMessageGoes(now: int, before: seq<Step>, mid: string, reading: int, between: seq<Step>,
                           waiting: seq<Step>, after: seq<Step>)
    requires Valid(Start(now), before)
    requires var s := Exec(Start(now), before);
      && Enabled(s, Store(mid, reading)) && Valid(Apply(s, Store(mid, reading)), between)
      && ExpireMessages(s.pending[mid].message.topic) !in between
      && var t := AfterStore(s, mid, reading, between);
         && t.now >= s.pending[mid].message.expires && (forall r | r in t.rows && r.mid == mid :: r.published)
         && Prunes(t, waiting, after)
    ensures var t := AfterStore(Exec(Start(now), before), mid, reading, between);
      !HasRow(Pruned(t, waiting, after), mid)
  {
    var s := Exec(Start(now), before);
    var m := s.pending[mid].message;
    RunKeeps(Start(now), before);
    StoreKeeps(s, mid, reading);
    StoredExpiry(s, mid, reading);
    ExpiryKept(Apply(s, Store(mid, reading)), between, mid, m.topic, m.expires);
    RunKeeps(Apply(s, Store(mid, reading)), between);
    DueRowPruned(AfterStore(s, mid, reading, between), waiting, after, mid, m.topic, m.expires);
  }

  lemma DueRowPruned(t: State, waiting: seq<Step>, after: seq<Step>, mid: string, topic: string, expires: int)
    requires Inv(t) && ExpiryIs(t, mid, topic, expires) && t.now >= expires && Prunes(t, waiting, after)
    requires forall r | r in t.rows && r.mid == mid :: r.published
    ensures !HasRow(Pruned(t, waiting, after), mid)
  {
    if HasRow(t, mid) {
      var r :| r in t.rows && r.mid == mid;
      PruneRemovesExpired(t, waiting, after, r);
    } else {
      GoneStaysGone(t, waiting, after, mid);
    }
  }
}
