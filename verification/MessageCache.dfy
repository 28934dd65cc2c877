/**
  The message cache and the server loops around it as they run: the table is updated in place,
  statement by statement, and every server loop is shown to be a run of Delivery steps.
 */
module MessageCache {
  import T = MessageTable
  import D = Delivery

  /** Inserting messages one after the other, each with its own clock reading. */
  function Inserted(rows: seq<T.Row>, nextId: nat, ms: seq<T.Message>, clock: seq<int>): seq<T.Row>
    requires |ms| == |clock|
  {
    rows + seq(|ms|, i requires 0 <= i < |ms| => T.NewRow(nextId + i, ms[i], clock[i]))
  }

  function ExpiredTopics(rows: seq<T.Row>, topics: seq<string>, clock: seq<int>): seq<T.Row>
    requires |topics| == |clock|
  {
    if topics == [] then rows
    else
      var n := |topics| - 1;
      T.ExpireTopic(ExpiredTopics(rows, topics[..n], clock[..n]), topics[n], clock[n] - 1)
  }

  /** One of the listed topics decides the expiry of a row: the clock reading of that topic, less one. */
  ghost predicate ExpiredBy(r: T.Row, expires: int, topics: seq<string>, clock: seq<int>)
    requires |topics| == |clock|
  {
    exists j :: 0 <= j < |topics| && topics[j] == r.topic && expires == clock[j] - 1
  }

  /** Rows of the listed topics get an expiry before a clock reading of their topic; all other rows,
      and everything else about the rows, stay. */
  lemma {:induction false} ExpiredTopicsRows(rows: seq<T.Row>, topics: seq<string>, clock: seq<int>, i: nat)
    requires |topics| == |clock| && i < |rows|
    ensures var after := ExpiredTopics(rows, topics, clock);
      && |after| == |rows|
      && after[i] == rows[i].(expires := after[i].expires)
      && (if rows[i].topic in topics then ExpiredBy(rows[i], after[i].expires, topics, clock) else after[i] == rows[i])
  {
    if topics != [] {
      var n := |topics| - 1;
      ExpiredTopicsRows(rows, topics[..n], clock[..n], i);
      assert topics == topics[..n] + [topics[n]];
      var before, after := ExpiredTopics(rows, topics[..n], clock[..n]), ExpiredTopics(rows, topics, clock);
      if rows[i].topic == topics[n] {
        assert after[i].expires == clock[n] - 1;
      } else if rows[i].topic in topics[..n] {
        var j :| 0 <= j < n && topics[..n][j] == rows[i].topic && before[i].expires == clock[..n][j] - 1;
        assert topics[j] == rows[i].topic && after[i].expires == clock[j] - 1;
      }
    }
  }

  /** The row has the contents of the message, and is published if the message was due when stored. */
  predicate Stores(r: T.Row, m: T.Message, now: int)
  {
    && r.mid == m.id && r.time == m.time && r.expires == m.expires && r.topic == m.topic && r.user == m.user
    && (r.published <==> m.time <= now)
  }

  class Cache {
    var rows: seq<T.Row>
    var nextId: nat
    var queue: seq<T.Message>
    const nop: bool
    const queued: bool

    /** A cache without storage discards all messages; with a queue, messages are stored in batches. */
    constructor (nop: bool, queued: bool)
      ensures rows == [] && nextId == 0 && queue == [] && this.nop == nop && this.queued == queued
    {
      rows, nextId, queue := [], 0, [];
      this.nop, this.queued := nop, queued;
    }

    /** One transaction: a message of another type rolls the whole batch back. */
    method AddMessages(ms: seq<T.Message>, clock: seq<int>) returns (ok: bool)
      requires |ms| == |clock|
      modifies this`rows, this`nextId
      ensures ok <==> nop || forall i | 0 <= i < |ms| :: ms[i].isMessage
      ensures if ok && !nop then rows == Inserted(old(rows), old(nextId), ms, clock) && nextId == old(nextId) + |ms|
              else rows == old(rows) && nextId == old(nextId)
      ensures ok && !nop ==> |rows| == |old(rows)| + |ms| && rows[..|old(rows)|] == old(rows)
      ensures ok && !nop ==> forall i | 0 <= i < |ms| :: Stores(rows[|old(rows)| + i], ms[i], clock[i])
    {
      if nop {
        return true;
      }
      var newRows, id := rows, nextId;
      for i := 0 to |ms|
        invariant forall j | 0 <= j < i :: ms[j].isMessage
        invariant newRows == Inserted(rows, nextId, ms[..i], clock[..i]) && id == nextId + i
        invariant rows == old(rows) && nextId == old(nextId)
      {
        if !ms[i].isMessage {
          return false;
        }
        newRows, id := newRows + [T.NewRow(id, ms[i], clock[i])], id + 1;
      }
      assert ms[..|ms|] == ms && clock[..|ms|] == clock;
      rows, nextId := newRows, id;
      return true;
    }

    method DeleteMessages(ids: seq<string>)
      modifies this`rows
      ensures rows == T.DeleteMessages(old(rows), ids)
    {
      for i := 0 to |ids|
        invariant rows == T.DeleteMessages(old(rows), ids[..i])
      {
        assert ids[..i + 1][..i] == ids[..i];
        rows := T.DeleteMessage(rows, ids[i]);
      }
      assert ids[..|ids|] == ids;
    }

    method ExpireMessages(topics: seq<string>, clock: seq<int>)
      requires |topics| == |clock|
      modifies this`rows
      ensures rows == ExpiredTopics(old(rows), topics, clock)
    {
      for i := 0 to |topics|
        invariant rows == ExpiredTopics(old(rows), topics[..i], clock[..i])
      {
        assert topics[..i + 1][..i] == topics[..i] && clock[..i + 1][..i] == clock[..i];
        rows := T.ExpireTopic(rows, topics[i], clock[i] - 1);
      }
      assert topics[..|topics|] == topics && clock[..|topics|] == clock;
    }

    /** pruneMessages without interference: what is published and expired goes, all else stays. */
    method PruneMessages(now: int)
      requires T.UniqueMids(rows)
      modifies this`rows
      ensures forall r :: r in rows <==> r in old(rows) && !(r.published && r.expires <= now)
    {
      var ids := T.Expired(rows, now);
      forall mid ensures mid in ids <==> exists r :: r in rows && r.mid == mid && r.expires <= now && r.published {
        T.ExpiredMembers(rows, now, mid);
      }
      forall r, q | r in rows && q in rows && r.mid == q.mid ensures r == q {
        T.SameMidSameRow(rows, r, q);
      }
      if |ids| > 0 {
        DeleteMessages(ids);
      }
    }

    /** sendDelayedMessage: one step of Delivery, from any state in which the message is next. */
    method SendDelayedMessage(m: T.Row, ghost s: D.State)
      requires s.rows == rows && s.sweep != [] && s.sweep[0] == m
      modifies this`rows
      ensures D.Apply(s, D.SendNext(true)) == s.(rows := rows, sweep := s.sweep[1..], handed := s.handed + [m.mid])
    {
      rows := T.MarkPublished(rows, m.mid);
    }

    /** sendDelayedMessages without interference: a sweep of Delivery from start to end. */
    method SendDelayedMessages(now: int, users: set<string>, ghost s: D.State)
      returns (handed: seq<string>, ghost steps: seq<D.Step>)
      requires s.rows == rows && s.now == now && s.sweep == []
      modifies this`rows
      ensures D.Valid(s, steps)
      ensures D.Exec(s, steps) == s.(rows := rows, handed := s.handed + handed)
      ensures var due := T.Due(old(rows), now);
        forall mid :: mid in handed <==> exists i :: 0 <= i < |due| && due[i].mid == mid && Reachable(due[i], users)
    {
      var due := T.Due(rows, now);
      handed := [];
      steps := [D.BeginSweep];
      assert steps[..0] == [] && D.Valid(s, []) && D.Exec(s, []) == s;
      for i := 0 to |due|
        invariant D.Valid(s, steps)
        invariant D.Exec(s, steps) == s.(sweep := due[i..], rows := rows, handed := s.handed + handed)
        invariant forall mid :: mid in handed <==> exists j :: 0 <= j < i && due[j].mid == mid && Reachable(due[j], users)
      {
        var found := due[i].user == "" || due[i].user in users;
        ghost var step := D.SendNext(found);
        ghost var before := D.Exec(s, steps);
        assert (steps + [step])[..|steps|] == steps;
        steps := steps + [step];
        assert before.sweep[1..] == due[i + 1..];
        if found {
          assert s.handed + handed + [due[i].mid] == s.handed + (handed + [due[i].mid]);
          handed := handed + [due[i].mid];
          SendDelayedMessage(due[i], before);
        }
      }
      assert due[|due|..] == [];
    }

    /** Queue the message if there is a queue, otherwise store it. */
    method AddMessage(m: T.Message, now: int) returns (ok: bool)
      modifies this
      ensures ok <==> queued || nop || m.isMessage
      ensures queue == if queued then old(queue) + [m] else old(queue)
      ensures if !queued && !nop && m.isMessage then
                rows == old(rows) + [T.NewRow(old(nextId), m, now)] && nextId == old(nextId) + 1
              else rows == old(rows) && nextId == old(nextId)
    {
      if queued {
        queue := queue + [m];
        return true;
      }
      assert [m][0] == m;
      ok := AddMessages([m], [now]);
      assert Inserted(old(rows), old(nextId), [m], [now]) == old(rows) + [T.NewRow(old(nextId), m, now)];
    }

    /** The end of handlePublishInternal: decide, hand over, then store or queue. */
    method HandlePublish(m: T.Message, cache: bool, decided: int, stored: int, ghost s: D.State)
      returns (handed: bool, ok: bool, ghost steps: seq<D.Step>)
      requires s.rows == rows && s.nextId == nextId && s.now == decided <= stored && m.id !in s.used && m.id !in s.pending
      modifies this
      ensures handed <==> m.time <= decided
      ensures ok <==> !cache || queued || nop || m.isMessage
      ensures queue == if cache && queued then old(queue) + [m] else old(queue)
      ensures D.Valid(s, steps)
      ensures D.Exec(s, steps) == s.(now := stored, used := s.used + {m.id}, rows := rows, nextId := nextId,
                                     handed := if handed then s.handed + [m.id] else s.handed,
                                     pending := if cache && queued then s.pending[m.id := D.Pending(m, decided)] else s.pending)
    {
      handed, ok := false, true;
      var delayed := m.time > decided;
      if !delayed {
        handed := true;
      }
      PublishRun(s, m, cache && queued, stored);
      steps := [] + [D.Publish(m, cache && queued)] + [D.Tick(stored)];
      if cache {
        ok := AddMessage(m, stored);
        if !queued && !nop && m.isMessage {
          StoreAfterPublish(s, m, stored);
          steps := [] + [D.Publish(m, true)] + [D.Tick(stored)] + [D.Store(m.id, stored)];
        }
      }
    }

    /** A batch taken from the queue, with the clock readings of its messages, is stored by Store
        steps in order. */
    method StoreBatch(ms: seq<T.Message>, clock: seq<int>, ghost s: D.State) returns (ghost steps: seq<D.Step>)
      requires s.rows == rows && s.nextId == nextId && Storable(s, ms, clock) && !nop
      requires forall i | 0 <= i < |ms| :: ms[i].isMessage
      modifies this`rows, this`nextId
      ensures D.Valid(s, steps)
      ensures D.Exec(s, steps) == s.(rows := rows, nextId := nextId,
                                     pending := map id | id in s.pending && !SameId(ms, id) :: s.pending[id])
    {
      var _ := AddMessages(ms, clock);
      steps := StoreRun(s, ms, clock);
    }
  }

  /** The messages are pending, none twice, and each reading lies between decision and now. */
  ghost predicate Storable(s: D.State, ms: seq<T.Message>, clock: seq<int>)
  {
    && |ms| == |clock|
    && (forall i, j | 0 <= i < j < |ms| :: ms[i].id != ms[j].id)
    && forall i | 0 <= i < |ms| ::
         ms[i].id in s.pending && s.pending[ms[i].id].message == ms[i] && s.pending[ms[i].id].decided <= clock[i] <= s.now
  }

  ghost predicate SameId(ms: seq<T.Message>, id: string)
  {
    exists i :: 0 <= i < |ms| && ms[i].id == id
  }

  /** `t` is `s` after the messages have been stored. */
  ghost predicate StoredAll(s: D.State, t: D.State, ms: seq<T.Message>, clock: seq<int>)
    requires |ms| == |clock|
  {
    && t.rows == Inserted(s.rows, s.nextId, ms, clock) && t.nextId == s.nextId + |ms|
    && t == s.(rows := t.rows, nextId := t.nextId, pending := t.pending)
    && t.pending == map id | id in s.pending && !SameId(ms, id) :: s.pending[id]
  }

  lemma StoreOneMore(s: D.State, t: D.State, ms: seq<T.Message>, clock: seq<int>)
    requires Storable(s, ms, clock) && ms != [] && StoredAll(s, t, ms[..|ms| - 1], clock[..|ms| - 1])
    ensures var n := |ms| - 1;
      D.Enabled(t, D.Store(ms[n].id, clock[n])) && StoredAll(s, D.Apply(t, D.Store(ms[n].id, clock[n])), ms, clock)
  {
    var n := |ms| - 1;
    InsertedSnoc(s.rows, s.nextId, ms, clock);
    forall id ensures SameId(ms, id) <==> SameId(ms[..n], id) || id == ms[n].id {
      if SameId(ms[..n], id) {
        var i :| 0 <= i < n && ms[..n][i].id == id;
        assert ms[i].id == id;
      }
      if SameId(ms, id) {
        var i :| 0 <= i < |ms| && ms[i].id == id;
        assert i < n ==> ms[..n][i].id == id;
      }
    }
  }

  /** Storing pending messages one after the other. */
  lemma {:induction false} StoreRun(s: D.State, ms: seq<T.Message>, clock: seq<int>) returns (steps: seq<D.Step>)
    requires Storable(s, ms, clock)
    ensures D.Valid(s, steps) && StoredAll(s, D.Exec(s, steps), ms, clock)
  {
    if ms == [] {
      steps := [];
      assert (map id | id in s.pending && !SameId(ms, id) :: s.pending[id]) == s.pending;
    } else {
      var n := |ms| - 1;
      var init := StoreRun(s, ms[..n], clock[..n]);
      StoreOneMore(s, D.Exec(s, init), ms, clock);
      D.ExecSnoc(s, init, D.Store(ms[n].id, clock[n]));
      steps := init + [D.Store(ms[n].id, clock[n])];
    }
  }

  lemma InsertedSnoc(rows: seq<T.Row>, nextId: nat, ms: seq<T.Message>, clock: seq<int>)
    requires |ms| == |clock| > 0
    ensures var n := |ms| - 1;
      Inserted(rows, nextId, ms, clock) == Inserted(rows, nextId, ms[..n], clock[..n]) + [T.NewRow(nextId + n, ms[n], clock[n])]
  {
  }

  /** The sender reaches a message of no user, or of a user that still exists. */
  predicate Reachable(r: T.Row, users: set<string>)
  {
    r.user == "" || r.user in users
  }

  /** The state after a message has been published and, if kept, awaits storing. */
  ghost function Published(s: D.State, m: T.Message, kept: bool, stored: int): D.State
  {
    s.(now := stored, used := s.used + {m.id}, handed := if m.time > s.now then s.handed else s.handed + [m.id],
       pending := if kept then s.pending[m.id := D.Pending(m, s.now)] else s.pending)
  }

  lemma PublishRun(s: D.State, m: T.Message, kept: bool, stored: int)
    requires m.id !in s.used && s.now <= stored
    ensures var steps := [] + [D.Publish(m, kept)] + [D.Tick(stored)];
      D.Valid(s, steps) && D.Exec(s, steps) == Published(s, m, kept, stored)
  {
    assert D.Valid(s, []) && D.Exec(s, []) == s;
    D.ExecSnoc(s, [], D.Publish(m, kept));
    D.ExecSnoc(s, [] + [D.Publish(m, kept)], D.Tick(stored));
  }

  lemma StoreAfterPublish(s: D.State, m: T.Message, stored: int)
    requires m.id !in s.used && m.id !in s.pending && s.now <= stored
    ensures var steps := [] + [D.Publish(m, true)] + [D.Tick(stored)] + [D.Store(m.id, stored)];
      && D.Valid(s, steps)
      && D.Exec(s, steps) == Published(s, m, false, stored).(rows := s.rows + [T.NewRow(s.nextId, m, stored)],
                                                             nextId := s.nextId + 1)
  {
    PublishRun(s, m, true, stored);
    var p := Published(s, m, true, stored);
    D.ExecSnoc(s, [] + [D.Publish(m, true)] + [D.Tick(stored)], D.Store(m.id, stored));
    assert (map id | id in p.pending && id != m.id :: p.pending[id]) == s.pending;
  }
}
