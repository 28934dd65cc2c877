/**
  The messages table of server/message_cache.go: rows in insertion order, one function per SQL
  statement. Row ids grow with every insertion.
 */
module MessageTable {
  import opened Text

  datatype Message = Message(id: string, isMessage: bool, time: int, expires: int, topic: string, user: string)

  datatype Row = Row(rowid: nat, mid: string, time: int, expires: int, topic: string, user: string, published: bool)

  // ---------- updates ----------

  function NewRow(rowid: nat, m: Message, now: int): Row
  {
    Row(rowid, m.id, m.time, m.expires, m.topic, m.user, m.time <= now)
  }

  function MarkPublished(rows: seq<Row>, mid: string): seq<Row>
  {
    seq(|rows|, i requires 0 <= i < |rows| => if rows[i].mid == mid then rows[i].(published := true) else rows[i])
  }

  function ExpireTopic(rows: seq<Row>, topic: string, at: int): seq<Row>
  {
    seq(|rows|, i requires 0 <= i < |rows| => if rows[i].topic == topic then rows[i].(expires := at) else rows[i])
  }

  function Where(rows: seq<Row>, p: Row -> bool): (r: seq<Row>)
    ensures forall x :: x in r <==> x in rows && p(x)
  {
    if rows == [] then []
    else
      var rest := Where(rows[1..], p);
      assert rows == [rows[0]] + rows[1..];
      if p(rows[0]) then [rows[0]] + rest else rest
  }

  function DeleteMessage(rows: seq<Row>, mid: string): seq<Row>
  {
    Where(rows, (r: Row) => r.mid != mid)
  }

  function DeleteMessages(rows: seq<Row>, mids: seq<string>): (r: seq<Row>)
    ensures forall x :: x in r <==> x in rows && x.mid !in mids
  {
    if mids == [] then rows
    else
      assert mids == mids[..|mids| - 1] + [mids[|mids| - 1]];
      DeleteMessage(DeleteMessages(rows, mids[..|mids| - 1]), mids[|mids| - 1])
  }

  // ---------- queries ----------

  /** ORDER BY time, id */
  predicate Before(a: Row, b: Row)
  {
    a.time < b.time || (a.time == b.time && a.rowid < b.rowid)
  }

  function Place(r: Row, sorted: seq<Row>): seq<Row>
  {
    if sorted == [] || Before(r, sorted[0]) then [r] + sorted else [sorted[0]] + Place(r, sorted[1..])
  }

  function OrderBy(rows: seq<Row>): seq<Row>
  {
    if rows == [] then [] else Place(rows[0], OrderBy(rows[1..]))
  }

  const SINCE_ALL := 0

  function SinceTime(rows: seq<Row>, topic: string, since: int, scheduled: bool): seq<Row>
  {
    OrderBy(Where(rows, (r: Row) => r.topic == topic && r.time >= since && (scheduled || r.published)))
  }

  function RowID(rows: seq<Row>, mid: string): Option<nat>
  {
    if rows == [] then None else if rows[0].mid == mid then Some(rows[0].rowid) else RowID(rows[1..], mid)
  }

  /** An unknown message id falls back to all messages. */
  function SinceID(rows: seq<Row>, topic: string, mid: string, scheduled: bool): seq<Row>
  {
    var id := RowID(rows, mid);
    if id.None? then SinceTime(rows, topic, SINCE_ALL, scheduled)
    else if scheduled then OrderBy(Where(rows, (r: Row) => r.topic == topic && (r.rowid > id.value || !r.published)))
    else OrderBy(Where(rows, (r: Row) => r.topic == topic && r.rowid > id.value && r.published))
  }

  /** ORDER BY time DESC, id DESC LIMIT 1 */
  function Latest(rows: seq<Row>, topic: string): seq<Row>
  {
    var all := OrderBy(Where(rows, (r: Row) => r.topic == topic && r.published));
    if all == [] then [] else [all[|all| - 1]]
  }

  function Due(rows: seq<Row>, now: int): seq<Row>
  {
    OrderBy(Where(rows, (r: Row) => r.time <= now && !r.published))
  }

  function Expired(rows: seq<Row>, now: int): seq<string>
  {
    var found := Where(rows, (r: Row) => r.expires <= now && r.published);
    seq(|found|, i requires 0 <= i < |found| => found[i].mid)
  }

  // ---------- the order ----------

  lemma {:induction false} PlaceContents(r: Row, sorted: seq<Row>)
    ensures multiset(Place(r, sorted)) == multiset(sorted) + multiset{r}
  {
    if sorted != [] && !Before(r, sorted[0]) {
      PlaceContents(r, sorted[1..]);
      assert sorted == [sorted[0]] + sorted[1..];
    }
  }

  /** ORDER BY neither drops nor repeats rows. */
  lemma {:induction false} OrderByContents(rows: seq<Row>)
    ensures multiset(OrderBy(rows)) == multiset(rows)
  {
    if rows != [] {
      OrderByContents(rows[1..]);
      PlaceContents(rows[0], OrderBy(rows[1..]));
      assert rows == [rows[0]] + rows[1..];
    }
  }

  lemma OrderByMembers(rows: seq<Row>)
    ensures |OrderBy(rows)| == |rows| && forall r :: r in OrderBy(rows) <==> r in rows
  {
    OrderByContents(rows);
    forall r ensures r in OrderBy(rows) <==> r in rows {
      assert r in multiset(OrderBy(rows)) <==> r in multiset(rows);
    }
    assert |multiset(OrderBy(rows))| == |multiset(rows)|;
  }

  ghost predicate Sorted(rows: seq<Row>)
  {
    forall i, j | 0 <= i < j < |rows| :: !Before(rows[j], rows[i])
  }

  lemma {:induction false} PlaceSorted(r: Row, sorted: seq<Row>)
    requires Sorted(sorted)
    ensures Sorted(Place(r, sorted))
  {
    if sorted != [] && !Before(r, sorted[0]) {
      PlaceSorted(r, sorted[1..]);
      PlaceContents(r, sorted[1..]);
      forall x | x in Place(r, sorted[1..]) ensures !Before(x, sorted[0]) {
        assert x in multiset(sorted[1..]) + multiset{r};
      }
    }
  }

  lemma {:induction false} OrderBySorted(rows: seq<Row>)
    ensures Sorted(OrderBy(rows))
  {
    if rows != [] {
      OrderBySorted(rows[1..]);
      PlaceSorted(rows[0], OrderBy(rows[1..]));
    }
  }

  /** Rows already in strict order are left alone. */
  lemma {:induction false} OrderByIdentity(rows: seq<Row>)
    requires forall i, j | 0 <= i < j < |rows| :: Before(rows[i], rows[j])
    ensures OrderBy(rows) == rows
  {
    if rows != [] {
      OrderByIdentity(rows[1..]);
      if |rows| > 1 { assert Before(rows[0], rows[1..][0]); }
      assert rows == [rows[0]] + rows[1..];
    }
  }

  /** Due lists exactly the rows that are due, each once. */
  lemma DueMembers(rows: seq<Row>, now: int)
    ensures forall r :: r in Due(rows, now) <==> r in rows && r.time <= now && !r.published
  {
    OrderByMembers(Where(rows, (r: Row) => r.time <= now && !r.published));
  }

  lemma ExpiredMembers(rows: seq<Row>, now: int, mid: string)
    ensures mid in Expired(rows, now) <==> exists r :: r in rows && r.mid == mid && r.expires <= now && r.published
  {
    var found := Where(rows, (r: Row) => r.expires <= now && r.published);
    if r :| r in rows && r.mid == mid && r.expires <= now && r.published {
      assert r in found;
      var i :| 0 <= i < |found| && found[i] == r;
      assert Expired(rows, now)[i] == mid;
    }
    if mid in Expired(rows, now) {
      var i :| 0 <= i < |found| && found[i].mid == mid;
      assert found[i] in found;
    }
  }

  // ---------- unique message ids ----------

  ghost predicate UniqueMids(rows: seq<Row>)
  {
    forall i, j | 0 <= i < j < |rows| :: rows[i].mid != rows[j].mid
  }

  lemma SameMidSameRow(rows: seq<Row>, a: Row, b: Row)
    requires UniqueMids(rows) && a in rows && b in rows && a.mid == b.mid
    ensures a == b
  {
  }

  lemma {:induction false} WhereUnique(rows: seq<Row>, p: Row -> bool)
    requires UniqueMids(rows)
    ensures UniqueMids(Where(rows, p))
  {
    if rows != [] {
      var rest := Where(rows[1..], p);
      WhereUnique(rows[1..], p);
      forall j | 0 <= j < |rest| ensures rest[j].mid != rows[0].mid {
        assert rest[j] in rows[1..];
      }
    }
  }

  lemma {:induction false} DeleteUnique(rows: seq<Row>, mids: seq<string>)
    requires UniqueMids(rows)
    ensures UniqueMids(DeleteMessages(rows, mids))
  {
    if mids != [] {
      var init := mids[..|mids| - 1];
      DeleteUnique(rows, init);
      WhereUnique(DeleteMessages(rows, init), (r: Row) => r.mid != mids[|mids| - 1]);
    }
  }

  lemma {:induction false} PlaceUnique(r: Row, sorted: seq<Row>)
    requires UniqueMids(sorted) && forall x | x in sorted :: x.mid != r.mid
    ensures UniqueMids(Place(r, sorted))
  {
    if sorted != [] && !Before(r, sorted[0]) {
      PlaceUnique(r, sorted[1..]);
      PlaceContents(r, sorted[1..]);
      var tail := Place(r, sorted[1..]);
      forall j | 0 <= j < |tail| ensures tail[j].mid != sorted[0].mid {
        assert tail[j] in multiset(tail);
        assert tail[j] in sorted[1..] || tail[j] == r;
      }
    }
  }

  lemma {:induction false} OrderByUnique(rows: seq<Row>)
    requires UniqueMids(rows)
    ensures UniqueMids(OrderBy(rows))
  {
    if rows != [] {
      OrderByUnique(rows[1..]);
      OrderByMembers(rows[1..]);
      PlaceUnique(rows[0], OrderBy(rows[1..]));
    }
  }

  // ---------- row ids ----------

  /** The rows are in the order of their row ids. */
  ghost predicate Increasing(rows: seq<Row>)
  {
    forall i, j | 0 <= i < j < |rows| :: rows[i].rowid < rows[j].rowid
  }

  lemma {:induction false} WhereIncreasing(rows: seq<Row>, p: Row -> bool)
    requires Increasing(rows)
    ensures Increasing(Where(rows, p))
  {
    if rows != [] {
      var head, w := rows[0], Where(rows[1..], p);
      WhereIncreasing(rows[1..], p);
      forall x | x in w ensures head.rowid < x.rowid {
        assert x in rows[1..];
      }
    }
  }

  lemma {:induction false} DeleteIncreasing(rows: seq<Row>, mids: seq<string>)
    requires Increasing(rows)
    ensures Increasing(DeleteMessages(rows, mids))
  {
    if mids != [] {
      var init := mids[..|mids| - 1];
      DeleteIncreasing(rows, init);
      WhereIncreasing(DeleteMessages(rows, init), (r: Row) => r.mid != mids[|mids| - 1]);
    }
  }

  // ---------- polls compared ----------

  /** The latest message is the last one of a poll for all messages, when no time is negative. */
  lemma LatestIsLast(rows: seq<Row>, topic: string)
    requires forall r | r in rows :: r.time >= SINCE_ALL
    ensures var all := SinceTime(rows, topic, SINCE_ALL, false);
      Latest(rows, topic) == if all == [] then [] else [all[|all| - 1]]
  {
    WhereSame(rows, (r: Row) => r.topic == topic && r.published,
              (r: Row) => r.topic == topic && r.time >= SINCE_ALL && (false || r.published));
  }

  lemma {:induction false} WhereSame(rows: seq<Row>, p: Row -> bool, q: Row -> bool)
    requires forall r | r in rows :: p(r) == q(r)
    ensures Where(rows, p) == Where(rows, q)
  {
    if rows != [] { WhereSame(rows[1..], p, q); }
  }

  // ---------- what a poll returns ----------

  /** `result` lists the rows that satisfy `p`, each as often as the table does, by time and id. */
  ghost predicate Lists(result: seq<Row>, rows: seq<Row>, p: Row -> bool)
  {
    && (forall r :: multiset(result)[r] == if p(r) then multiset(rows)[r] else 0)
    && (forall r :: r in result <==> r in rows && p(r))
    && Sorted(result)
  }

  lemma {:induction false} WhereCounts(rows: seq<Row>, p: Row -> bool, r: Row)
    ensures multiset(Where(rows, p))[r] == if p(r) then multiset(rows)[r] else 0
  {
    if rows != [] {
      WhereCounts(rows[1..], p, r);
      assert rows == [rows[0]] + rows[1..];
    }
  }

  lemma OrderedWhere(rows: seq<Row>, p: Row -> bool, q: Row -> bool)
    requires forall r: Row :: p(r) == q(r)
    ensures Lists(OrderBy(Where(rows, p)), rows, q)
  {
    var found := Where(rows, p);
    OrderByContents(found);
    OrderByMembers(found);
    OrderBySorted(found);
    forall r ensures multiset(OrderBy(found))[r] == if q(r) then multiset(rows)[r] else 0 {
      WhereCounts(rows, p, r);
    }
  }

  /** A poll by time returns the rows of the topic from that time on, the unpublished ones only if asked
      for, in order of time and id. */
  lemma SinceTimeExact(rows: seq<Row>, topic: string, since: int, scheduled: bool)
    ensures Lists(SinceTime(rows, topic, since, scheduled), rows,
                  (r: Row) => r.topic == topic && r.time >= since && (r.published || scheduled))
  {
    OrderedWhere(rows, (r: Row) => r.topic == topic && r.time >= since && (scheduled || r.published),
                 (r: Row) => r.topic == topic && r.time >= since && (r.published || scheduled));
  }

  lemma {:induction false} RowIDExact(rows: seq<Row>, mid: string)
    ensures RowID(rows, mid).Some? <==> exists r :: r in rows && r.mid == mid
    ensures RowID(rows, mid).Some? ==> exists r :: r in rows && r.mid == mid && r.rowid == RowID(rows, mid).value
  {
    if rows != [] {
      if rows[0].mid == mid {
        assert rows[0] in rows;
      } else {
        RowIDExact(rows[1..], mid);
        assert rows == [rows[0]] + rows[1..];
      }
    }
  }

  /** A poll by the id of a known message returns the rows of the topic with a higher row id, or, if
      scheduled messages are asked for, also the unpublished ones with a lower; a poll by an unknown id
      is a poll for everything. */
  lemma SinceIDExact(rows: seq<Row>, topic: string, mid: string, scheduled: bool, last: Row)
    ensures (forall r | r in rows :: r.mid != mid) ==>
      SinceID(rows, topic, mid, scheduled) == SinceTime(rows, topic, SINCE_ALL, scheduled)
    ensures UniqueMids(rows) && last in rows && last.mid == mid ==>
      Lists(SinceID(rows, topic, mid, scheduled), rows,
            (r: Row) => r.topic == topic && (if r.published then r.rowid > last.rowid else scheduled))
  {
    RowIDExact(rows, mid);
    if UniqueMids(rows) && last in rows && last.mid == mid { KnownIDExact(rows, topic, scheduled, last); }
  }

  lemma KnownIDExact(rows: seq<Row>, topic: string, scheduled: bool, last: Row)
    requires UniqueMids(rows) && last in rows
    ensures Lists(SinceID(rows, topic, last.mid, scheduled), rows,
                  (r: Row) => r.topic == topic && (if r.published then r.rowid > last.rowid else scheduled))
  {
    RowIDExact(rows, last.mid);
    var id := RowID(rows, last.mid);
    var r :| r in rows && r.mid == last.mid && r.rowid == id.value;
    SameMidSameRow(rows, r, last);
    if scheduled {
      OrderedWhere(rows, (r: Row) => r.topic == topic && (r.rowid > id.value || !r.published),
                   (r: Row) => r.topic == topic && (if r.published then r.rowid > last.rowid else scheduled));
    } else {
      OrderedWhere(rows, (r: Row) => r.topic == topic && r.rowid > id.value && r.published,
                   (r: Row) => r.topic == topic && (if r.published then r.rowid > last.rowid else scheduled));
    }
  }


  lemma SinceTimePublished(rows: seq<Row>, topic: string, since: int, r: Row)
    requires r in SinceTime(rows, topic, since, false)
    ensures r in rows && r.topic == topic && r.published
  {
    OrderByMembers(Where(rows, (r: Row) => r.topic == topic && r.time >= since && (false || r.published)));
  }

  lemma SinceIDPublished(rows: seq<Row>, topic: string, mid: string, r: Row)
    requires r in SinceID(rows, topic, mid, false)
    ensures r in rows && r.topic == topic && r.published
  {
    var id := RowID(rows, mid);
    if id.None? {
      SinceTimePublished(rows, topic, SINCE_ALL, r);
    } else {
      OrderByMembers(Where(rows, (r: Row) => r.topic == topic && r.rowid > id.value && r.published));
    }
  }

  lemma LatestPublished(rows: seq<Row>, topic: string, r: Row)
    requires r in Latest(rows, topic)
    ensures r in rows && r.topic == topic && r.published
  {
    OrderByMembers(Where(rows, (r: Row) => r.topic == topic && r.published));
    var all := OrderBy(Where(rows, (r: Row) => r.topic == topic && r.published));
    assert r == all[|all| - 1];
  }

  /** Including scheduled messages adds the unpublished ones and nothing else. */
  lemma ScheduledAddsUnpublished(rows: seq<Row>, topic: string, since: int, mid: string, r: Row)
    ensures r in SinceTime(rows, topic, since, true) <==>
              r in SinceTime(rows, topic, since, false) || (r in rows && r.topic == topic && !r.published && r.time >= since)
    ensures RowID(rows, mid).Some? ==>
              (r in SinceID(rows, topic, mid, true) <==>
                 r in SinceID(rows, topic, mid, false) || (r in rows && r.topic == topic && !r.published))
  {
    OrderByMembers(Where(rows, (r: Row) => r.topic == topic && r.time >= since && (true || r.published)));
    OrderByMembers(Where(rows, (r: Row) => r.topic == topic && r.time >= since && (false || r.published)));
    var id := RowID(rows, mid);
    if id.Some? {
      OrderByMembers(Where(rows, (r: Row) => r.topic == topic && (r.rowid > id.value || !r.published)));
      OrderByMembers(Where(rows, (r: Row) => r.topic == topic && r.rowid > id.value && r.published));
    }
  }
}
