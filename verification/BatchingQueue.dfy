/**
  util.BatchingQueue. The first part is the queue as it runs: a buffer that is appended to, copied
  out and truncated in place. The second part interleaves callers, the timer and the receiver of the
  channel; a batch is formed under the lock but sent after it is released.
 */
module BatchingQueue {
  import opened Text

  // ---------- one queue, under its lock ----------

  /** The contents of the buffer, the batches formed so far and everything enqueued, in lock order. */
  datatype Queue<T> = Queue(batchSize: int, pending: seq<T>, formed: seq<seq<T>>, enqueued: seq<T>)

  function WithBatch<T>(q: Queue<T>): Queue<T>
  {
    if q.pending == [] then q else q.(pending := [], formed := q.formed + [q.pending])
  }

  function WithElement<T>(q: Queue<T>, x: T): Queue<T>
  {
    var r := q.(pending := q.pending + [x], enqueued := q.enqueued + [x]);
    if |r.pending| == r.batchSize then WithBatch(r) else r
  }

  /** Batches and buffer are together what was enqueued, in order; no batch is empty or too long, and
      with a batch size the buffer never holds a full batch. */
  ghost predicate QueueOk<T>(q: Queue<T>)
  {
    && Flatten(q.formed) + q.pending == q.enqueued
    && (forall i | 0 <= i < |q.formed| :: q.formed[i] != [] && (q.batchSize >= 1 ==> |q.formed[i]| <= q.batchSize))
    && (q.batchSize >= 1 ==> |q.pending| < q.batchSize)
  }

  lemma WithBatchOk<T>(q: Queue<T>)
    requires Flatten(q.formed) + q.pending == q.enqueued
    requires forall i | 0 <= i < |q.formed| :: q.formed[i] != [] && (q.batchSize >= 1 ==> |q.formed[i]| <= q.batchSize)
    requires q.batchSize >= 1 ==> |q.pending| <= q.batchSize
    ensures QueueOk(WithBatch(q)) && WithBatch(q).pending == []
  {
    FlattenSnoc(q.formed, q.pending);
  }

  lemma WithElementOk<T>(q: Queue<T>, x: T)
    requires QueueOk(q)
    ensures QueueOk(WithElement(q, x))
  {
    var r := q.(pending := q.pending + [x], enqueued := q.enqueued + [x]);
    assert Flatten(q.formed) + (q.pending + [x]) == q.enqueued + [x];
    if |r.pending| == r.batchSize { WithBatchOk(r); }
  }

  /** The queue in memory: a backing array of which `len` elements are in use. Emitted batches are
      arrays of their own. */
  class Batcher<T(0)> {
    const batchSize: int
    var buffer: array<T>
    var len: nat
    ghost var queue: Queue<T>
    ghost var emitted: seq<array<T>>

    ghost predicate Valid()
      reads this, buffer, emitted
    {
      && len <= buffer.Length
      && queue.batchSize == batchSize && queue.pending == buffer[..len] && QueueOk(queue)
      && |emitted| == |queue.formed|
      && forall i | 0 <= i < |emitted| :: emitted[i] != buffer && emitted[i][..] == queue.formed[i]
    }

    constructor (batchSize: int)
      ensures Valid() && queue == Queue(batchSize, [], [], []) && emitted == [] && fresh(buffer)
    {
      this.batchSize := batchSize;
      buffer := new T[0];
      len := 0;
      queue := Queue(batchSize, [], [], []);
      emitted := [];
    }

    /** append: in place while there is room, otherwise into a larger array of the runtime's choice. */
    method Append(x: T, spare: nat)
      requires len <= buffer.Length
      modifies this`buffer, this`len, buffer
      ensures len == old(len) + 1 <= buffer.Length && buffer[..len] == old(buffer[..len]) + [x]
      ensures buffer == old(buffer) || fresh(buffer)
    {
      if len == buffer.Length {
        var bigger := new T[len + 1 + spare];
        forall i | 0 <= i < len {
          bigger[i] := buffer[i];
        }
        buffer := bigger;
      }
      buffer[len] := x;
      len := len + 1;
    }

    /** dequeueAll: copy the elements out, keep the backing array for reuse. */
    method TakeAll() returns (elements: array<T>)
      requires len <= buffer.Length
      modifies this`len
      ensures len == 0 && fresh(elements) && elements[..] == old(buffer[..len])
    {
      elements := new T[len];
      forall i | 0 <= i < len {
        elements[i] := buffer[i];
      }
      len := 0;
    }

    /** The locked part of Enqueue; `batch` goes to the channel if it is not empty. Batches emitted
        before keep their contents although the buffer is written to. */
    method Enqueue(x: T, spare: nat) returns (batch: array?<T>)
      requires Valid()
      modifies this, buffer
      ensures Valid() && queue == WithElement(old(queue), x)
      ensures buffer == old(buffer) || fresh(buffer)
      ensures if batch == null then emitted == old(emitted) else fresh(batch) && emitted == old(emitted) + [batch]
    {
      WithElementOk(queue, x);
      ghost var next := queue.(pending := queue.pending + [x], enqueued := queue.enqueued + [x]);
      Append(x, spare);
      batch := null;
      if len == batchSize {
        var elements := TakeAll();
        batch := elements;
        queue, emitted := WithBatch(next), emitted + [elements];
      } else {
        queue := next;
      }
    }

    /** One tick of timeoutTicker; an empty batch is not sent. */
    method Tick() returns (batch: array?<T>)
      requires Valid()
      modifies this
      ensures Valid() && queue == WithBatch(old(queue)) && buffer == old(buffer)
      ensures if batch == null then emitted == old(emitted) else fresh(batch) && emitted == old(emitted) + [batch]
    {
      WithBatchOk(queue);
      var elements := TakeAll();
      batch := null;
      if elements.Length > 0 {
        batch := elements;
        queue, emitted := WithBatch(queue), emitted + [elements];
      }
    }
  }

  // ---------- callers, timer and receiver ----------

  /** Formed batches wait, in no particular order, until the receiver takes them. */
  datatype System<T(==)> = System(queue: Queue<T>, waiting: multiset<seq<T>>, received: seq<seq<T>>)

  datatype Event<T> = Call(x: T) | Tick | Receive(batch: seq<T>)

  predicate Possible<T(==)>(s: System<T>, e: Event<T>)
  {
    e.Receive? ==> e.batch in s.waiting
  }

  function Step<T(==)>(s: System<T>, e: Event<T>): System<T>
  {
    match e
    case Call(x) =>
      var q := WithElement(s.queue, x);
      System(q, s.waiting + multiset(q.formed[|s.queue.formed|..]), s.received)
    case Tick =>
      var q := WithBatch(s.queue);
      System(q, s.waiting + multiset(q.formed[|s.queue.formed|..]), s.received)
    case Receive(b) => s.(waiting := s.waiting - multiset{b}, received := s.received + [b])
  }

  function Init<T(==)>(batchSize: int): System<T>
  {
    System(Queue(batchSize, [], [], []), multiset{}, [])
  }

  ghost predicate Valid<T>(s: System<T>, events: seq<Event<T>>)
    decreases |events|
  {
    events == [] || (Possible(s, events[0]) && Valid(Step(s, events[0]), events[1..]))
  }

  function Run<T(==)>(s: System<T>, events: seq<Event<T>>): System<T>
    decreases |events|
  {
    if events == [] then s else Run(Step(s, events[0]), events[1..])
  }

  function Called<T>(e: Event<T>): seq<T>
  {
    if e.Call? then [e.x] else []
  }

  function Calls<T>(events: seq<Event<T>>): seq<T>
  {
    if events == [] then [] else Called(events[0]) + Calls(events[1..])
  }

  ghost predicate SystemOk<T>(s: System<T>)
  {
    QueueOk(s.queue) && multiset(s.queue.formed) == s.waiting + multiset(s.received)
  }

  /** New batches are added after the old ones and start waiting. */
  lemma NewBatchesWait<T>(s: System<T>, q: Queue<T>, added: seq<seq<T>>)
    requires SystemOk(s) && QueueOk(q) && q.formed == s.queue.formed + added
    ensures SystemOk(System(q, s.waiting + multiset(q.formed[|s.queue.formed|..]), s.received))
  {
  }

  lemma CallOk<T>(s: System<T>, x: T)
    requires SystemOk(s)
    ensures SystemOk(Step(s, Call(x)))
  {
    var q := WithElement(s.queue, x);
    WithElementOk(s.queue, x);
    NewBatchesWait(s, q, if |s.queue.pending| + 1 == s.queue.batchSize then [s.queue.pending + [x]] else []);
  }

  lemma TickOk<T>(s: System<T>)
    requires SystemOk(s)
    ensures SystemOk(Step(s, Tick))
  {
    WithBatchOk(s.queue);
    NewBatchesWait(s, WithBatch(s.queue), if s.queue.pending == [] then [] else [s.queue.pending]);
  }

  lemma ReceiveOk<T>(s: System<T>, b: seq<T>)
    requires SystemOk(s) && b in s.waiting
    ensures SystemOk(Step(s, Receive(b)))
  {
    var t := Step(s, Receive(b));
    assert multiset(t.received) == multiset(s.received) + multiset{b};
    assert s.waiting == t.waiting + multiset{b};
  }

  lemma StepOk<T>(s: System<T>, e: Event<T>)
    requires SystemOk(s) && Possible(s, e)
    ensures SystemOk(Step(s, e))
  {
    match e
    case Call(x) => CallOk(s, x);
    case Tick => TickOk(s);
    case Receive(b) => ReceiveOk(s, b);
  }

  lemma StepCounts<T>(s: System<T>, e: Event<T>)
    ensures Step(s, e).queue.enqueued == s.queue.enqueued + Called(e)
    ensures Step(s, e).queue.batchSize == s.queue.batchSize
  {
    match e
    case Call(x) =>
    case Tick => assert s.queue.enqueued + [] == s.queue.enqueued;
    case Receive(b) => assert s.queue.enqueued + [] == s.queue.enqueued;
  }

  /** Elements are enqueued in the order of the calls, and the batch size never changes. */
  lemma {:induction false} RunCounts<T>(s: System<T>, events: seq<Event<T>>)
    ensures Run(s, events).queue.enqueued == s.queue.enqueued + Calls(events)
    ensures Run(s, events).queue.batchSize == s.queue.batchSize
    decreases |events|
  {
    if events != [] {
      var t, rest := Step(s, events[0]), events[1..];
      StepCounts(s, events[0]);
      RunCounts(t, rest);
      ConcatAssociative(s.queue.enqueued, Called(events[0]), Calls(rest));
    } else {
      assert s.queue.enqueued + [] == s.queue.enqueued;
    }
  }

  lemma {:induction false} RunOk<T>(s: System<T>, events: seq<Event<T>>)
    requires SystemOk(s) && Valid(s, events)
    ensures SystemOk(Run(s, events))
    decreases |events|
  {
    if events != [] {
      StepOk(s, events[0]);
      RunOk(Step(s, events[0]), events[1..]);
    }
  }

  lemma {:induction false} FlattenRemove<T>(parts: seq<seq<T>>, i: nat)
    requires i < |parts|
    ensures multiset(Flatten(parts)) == multiset(parts[i]) + multiset(Flatten(parts[..i] + parts[i + 1..]))
  {
    FlattenAppend(parts[..i], parts[i..]);
    FlattenAppend(parts[..i], parts[i + 1..]);
    assert parts == parts[..i] + parts[i..];
    assert parts[i..][1..] == parts[i + 1..];
  }

  lemma MultisetRemove<T>(parts: seq<seq<T>>, i: nat)
    requires i < |parts|
    ensures multiset(parts) == multiset{parts[i]} + multiset(parts[..i] + parts[i + 1..])
  {
    assert parts == parts[..i] + [parts[i]] + parts[i + 1..];
  }

  lemma MultisetCancel<T>(x: T, a: multiset<T>, b: multiset<T>)
    requires multiset{x} + a == multiset{x} + b
    ensures a == b
  {
    assert a == (multiset{x} + a) - multiset{x};
    assert b == (multiset{x} + b) - multiset{x};
  }

  /** Flattening forgets the order of the parts but no element. */
  lemma {:induction false} FlattenPermuted<T>(a: seq<seq<T>>, b: seq<seq<T>>)
    requires multiset(a) == multiset(b)
    ensures multiset(Flatten(a)) == multiset(Flatten(b))
    decreases |a|
  {
    if a == [] {
      assert |multiset(b)| == |b|;
    } else {
      assert a[0] in multiset(b);
      var i :| 0 <= i < |b| && b[i] == a[0];
      var rest := b[..i] + b[i + 1..];
      FlattenRemove(b, i);
      MultisetRemove(b, i);
      MultisetRemove(a, 0);
      assert a[..0] + a[1..] == a[1..];
      MultisetCancel(a[0], multiset(a[1..]), multiset(rest));
      FlattenPermuted(a[1..], rest);
    }
  }

  /** Over every interleaving: the batches in the order they were formed, followed by the buffer, are
      the enqueued elements in lock order; no batch is too long; and once nothing waits for the
      receiver, the receiver has every element exactly once, except those still buffered. */
  lemma NothingLostOrDuplicated<T>(batchSize: int, events: seq<Event<T>>)
    requires Valid(Init(batchSize), events)
    ensures var s := Run(Init(batchSize), events);
      && Flatten(s.queue.formed) + s.queue.pending == Calls(events)
      && multiset(s.queue.formed) == s.waiting + multiset(s.received)
      && (batchSize >= 1 ==> forall b | b in s.received :: 1 <= |b| <= batchSize)
      && (s.waiting == multiset{} ==> multiset(Flatten(s.received)) + multiset(s.queue.pending) == multiset(Calls(events)))
  {
    RunOk(Init(batchSize), events);
    RunCounts(Init<T>(batchSize), events);
    assert [] + Calls(events) == Calls(events);
    var s := Run(Init(batchSize), events);
    forall b | b in s.received && batchSize >= 1 ensures 1 <= |b| <= batchSize {
      assert b in multiset(s.queue.formed);
    }
    if s.waiting == multiset{} { FlattenPermuted(s.queue.formed, s.received); }
  }
}
