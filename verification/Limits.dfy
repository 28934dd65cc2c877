/**
  util/limit.go: fixed limiters, rate limiters and the writer that charges all of them or none of
  the fixed ones. Whether a rate limiter has tokens is given from outside.
 */
module Limits {

  datatype Kind = Fixed(limit: int) | Rate

  /** Would the limiter let `n` more bytes pass? */
  predicate Admits(kind: Kind, value: int, n: int, tokens: bool)
  {
    match kind
    case Fixed(limit) => value + n <= limit
    case Rate => n > 0 && tokens
  }

  class Limiter {
    const kind: Kind
    var value: int

    constructor (kind: Kind, value: int)
      ensures this.kind == kind && this.value == value
    {
      this.kind, this.value := kind, value;
    }

    method AllowN(n: int, tokens: bool) returns (ok: bool)
      modifies this`value
      ensures ok <==> Admits(kind, old(value), n, tokens)
      ensures value == if ok then old(value) + n else old(value)
    {
      match kind {
        case Fixed(limit) =>
          if value + n > limit {
            return false;
          }
        case Rate =>
          if n <= 0 {
            return false;
          }
          if !tokens {
            return false;
          }
      }
      value := value + n;
      return true;
    }
  }

  // ---------- a write, as a function of the limiters ----------

  datatype Level = Level(kind: Kind, value: int)

  /** The first limiter that refuses, or the number of limiters. */
  function FirstRefusal(levels: seq<Level>, n: nat, tokens: seq<bool>, from: nat): (k: nat)
    requires |tokens| == |levels| && from <= |levels|
    ensures from <= k <= |levels|
    ensures forall i | from <= i < k :: Admits(levels[i].kind, levels[i].value, n, tokens[i])
    ensures k < |levels| ==> !Admits(levels[k].kind, levels[k].value, n, tokens[k])
    decreases |levels| - from
  {
    if from == |levels| || !Admits(levels[from].kind, levels[from].value, n, tokens[from]) then from
    else FirstRefusal(levels, n, tokens, from + 1)
  }

  predicate Passes(levels: seq<Level>, n: nat, tokens: seq<bool>)
    requires |tokens| == |levels|
  {
    forall i | 0 <= i < |levels| :: Admits(levels[i].kind, levels[i].value, n, tokens[i])
  }

  /** Levels after a write of `n` bytes: all charged if it passes; otherwise only rate limiters ahead
      of the refusing one stay charged, since they cannot be reverted. */
  function Charged(levels: seq<Level>, n: nat, tokens: seq<bool>): seq<Level>
    requires |tokens| == |levels|
  {
    var k := FirstRefusal(levels, n, tokens, 0);
    seq(|levels|, i requires 0 <= i < |levels| =>
      if k == |levels| || (i < k && levels[i].kind.Rate?) then levels[i].(value := levels[i].value + n) else levels[i])
  }

  lemma PassesIffNoRefusal(levels: seq<Level>, n: nat, tokens: seq<bool>)
    requires |tokens| == |levels|
    ensures Passes(levels, n, tokens) <==> FirstRefusal(levels, n, tokens, 0) == |levels|
  {
  }

  lemma ChargedLevels(levels: seq<Level>, n: nat, tokens: seq<bool>, after: seq<Level>)
    requires |tokens| == |levels| == |after|
    requires var k := FirstRefusal(levels, n, tokens, 0);
      forall i | 0 <= i < |levels| ::
        && after[i].kind == levels[i].kind
        && var charged := k == |levels| || (i < k && levels[i].kind.Rate?);
           after[i].value == levels[i].value + if charged then n else 0
    ensures after == Charged(levels, n, tokens)
  {
  }

  class LimitWriter {
    const limiters: seq<Limiter>
    var written: nat

    ghost predicate Valid()
      reads this
    {
      forall i, j | 0 <= i < j < |limiters| :: limiters[i] != limiters[j]
    }

    ghost function Levels(): (r: seq<Level>)
      reads this, limiters
      ensures |r| == |limiters|
    {
      seq(|limiters|, i requires 0 <= i < |limiters| reads limiters => Level(limiters[i].kind, limiters[i].value))
    }

    constructor (limiters: seq<Limiter>)
      requires forall i, j | 0 <= i < j < |limiters| :: limiters[i] != limiters[j]
      ensures Valid() && this.limiters == limiters && written == 0
    {
      this.limiters, written := limiters, 0;
    }

    /** Undo the charges of the limiters before `i`, last one first; a rate limiter ignores it. */
    method Revert(i: nat, n: nat)
      requires Valid() && i <= |limiters|
      requires forall j | 0 <= j < i && limiters[j].kind.Fixed? :: limiters[j].value <= limiters[j].kind.limit
      modifies limiters`value
      ensures forall j | 0 <= j < |limiters| ::
        limiters[j].value == old(limiters[j].value) - if j < i && limiters[j].kind.Fixed? then n else 0
    {
      var j := i - 1;
      while j >= 0
        invariant -1 <= j < i
        invariant forall k | 0 <= k < |limiters| ::
          limiters[k].value == old(limiters[k].value) - if j < k < i && limiters[k].kind.Fixed? then n else 0
      {
        var _ := limiters[j].AllowN(0 - n, true);
        j := j - 1;
      }
    }

    /** Charge the limiters one after the other; at the first refusal, revert. */
    method Charge(n: nat, tokens: seq<bool>, ghost levels: seq<Level>) returns (ok: bool)
      requires Valid() && |tokens| == |limiters| && levels == Levels()
      modifies limiters`value
      ensures ok <==> FirstRefusal(levels, n, tokens, 0) == |limiters|
      ensures forall k | 0 <= k < |limiters| ::
        var charged := ok || (k < FirstRefusal(levels, n, tokens, 0) && limiters[k].kind.Rate?);
        limiters[k].value == levels[k].value + if charged then n else 0
    {
      for i := 0 to |limiters|
        invariant forall k | 0 <= k < |limiters| ::
          limiters[k].value == levels[k].value + if k < i then n else 0
        invariant i <= FirstRefusal(levels, n, tokens, 0)
      {
        assert Level(limiters[i].kind, limiters[i].value) == levels[i];
        var allowed := limiters[i].AllowN(n, tokens[i]);
        if !allowed {
          Revert(i, n);
          return false;
        }
      }
      return true;
    }

    /** `accepted` of the `n` bytes are taken by the underlying writer. */
    method Write(n: nat, tokens: seq<bool>, accepted: nat) returns (count: nat, ok: bool)
      requires Valid() && |tokens| == |limiters| && accepted <= n
      modifies this`written, limiters`value
      ensures ok <==> Passes(old(Levels()), n, tokens)
      ensures Levels() == Charged(old(Levels()), n, tokens)
      ensures count == (if ok then accepted else 0) && written == old(written) + count
    {
      ghost var levels := Levels();
      PassesIffNoRefusal(levels, n, tokens);
      ok := Charge(n, tokens, levels);
      ChargedLevels(levels, n, tokens, Levels());
      count := 0;
      if ok {
        count := accepted;
        written := written + accepted;
      }
    }
  }

  // ---------- sequences of writes ----------

  datatype Attempt = Attempt(n: nat, tokens: seq<bool>, accepted: nat)

  /** Levels, bytes let through by the limiters, and bytes taken by the underlying writer. */
  datatype Account = Account(levels: seq<Level>, passed: nat, written: nat)

  function After(a: Account, w: Attempt): Account
    requires |w.tokens| == |a.levels|
  {
    var pass := Passes(a.levels, w.n, w.tokens);
    Account(Charged(a.levels, w.n, w.tokens), a.passed + if pass then w.n else 0,
            a.written + if pass then w.accepted else 0)
  }

  predicate Fits(levels: seq<Level>, ws: seq<Attempt>)
  {
    forall i | 0 <= i < |ws| :: |ws[i].tokens| == |levels| && ws[i].accepted <= ws[i].n
  }

  function AfterAll(a: Account, ws: seq<Attempt>): (r: Account)
    requires Fits(a.levels, ws)
    ensures |r.levels| == |a.levels|
  {
    if ws == [] then a else After(AfterAll(a, ws[..|ws| - 1]), ws[|ws| - 1])
  }

  /** How one limiter relates to its level at the start. */
  predicate Tracks(start: Level, now: Level, passed: nat)
  {
    && now.kind == start.kind
    && match start.kind
       case Fixed(limit) => now.value == start.value + passed && (start.value <= limit ==> now.value <= limit)
       case Rate => now.value >= start.value + passed
  }

  lemma ChargedTracks(start: Level, levels: seq<Level>, passed: nat, n: nat, tokens: seq<bool>, i: nat)
    requires i < |levels| && |tokens| == |levels| && Tracks(start, levels[i], passed)
    ensures Tracks(start, Charged(levels, n, tokens)[i], passed + if Passes(levels, n, tokens) then n else 0)
  {
  }

  /** Over every sequence of writes each fixed limiter has grown by exactly the bytes let through and
      never passes its limit, each rate limiter by at least those bytes; and when the underlying
      writer takes every write in full, that is the number of bytes written. */
  lemma {:induction false} LimitersTrackWrites(levels: seq<Level>, ws: seq<Attempt>, i: nat)
    requires Fits(levels, ws) && i < |levels|
    ensures var a := AfterAll(Account(levels, 0, 0), ws);
      && Tracks(levels[i], a.levels[i], a.passed)
      && a.written <= a.passed
      && ((forall j | 0 <= j < |ws| :: ws[j].accepted == ws[j].n) ==> a.written == a.passed)
  {
    if ws != [] {
      var m := |ws| - 1;
      assert forall j | 0 <= j < m :: ws[..m][j] == ws[j];
      LimitersTrackWrites(levels, ws[..m], i);
      var a := AfterAll(Account(levels, 0, 0), ws[..m]);
      ChargedTracks(levels[i], a.levels, a.passed, ws[m].n, ws[m].tokens, i);
    }
  }
}
