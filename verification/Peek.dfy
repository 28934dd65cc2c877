/**
  util/peek.go: reading ahead without losing anything. A reader is a source of bytes, or a peeked
  reader over another reader, to any depth. A source may return fewer bytes than asked for, and may
  report the end together with its last bytes or after them.
 */
module Peek {
  import opened Text

  class ReadCloser {
    var data: seq<bv8>           // of a source: what is still to come; of a peeked reader: what is still buffered
    var underlying: ReadCloser?  // null for a source
    var closed: bool
    const peekedBytes: seq<bv8>
    const limitReached: bool
    ghost const Repr: set<object>

    ghost predicate Valid()
      reads this, Repr
      decreases Repr
    {
      && this in Repr
      && (underlying != null ==>
            && underlying in Repr && underlying.Repr <= Repr && this !in underlying.Repr && underlying.Valid())
    }

    /** What is left to read. */
    ghost function Contents(): seq<bv8>
      requires Valid()
      reads this, Repr
      decreases Repr
    {
      if closed then [] else data + if underlying == null then [] else underlying.Contents()
    }

    constructor Source(data: seq<bv8>)
      ensures Valid() && fresh(Repr) && Contents() == data
    {
      this.data, underlying, closed, peekedBytes, limitReached, Repr := data, null, false, [], false, {this};
    }

    constructor Peeked(underlying: ReadCloser, peeked: seq<bv8>, limitReached: bool)
      requires underlying.Valid()
      ensures Valid() && Repr == {this} + underlying.Repr
      ensures Contents() == peeked + underlying.Contents()
      ensures peekedBytes == peeked && this.limitReached == limitReached
    {
      this.data, this.underlying, closed, peekedBytes := peeked, underlying, false, peeked;
      this.limitReached, Repr := limitReached, {this} + underlying.Repr;
    }

    /** Read into `p` from position `from` on. The bytes delivered and the bytes left are together
        what was left before; an end is reported only when nothing is left. */
    method Read(p: array<bv8>, from: nat) returns (n: nat, eof: bool)
      requires Valid() && p !in Repr && from <= p.Length
      modifies Repr, p
      ensures Valid() && from + n <= p.Length
      ensures p[..from] == old(p[..from]) && p[from..from + n] + Contents() == old(Contents())
      ensures eof ==> Contents() == []
      ensures from < p.Length && n == 0 ==> eof
      decreases Repr, 1
    {
      if closed {
        return 0, true;
      }
      if data == [] && underlying != null {
        n, eof := ReadUnderlying(p, from);
        return;
      }
      if data == [] {
        return 0, true;
      }
      n, eof := ReadBuffered(p, from);
    }

    /** Once its buffer is used up, a peeked reader passes on what it reads. */
    method ReadUnderlying(p: array<bv8>, from: nat) returns (n: nat, eof: bool)
      requires Valid() && !closed && data == [] && underlying != null && p !in Repr && from <= p.Length
      modifies underlying.Repr, p
      ensures Valid() && from + n <= p.Length
      ensures p[..from] == old(p[..from]) && p[from..from + n] + Contents() == old(Contents())
      ensures eof ==> Contents() == []
      ensures from < p.Length && n == 0 ==> eof
      decreases Repr, 0
    {
      assert Contents() == underlying.Contents();
      n, eof := underlying.Read(p, from);
      assert Contents() == underlying.Contents();
    }

    /** The bytes at hand: of a peeked reader as many as fit, of a source some of them. */
    method ReadBuffered(p: array<bv8>, from: nat) returns (n: nat, eof: bool)
      requires Valid() && !closed && data != [] && p !in Repr && from <= p.Length
      modifies this`data, p
      ensures Valid() && from + n <= p.Length
      ensures p[..from] == old(p[..from]) && p[from..from + n] + Contents() == old(Contents())
      ensures eof ==> Contents() == []
      ensures from < p.Length && n == 0 ==> eof
    {
      var room := p.Length - from;
      ghost var rest := if underlying == null then [] else underlying.Contents();
      if underlying != null || room == 0 {
        n := if room < |data| then room else |data|;
      } else {
        n :| 1 <= n <= room && n <= |data|;
      }
      Fill(p, from, data[..n]);
      data := data[n..];
      eof := *;
      eof := eof && underlying == null && data == [];
      assert p[from..from + n] + data == old(data);
      ConcatAssociative(p[from..from + n], data, rest);
    }

    method Close()
      requires Valid()
      modifies Repr
      ensures Valid() && Contents() == []
      decreases Repr
    {
      if closed {
        return;
      }
      closed := true;
      if underlying != null {
        underlying.Close();
      }
    }
  }

  method Fill(p: array<bv8>, from: nat, bytes: seq<bv8>)
    requires from + |bytes| <= p.Length
    modifies p
    ensures p[..from] == old(p[..from]) && p[from..from + |bytes|] == bytes
  {
    for i := 0 to |bytes|
      invariant p[..from] == old(p[..from]) && p[from..from + i] == bytes[..i]
    {
      p[from + i] := bytes[i];
    }
  }

  function Prefix(s: seq<bv8>, limit: nat): seq<bv8>
  {
    if |s| <= limit then s else s[..limit]
  }

  lemma PrefixOfWhole(read: seq<bv8>, rest: seq<bv8>, limit: nat)
    requires |read| <= limit && (|read| == limit || rest == [])
    ensures Prefix(read + rest, limit) == read
  {
  }

  /** io.ReadFull: read until the buffer is full or the reader ends. */
  method ReadFull(r: ReadCloser, p: array<bv8>) returns (n: nat)
    requires r.Valid() && p !in r.Repr
    modifies r.Repr, p
    ensures r.Valid() && n <= p.Length
    ensures p[..n] == Prefix(old(r.Contents()), p.Length) && p[..n] + r.Contents() == old(r.Contents())
  {
    n := 0;
    var eof := false;
    while n < p.Length && !eof
      invariant r.Valid() && n <= p.Length
      invariant p[..n] + r.Contents() == old(r.Contents())
      invariant eof ==> r.Contents() == []
      decreases p.Length - n, if eof then 0 else 1
    {
      ghost var before := p[..n];
      var count, end := r.Read(p, n);
      assert p[..n + count] == before + p[n..n + count];
      ConcatAssociative(before, p[n..n + count], r.Contents());
      n, eof := n + count, end;
    }
    PrefixOfWhole(p[..n], r.Contents(), p.Length);
  }

  /** Peek leaves the reader's contents as they were, tells them up to the limit, and says whether
      the limit was reached. A missing reader counts as an empty one. */
  method PeekReader(underlying: ReadCloser?, limit: nat) returns (r: ReadCloser)
    requires underlying != null ==> underlying.Valid()
    modifies if underlying == null then {} else underlying.Repr
    ensures r.Valid() && fresh(r)
    ensures underlying != null ==> r.Repr == {r} + underlying.Repr
    ensures var contents := if underlying == null then [] else old(underlying.Contents());
      && r.Contents() == contents
      && r.peekedBytes == Prefix(contents, limit)
      && (r.limitReached <==> |contents| >= limit)
  {
    var source: ReadCloser;
    if underlying == null {
      source := new ReadCloser.Source([]);
    } else {
      source := underlying;
    }
    var p := new bv8[limit];
    var n := ReadFull(source, p);
    r := new ReadCloser.Peeked(source, p[..n], n == limit);
  }

  /** Reading with any sequence of buffer sizes delivers the contents in order. */
  method ReadWith(r: ReadCloser, sizes: seq<nat>) returns (out: seq<bv8>)
    requires r.Valid()
    modifies r.Repr
    ensures r.Valid() && out + r.Contents() == old(r.Contents())
  {
    out := [];
    for i := 0 to |sizes|
      invariant r.Valid() && out + r.Contents() == old(r.Contents())
    {
      var p := new bv8[sizes[i]];
      var n, _ := r.Read(p, 0);
      assert p[0..0 + n] == p[..n];
      ConcatAssociative(out, p[..n], r.Contents());
      out := out + p[..n];
    }
  }

  /** Reading to the end with a buffer of any size delivers all contents. */
  method ReadAll(r: ReadCloser, size: nat) returns (out: seq<bv8>)
    requires r.Valid() && size > 0
    modifies r.Repr
    ensures r.Valid() && out == old(r.Contents()) && r.Contents() == []
  {
    out := [];
    var eof := false;
    while !eof
      invariant r.Valid() && out + r.Contents() == old(r.Contents())
      invariant eof ==> r.Contents() == []
      decreases |r.Contents()|, if eof then 0 else 1
    {
      var p := new bv8[size];
      ghost var left := r.Contents();
      var n, end := r.Read(p, 0);
      assert p[0..0 + n] == p[..n];
      assert left == p[..n] + r.Contents();
      ConcatAssociative(out, p[..n], r.Contents());
      out, eof := out + p[..n], end;
    }
  }

  /** A request body is peeked up to the message size, and a templated body once more, up to a larger
      limit: the second peek sees the body from its start. */
  method PeekTwice(body: ReadCloser, first: nat, second: nat, size: nat) returns (inner: ReadCloser, outer: ReadCloser, all: seq<bv8>)
    requires body.Valid() && size > 0
    modifies body.Repr
    ensures inner.peekedBytes == Prefix(old(body.Contents()), first) && (inner.limitReached <==> |old(body.Contents())| >= first)
    ensures outer.peekedBytes == Prefix(old(body.Contents()), second) && (outer.limitReached <==> |old(body.Contents())| >= second)
    ensures all == old(body.Contents())
  {
    inner := PeekReader(body, first);
    outer := PeekReader(inner, second);
    all := ReadAll(outer, size);
  }
}
