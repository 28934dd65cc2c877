/**
  fetchLinesIterator of web/src/app/utils.js: lines out of a text that arrives in chunks. The
  expression tries `\n` and `\r` before `\r\n`, so each of the two characters ends a line by itself.
 */
module Lines {
  import opened Text

  predicate IsBreak(c: char) { c == '\n' || c == '\r' }

  // ---------- reference: character by character ----------

  /** One more character: a break opens a new segment, anything else goes to the last one. */
  function Extend(segments: seq<string>, c: char): (r: seq<string>)
    requires segments != []
    ensures r != []
  {
    var n := |segments| - 1;
    if IsBreak(c) then segments + [""] else segments[..n] + [segments[n] + [c]]
  }

  /** The text cut at every line break; a text without breaks is one segment. */
  function Split(text: string): (r: seq<string>)
    ensures r != []
  {
    if text == [] then [""] else Extend(Split(text[..|text| - 1]), text[|text| - 1])
  }

  function DropEmptyLast(segments: seq<string>): seq<string>
    requires segments != []
  {
    var n := |segments| - 1;
    if segments[n] == "" then segments[..n] else segments
  }

  /** The lines of a text: its segments, without an empty last one. */
  function LinesOf(text: string): seq<string>
  {
    DropEmptyLast(Split(text))
  }

  // ---------- the iterator ----------

  /** The position of the first line break from a position on, if any. */
  function NextBreak(s: string, from: nat): (r: Option<nat>)
    requires from <= |s|
    ensures r.Some? ==> from <= r.value < |s| && IsBreak(s[r.value])
    ensures forall i | from <= i < (if r.Some? then r.value else |s|) :: !IsBreak(s[i])
    decreases |s| - from
  {
    if from == |s| then None else if IsBreak(s[from]) then Some(from) else NextBreak(s, from + 1)
  }

  /** Two lists of segments, joined at the seam. */
  function Glue(a: seq<string>, b: seq<string>): seq<string>
    requires a != [] && b != []
  {
    a[..|a| - 1] + [a[|a| - 1] + b[0]] + b[1..]
  }

  lemma GlueExtend(a: seq<string>, b: seq<string>, c: char)
    requires a != [] && b != []
    ensures Extend(Glue(a, b), c) == Glue(a, Extend(b, c))
  {
    var g, e := Glue(a, b), Extend(b, c);
    if !IsBreak(c) && |b| == 1 {
      assert a[|a| - 1] + b[0] + [c] == a[|a| - 1] + (b[0] + [c]);
      assert g[..|g| - 1] == a[..|a| - 1];
    } else if !IsBreak(c) {
      assert g[..|g| - 1] == a[..|a| - 1] + [a[|a| - 1] + b[0]] + b[1..|b| - 1];
      assert e[1..] == b[1..|b| - 1] + [b[|b| - 1] + [c]];
    } else {
      assert e[1..] == b[1..] + [""];
    }
  }

  lemma {:induction false} SplitConcat(a: string, b: string)
    ensures Split(a + b) == Glue(Split(a), Split(b))
  {
    var sa := Split(a);
    if b == [] {
      assert a + b == a;
      assert sa[|sa| - 1] + "" == sa[|sa| - 1];
    } else {
      var init, c := b[..|b| - 1], b[|b| - 1];
      assert (a + b)[..|a + b| - 1] == a + init;
      SplitConcat(a, init);
      GlueExtend(sa, Split(init), c);
    }
  }

  lemma {:induction false} SplitUnbroken(s: string)
    requires forall i | 0 <= i < |s| :: !IsBreak(s[i])
    ensures Split(s) == [s]
  {
    if s != [] {
      SplitUnbroken(s[..|s| - 1]);
      assert s == s[..|s| - 1] + [s[|s| - 1]];
    }
  }

  lemma SplitFirst(line: string, c: char, rest: string)
    requires IsBreak(c) && forall i | 0 <= i < |line| :: !IsBreak(line[i])
    ensures Split(line + [c] + rest) == [line] + Split(rest)
  {
    SplitUnbroken(line);
    assert (line + [c])[..|line|] == line;
    assert Split(line + [c]) == [line, ""];
    SplitConcat(line + [c], rest);
    GlueEmpty(line, Split(rest));
  }

  lemma GlueEmpty(line: string, b: seq<string>)
    requires b != []
    ensures Glue([line, ""], b) == [line] + b
  {
    assert "" + b[0] == b[0];
  }

  /** Reading a line off the front: what is before the first break, then the lines of the rest. */
  lemma LinesFirst(line: string, c: char, rest: string)
    requires IsBreak(c) && forall i | 0 <= i < |line| :: !IsBreak(line[i])
    ensures LinesOf(line + [c] + rest) == [line] + LinesOf(rest)
  {
    SplitFirst(line, c, rest);
    DropAfter(line, Split(rest));
  }

  lemma DropAfter(line: string, segments: seq<string>)
    requires segments != []
    ensures DropEmptyLast([line] + segments) == [line] + DropEmptyLast(segments)
  {
  }

  lemma TakeLine(chunk: string, start: nat, end: nat, rest: string)
    requires start <= end < |chunk| && IsBreak(chunk[end]) && forall i | start <= i < end :: !IsBreak(chunk[i])
    ensures LinesOf(chunk[start..] + rest) == [chunk[start..end]] + LinesOf(chunk[end + 1..] + rest)
  {
    assert chunk[start..] + rest == chunk[start..end] + [chunk[end]] + (chunk[end + 1..] + rest);
    LinesFirst(chunk[start..end], chunk[end], chunk[end + 1..] + rest);
  }

  lemma LinesUnbroken(s: string)
    requires forall i | 0 <= i < |s| :: !IsBreak(s[i])
    ensures LinesOf(s) == if s == [] then [] else [s]
  {
    SplitUnbroken(s);
  }

  /** What is left to read: the unread part of the current chunk and the chunks not yet fetched. */
  function Unread(chunk: string, start: nat, chunks: seq<string>, next: nat): string
    requires start <= |chunk| && next <= |chunks|
  {
    chunk[start..] + Flatten(chunks[next..])
  }

  lemma FetchNext(chunk: string, start: nat, chunks: seq<string>, next: nat)
    requires start <= |chunk| && next < |chunks|
    ensures Unread(chunk[start..] + chunks[next], 0, chunks, next + 1) == Unread(chunk, start, chunks, next)
  {
    var more := chunk[start..] + chunks[next];
    assert more[0..] == more && chunks[next..][1..] == chunks[next + 1..];
    ConcatAssociative(chunk[start..], chunks[next], Flatten(chunks[next + 1..]));
  }

  lemma Restart(chunk: string, start: nat, chunks: seq<string>, next: nat)
    requires start <= |chunk| && next <= |chunks|
    ensures Unread(chunk[start..], 0, chunks, next) == Unread(chunk, start, chunks, next)
  {
    assert chunk[start..][0..] == chunk[start..];
  }

  /** At the end, the rest of the last chunk is the last line, unless it is empty. */
  lemma LastLine(lines: seq<string>, chunk: string, start: nat, chunks: seq<string>)
    requires start <= |chunk| && forall i | start <= i < |chunk| :: !IsBreak(chunk[i])
    ensures lines + LinesOf(Unread(chunk, start, chunks, |chunks|)) == if start < |chunk| then lines + [chunk[start..]] else lines
  {
    assert chunks[|chunks|..] == [] && chunk[start..] + [] == chunk[start..];
    LinesUnbroken(chunk[start..]);
  }

  /** Yielding the next line keeps what has been yielded and what is left together. */
  lemma YieldLine(lines: seq<string>, chunk: string, start: nat, end: nat, chunks: seq<string>, next: nat)
    requires start <= end < |chunk| && IsBreak(chunk[end]) && forall i | start <= i < end :: !IsBreak(chunk[i])
    requires next <= |chunks|
    ensures (lines + [chunk[start..end]]) + LinesOf(Unread(chunk, end + 1, chunks, next))
         == lines + LinesOf(Unread(chunk, start, chunks, next))
  {
    TakeLine(chunk, start, end, Flatten(chunks[next..]));
  }

  /** For every way of cutting a text into chunks, the iterator yields the lines of the whole text. */
  method FetchLines(chunks: seq<string>) returns (lines: seq<string>)
    ensures lines == LinesOf(Flatten(chunks))
  {
    ghost var all := LinesOf(Flatten(chunks));
    lines := [];
    var next: nat, readerDone := 0, chunks == [];
    var chunk := "";
    assert chunks[0..] == chunks && "" + Flatten(chunks) == Flatten(chunks);
    if !readerDone {
      FetchNext(chunk, 0, chunks, 0);
      assert "" + chunks[0] == chunks[0];
      chunk, next := chunks[0], 1;
    }
    var startIndex: nat := 0;
    while true
      invariant next <= |chunks| && startIndex <= |chunk| && (readerDone ==> next == |chunks|)
      invariant lines + LinesOf(Unread(chunk, startIndex, chunks, next)) == all
      decreases |chunks| - next, !readerDone, |chunk| - startIndex
    {
      var result := NextBreak(chunk, startIndex);
      if result.None? {
        var remainder := chunk[startIndex..];
        if readerDone {
          LastLine(lines, chunk, startIndex, chunks);
          break;
        }
        if next < |chunks| {
          FetchNext(chunk, startIndex, chunks, next);
          chunk, next := remainder + chunks[next], next + 1;
        } else {
          Restart(chunk, startIndex, chunks, next);
          chunk, readerDone := remainder, true;
        }
        startIndex := 0;
      } else {
        YieldLine(lines, chunk, startIndex, result.value, chunks, next);
        lines := lines + [chunk[startIndex..result.value]];
        startIndex := result.value + 1;
      }
    }
    if startIndex < |chunk| {
      lines := lines + [chunk[startIndex..]];
    }
  }
}
