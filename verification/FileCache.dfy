/**
  server/file_cache.go: attachments on disk and the recorded total size. Writers run one at a time;
  directory operations succeed.
 */
module FileCache {
  import opened Text
  import opened Wildcards
  import opened Limits

  type Files = map<string, seq<bv8>>

  const MESSAGE_ID_LENGTH := 12

  predicate ValidFileID(id: string)
  {
    |id| == MESSAGE_ID_LENGTH && forall i | 0 <= i < |id| :: TopicChar(id[i])
  }

  // ---------- the size of a directory ----------

  ghost function SizeOf(files: Files, ids: set<string>): nat
    requires ids <= files.Keys
  {
    if ids == {} then 0
    else
      var id :| id in ids;
      |files[id]| + SizeOf(files, ids - {id})
  }

  /** The sum does not depend on which file is counted first. */
  lemma {:induction false} SizeOfRemove(files: Files, ids: set<string>, id: string)
    requires ids <= files.Keys && id in ids
    ensures SizeOf(files, ids) == |files[id]| + SizeOf(files, ids - {id})
    decreases |ids|
  {
    var first :| first in ids && SizeOf(files, ids) == |files[first]| + SizeOf(files, ids - {first});
    if first != id {
      SizeOfRemove(files, ids - {first}, id);
      SizeOfRemove(files, ids - {id}, first);
      assert ids - {first} - {id} == ids - {id} - {first};
    }
  }

  lemma {:induction false} SizeOfSame(a: Files, b: Files, ids: set<string>)
    requires ids <= a.Keys && ids <= b.Keys && forall id | id in ids :: a[id] == b[id]
    ensures SizeOf(a, ids) == SizeOf(b, ids)
    decreases |ids|
  {
    if ids != {} {
      var id :| id in ids;
      SizeOfRemove(a, ids, id);
      SizeOfRemove(b, ids, id);
      SizeOfSame(a, b, ids - {id});
    }
  }

  ghost function DirSize(files: Files): nat { SizeOf(files, files.Keys) }

  lemma DirSizeAdd(files: Files, id: string, content: seq<bv8>)
    requires id !in files
    ensures DirSize(files[id := content]) == DirSize(files) + |content|
  {
    var more := files[id := content];
    SizeOfRemove(more, more.Keys, id);
    assert more.Keys - {id} == files.Keys;
    SizeOfSame(more, files, files.Keys);
  }

  lemma DirSizeRemove(files: Files, id: string)
    ensures DirSize(files - {id}) <= DirSize(files)
  {
    if id in files {
      var less := files - {id};
      SizeOfRemove(files, files.Keys, id);
      assert files.Keys - {id} == less.Keys;
      SizeOfSame(files, less, less.Keys);
    } else {
      assert files - {id} == files;
    }
  }

  // ---------- operations on values ----------

  datatype Store = Store(files: Files, total: int, limit: int)

  function Remaining(s: Store): nat
  {
    if s.limit - s.total < 0 then 0 else s.limit - s.total
  }

  /** Files before the first invalid id are removed. */
  function RemoveFiles(files: Files, ids: seq<string>): Files
  {
    if ids == [] || !ValidFileID(ids[0]) then files else RemoveFiles(files - {ids[0]}, ids[1..])
  }

  predicate AllValid(ids: seq<string>) { forall i | 0 <= i < |ids| :: ValidFileID(ids[i]) }

  datatype Op =
    | WriteFile(id: string, content: seq<bv8>, aborted: bool)
    | RemoveAll(ids: seq<string>)

  /** A write that fails for any reason leaves no trace; a removal that meets an invalid id leaves the
      recorded size as it was. */
  ghost function Apply(s: Store, op: Op): Store
  {
    match op
    case WriteFile(id, content, aborted) =>
      if aborted || !ValidFileID(id) || id in s.files || |content| > Remaining(s) then s
      else s.(files := s.files[id := content], total := s.total + |content|)
    case RemoveAll(ids) =>
      var files := RemoveFiles(s.files, ids);
      s.(files := files, total := if AllValid(ids) then DirSize(files) else s.total)
  }

  ghost function Run(s: Store, ops: seq<Op>): Store
  {
    if ops == [] then s else Apply(Run(s, ops[..|ops| - 1]), ops[|ops| - 1])
  }

  ghost function Open(files: Files, limit: int): Store { Store(files, DirSize(files), limit) }

  function Max(a: int, b: int): int { if a < b then b else a }

  /** The recorded size covers the files and stays within the limit or the size at the start. */
  ghost predicate Accounted(s: Store, start: nat)
  {
    DirSize(s.files) <= s.total <= Max(s.limit, start)
  }

  lemma {:induction false} RemoveFilesShrinks(files: Files, ids: seq<string>)
    ensures DirSize(RemoveFiles(files, ids)) <= DirSize(files)
    decreases |ids|
  {
    if ids != [] && ValidFileID(ids[0]) {
      DirSizeRemove(files, ids[0]);
      RemoveFilesShrinks(files - {ids[0]}, ids[1..]);
    }
  }

  /** With valid ids only, exactly the named files are gone and all others are as they were. */
  lemma {:induction false} RemoveFilesExact(files: Files, ids: seq<string>)
    requires AllValid(ids)
    ensures RemoveFiles(files, ids) == files - set id | id in ids
    decreases |ids|
  {
    if ids != [] {
      assert ids == [ids[0]] + ids[1..];
      RemoveFilesExact(files - {ids[0]}, ids[1..]);
    }
  }

  lemma ApplyAccounted(s: Store, op: Op, start: nat)
    requires Accounted(s, start)
    ensures Accounted(Apply(s, op), start)
    ensures s.total == DirSize(s.files) && (op.RemoveAll? ==> AllValid(op.ids)) ==>
              Apply(s, op).total == DirSize(Apply(s, op).files)
  {
    match op
    case WriteFile(id, content, aborted) => if id !in s.files { DirSizeAdd(s.files, id, content); }
    case RemoveAll(ids) => RemoveFilesShrinks(s.files, ids);
  }

  lemma {:induction false} RunAccounted(files: Files, limit: int, ops: seq<Op>)
    ensures var s := Run(Open(files, limit), ops);
      && s.limit == limit && Accounted(s, DirSize(files))
      && ((forall i | 0 <= i < |ops| && ops[i].RemoveAll? :: AllValid(ops[i].ids)) ==> s.total == DirSize(s.files))
  {
    if ops != [] {
      var n := |ops| - 1;
      assert forall i | 0 <= i < n :: ops[..n][i] == ops[i];
      RunAccounted(files, limit, ops[..n]);
      ApplyAccounted(Run(Open(files, limit), ops[..n]), ops[n], DirSize(files));
    }
  }

  /** Over every sequence of completed calls, the files take no more than the larger of the limit and
      their size at the start. */
  lemma DiskUseBounded(files: Files, limit: int, ops: seq<Op>)
    ensures DirSize(Run(Open(files, limit), ops).files) <= Max(limit, DirSize(files))
  {
    RunAccounted(files, limit, ops);
  }

  // ---------- the cache ----------

  datatype Outcome = Written(size: nat) | InvalidFileID | FileExists | Failed

  class Cache {
    var files: Files
    var totalSizeCurrent: int
    const totalSizeLimit: int

    ghost function Value(): Store
      reads this
    {
      Store(files, totalSizeCurrent, totalSizeLimit)
    }

    constructor (files: Files, limit: int)
      ensures Value() == Open(files, limit)
    {
      this.files, totalSizeLimit := files, limit;
      new;
      totalSizeCurrent := MeasureDir(files);
    }

    /** dirSize: add up the entries in whatever order the directory lists them. */
    static method MeasureDir(files: Files) returns (size: nat)
      ensures size == DirSize(files)
    {
      size := 0;
      var left := files.Keys;
      while left != {}
        invariant left <= files.Keys && size + SizeOf(files, left) == DirSize(files)
        decreases left
      {
        var id :| id in left;
        SizeOfRemove(files, left, id);
        size := size + |files[id]|;
        left := left - {id};
      }
    }

    /** Copy the stream, chunk by chunk, through the caller's limiters and one for the space that is
        left. `readFails` and `closeFails` stand for errors of the stream and of the file. */
    method Write(id: string, chunks: seq<seq<bv8>>, readFails: bool, closeFails: bool,
                 limiters: seq<Limiter>, tokens: seq<seq<bool>>) returns (r: Outcome)
      requires |tokens| == |chunks| && forall i | 0 <= i < |tokens| :: |tokens[i]| == |limiters| + 1
      requires forall i, j | 0 <= i < j < |limiters| :: limiters[i] != limiters[j]
      modifies this, limiters`value
      ensures Value() == Apply(old(Value()), WriteFile(id, Flatten(chunks), !r.Written?))
      ensures r.InvalidFileID? <==> !ValidFileID(id)
      ensures r.FileExists? <==> ValidFileID(id) && id in old(files)
      ensures r.Written? ==> r.size == |Flatten(chunks)| && |Flatten(chunks)| <= Remaining(old(Value()))
      ensures limiters == [] && !readFails && !closeFails && ValidFileID(id) && id !in old(files) ==>
                (r.Written? <==> |Flatten(chunks)| <= Remaining(old(Value())))
    {
      if !ValidFileID(id) {
        return InvalidFileID;
      }
      if id in files {
        return FileExists;
      }
      ghost var before := files;
      files := files[id := []];
      var remaining := if totalSizeLimit - totalSizeCurrent < 0 then 0 else totalSizeLimit - totalSizeCurrent;
      var size, copied := Copy(id, chunks, readFails, limiters, remaining, tokens);
      if !copied || closeFails {
        files := files - {id};
        assert files == before;
        return Failed;
      }
      totalSizeCurrent := totalSizeCurrent + size;
      return Written(size);
    }

    /** io.Copy into the open file through a LimitWriter. Empty reads are not written. */
    method Copy(id: string, chunks: seq<seq<bv8>>, readFails: bool, limiters: seq<Limiter>, remaining: nat,
                tokens: seq<seq<bool>>) returns (size: nat, ok: bool)
      requires id in files && files[id] == []
      requires |tokens| == |chunks| && forall i | 0 <= i < |tokens| :: |tokens[i]| == |limiters| + 1
      requires forall i, j | 0 <= i < j < |limiters| :: limiters[i] != limiters[j]
      modifies this`files, limiters`value
      ensures id in files && files == old(files)[id := files[id]]
      ensures ok ==> files[id] == Flatten(chunks) && size == |Flatten(chunks)| <= remaining
      ensures limiters == [] && !readFails ==> (ok <==> |Flatten(chunks)| <= remaining)
    {
      var space := new Limiter(Fixed(remaining), 0);
      var writer := new LimitWriter(limiters + [space]);
      size := 0;
      for i := 0 to |chunks|
        invariant writer.Valid() && writer.limiters == limiters + [space] && space.kind == Fixed(remaining)
        invariant id in files && files == old(files)[id := files[id]] && files[id] == Flatten(chunks[..i])
        invariant size == |Flatten(chunks[..i])| == space.value <= remaining
      {
        FlattenPrefix(chunks, i);
        if chunks[i] != [] {
          var count, passed := WriteChunk(writer, space, |chunks[i]|, tokens[i]);
          if !passed {
            return 0, false;
          }
          files := files[id := files[id] + chunks[i]];
          size := size + count;
        }
      }
      assert chunks[..|chunks|] == chunks;
      ok := !readFails;
    }

    /** One write whose last limiter is the space that is left. */
    static method WriteChunk(writer: LimitWriter, space: Limiter, n: nat, tokens: seq<bool>)
      returns (count: nat, passed: bool)
      requires writer.Valid() && writer.limiters != [] && writer.limiters[|writer.limiters| - 1] == space
      requires space.kind.Fixed? && |tokens| == |writer.limiters|
      modifies writer`written, writer.limiters`value
      ensures passed ==> old(space.value) + n <= space.kind.limit && space.value == old(space.value) + n && count == n
      ensures |writer.limiters| == 1 ==> (passed <==> old(space.value) + n <= space.kind.limit)
    {
      ghost var levels := writer.Levels();
      ghost var last := |levels| - 1;
      assert levels[last] == Level(space.kind, space.value);
      count, passed := writer.Write(n, tokens, n);
      PassesIffNoRefusal(levels, n, tokens);
      assert writer.Levels()[last] == Level(space.kind, space.value);
    }

    /** An invalid id ends the loop before the total is measured again. */
    method Remove(ids: seq<string>) returns (ok: bool)
      modifies this
      ensures ok <==> AllValid(ids)
      ensures Value() == Apply(old(Value()), RemoveAll(ids))
    {
      for i := 0 to |ids|
        invariant forall j | 0 <= j < i :: ValidFileID(ids[j])
        invariant RemoveFiles(files, ids[i..]) == RemoveFiles(old(files), ids)
        invariant totalSizeCurrent == old(totalSizeCurrent)
      {
        if !ValidFileID(ids[i]) {
          return false;
        }
        assert ids[i..][1..] == ids[i + 1..];
        files := files - {ids[i]};
      }
      totalSizeCurrent := MeasureDir(files);
      return true;
    }
  }

  lemma FlattenPrefix(chunks: seq<seq<bv8>>, i: nat)
    requires i < |chunks|
    ensures Flatten(chunks[..i + 1]) == Flatten(chunks[..i]) + chunks[i]
    ensures |Flatten(chunks[..i])| + |chunks[i]| <= |Flatten(chunks)|
  {
    assert chunks[..i + 1] == chunks[..i] + [chunks[i]];
    FlattenSnoc(chunks[..i], chunks[i]);
    assert chunks == chunks[..i + 1] + chunks[i + 1..];
    FlattenAppend(chunks[..i + 1], chunks[i + 1..]);
  }
}
