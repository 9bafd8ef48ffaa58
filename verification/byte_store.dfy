/** The archive byte store (FernFlowerByteCodeProvider): zip archives opened
    lazily, one cached handle per archive path, with get and set of an
    entry's bytes and a close that tries every handle. */
module ByteStore {
  import opened Base

  /** The entries of one open zip archive, by internal path. */
  type Archive = map<string, seq<byte>>

  /** The handle cache after `zipFile(external)`: a cached handle is reused;
      otherwise the archive is opened from `disk`, where a missing path means
      that opening fails and nothing is cached. */
  function Opened(files: map<string, Archive>, disk: map<string, Archive>, external: string): map<string, Archive>
  {
    if external in files then files
    else if external in disk then files[external := disk[external]]
    else files
  }

  /** Every cached handle holds its archive as it is on disk. */
  predicate FromDisk(disk: map<string, Archive>, files: map<string, Archive>) {
    forall p :: p in files ==> p in disk && files[p] == disk[p]
  }

  /** The handle cache after `zipFile` on each of `paths` in turn, starting
      empty: exactly the listed archives that exist on disk, as they are on
      disk. */
  function OpenedAll(disk: map<string, Archive>, paths: seq<string>): (m: map<string, Archive>)
    ensures forall p :: p in m <==> p in paths && p in disk
    ensures FromDisk(disk, m)
  {
    if paths == [] then map[]
    else Opened(OpenedAll(disk, paths[..|paths| - 1]), disk, paths[|paths| - 1])
  }

  /** What `getBytecode` returns from a handle cache. */
  function ReadEntry(files: map<string, Archive>, external: string, internal: string): Result<seq<byte>>
  {
    if external !in files then Err(IOException("cannot open archive " + external))
    else if internal !in files[external] then Err(IOException("no such entry " + internal))
    else Ok(files[external][internal])
  }

  /** What `close()` throws: the first failure, with every later one
      attached as suppressed, in order. */
  datatype Thrown = Thrown(primary: Exception, suppressed: seq<Exception>)

  /** The exception a handle's own close() throws, if any. */
  function CloseFailure(fails: string -> Option<string>, path: string): seq<Exception>
  {
    match fails(path)
    case Some(m) => [IOException(m)]
    case None => []
  }

  /** The close failures of the handles at `paths`, in attempt order. */
  function CloseFailures(paths: seq<string>, fails: string -> Option<string>): seq<Exception>
  {
    if paths == [] then []
    else CloseFailures(paths[..|paths| - 1], fails) + CloseFailure(fails, paths[|paths| - 1])
  }

  /** The exception `close()` throws after all failures are known. */
  function Aggregate(failures: seq<Exception>): Option<Thrown>
  {
    if failures == [] then None else Some(Thrown(failures[0], failures[1..]))
  }

  /** The archive files after `close()`: closing a zip file system writes
      its entries back to its archive file, so every handle whose close
      succeeds replaces its file's contents; a handle whose close fails
      leaves its file as it was. */
  function Flushed(disk: map<string, Archive>, files: map<string, Archive>, fails: string -> Option<string>): map<string, Archive>
  {
    disk + map p | p in files && fails(p).None? :: files[p]
  }

  class ByteCodeProvider {
    /** The `files` cache: archive path to its open handle. */
    var files: map<string, Archive>

    constructor ()
      ensures files == map[]
    {
      files := map[];
    }

    /** `zipFile(external)`: the memoised `computeIfAbsent`. A failure to open
        surfaces as an IOException and caches nothing; a cached handle is
        returned as it is, whatever the disk now holds. */
    method ZipFile(disk: map<string, Archive>, external: string) returns (r: Outcome)
      modifies this
      ensures r.Pass? <==> external in old(files) || external in disk
      ensures r.Fail? ==> r.error == IOException("cannot open archive " + external)
      ensures files == Opened(old(files), disk, external)
      ensures r.Pass? ==> external in files
    {
      if external in files {
        return Pass;
      }
      if external !in disk {
        return Fail(IOException("cannot open archive " + external));
      }
      files := files[external := disk[external]];
      return Pass;
    }

    /** `getBytecode`: the entry's full contents. The handle stays cached
        even when the entry is missing. */
    method GetBytecode(disk: map<string, Archive>, external: string, internal: string) returns (r: Result<seq<byte>>)
      modifies this
      ensures files == Opened(old(files), disk, external)
      ensures r == ReadEntry(files, external, internal)
      ensures r.Err? ==> r.error.IOException?
    {
      var handle := ZipFile(disk, external);
      if handle.Fail? {
        return Err(handle.error);
      }
      if internal !in files[external] {
        return Err(IOException("no such entry " + internal));
      }
      return Ok(files[external][internal]);
    }

    /** `setBytecode`: create or truncate the entry and write `bytes`; no
        other entry and no other archive changes. */
    method SetBytecode(disk: map<string, Archive>, external: string, internal: string, bytes: seq<byte>) returns (r: Outcome)
      modifies this
      ensures r.Pass? <==> external in old(files) || external in disk
      ensures r.Fail? ==> r.error.IOException? && files == old(files)
      ensures r.Pass? ==> var cache := Opened(old(files), disk, external);
        files == cache[external := cache[external][internal := bytes]]
    {
      var handle := ZipFile(disk, external);
      if handle.Fail? {
        return Fail(handle.error);
      }
      files := files[external := files[external][internal := bytes]];
      return Pass;
    }

    /** `close()`: every cached handle is tried, even after a failure; the
        cache is cleared whether or not one failed. The iteration order of
        the concurrent map is not fixed, so it is returned as `attempted`.
        Each successful close writes its archive back: `flushed` is what
        the archive files on `disk` hold afterwards. */
    method Close(disk: map<string, Archive>, fails: string -> Option<string>)
      returns (thrown: Option<Thrown>, attempted: seq<string>, flushed: map<string, Archive>)
      modifies this
      ensures files == map[]
      ensures forall p :: p in old(files) <==> p in attempted
      ensures forall i, j :: 0 <= i < j < |attempted| ==> attempted[i] != attempted[j]
      ensures thrown == Aggregate(CloseFailures(attempted, fails))
      ensures flushed == Flushed(disk, old(files), fails)
    {
      attempted := Enumerate(files.Keys);
      thrown := None;
      flushed := disk;
      for i := 0 to |attempted|
        invariant files == old(files)
        invariant thrown == Aggregate(CloseFailures(attempted[..i], fails))
        invariant flushed == FlushedAlong(disk, files, attempted[..i], fails)
      {
        var p := attempted[i];
        CloseStep(attempted[..i], p, fails);
        assert attempted[..i + 1] == attempted[..i] + [p];
        assert attempted[..i + 1][..i] == attempted[..i];
        var failure := fails(p);
        if failure.Some? {
          if thrown.Some? {
            thrown := Some(Thrown(thrown.value.primary, thrown.value.suppressed + [IOException(failure.value)]));
          } else {
            thrown := Some(Thrown(IOException(failure.value), []));
          }
        } else {
          flushed := flushed[p := files[p]];
        }
      }
      assert attempted[..|attempted|] == attempted;
      FlushedInAnyOrder(disk, files, attempted, fails);
      files := map[];
    }
  }

  /** When every cached handle is an archive on disk, and only `source`'s
      handle may differ from its disk contents, the write-back changes no
      archive but `source`, and `source` only when its close succeeds. */
  lemma FlushedKeepsOthers(disk: map<string, Archive>, files: map<string, Archive>, fails: string -> Option<string>,
                           source: string)
    requires forall p :: p in files ==> p in disk
    requires forall p :: p in files && p != source ==> files[p] == disk[p]
    ensures var after := Flushed(disk, files, fails);
      && after.Keys == disk.Keys
      && (forall p :: p in disk && p != source ==> after[p] == disk[p])
      && (source in disk ==>
            after[source] == if source in files && fails(source).None? then files[source] else disk[source])
  {
  }

  /** Handles that hold their archives as on disk write nothing new back. */
  lemma FlushedFromDisk(disk: map<string, Archive>, files: map<string, Archive>, fails: string -> Option<string>)
    requires FromDisk(disk, files)
    ensures Flushed(disk, files, fails) == disk
  {
  }

  /** The archive files after closing the handles at `paths` one by one. */
  function FlushedAlong(disk: map<string, Archive>, files: map<string, Archive>, paths: seq<string>,
                        fails: string -> Option<string>): map<string, Archive>
    requires forall i :: 0 <= i < |paths| ==> paths[i] in files
  {
    if paths == [] then disk
    else
      var m := FlushedAlong(disk, files, paths[..|paths| - 1], fails);
      var p := paths[|paths| - 1];
      if fails(p).None? then m[p := files[p]] else m
  }

  /** Closing the handles in any order that visits each of them leaves the
      archive files as `Flushed` says. */
  lemma FlushedInAnyOrder(disk: map<string, Archive>, files: map<string, Archive>, order: seq<string>,
                          fails: string -> Option<string>)
    requires forall p :: p in files <==> p in order
    ensures FlushedAlong(disk, files, order, fails) == Flushed(disk, files, fails)
  {
    FlushedAlongAt(disk, files, order, fails);
    var m, f := FlushedAlong(disk, files, order, fails), Flushed(disk, files, fails);
    assert forall q :: q in f <==> q in m;
    assert forall q :: q in m ==> m[q] == f[q];
  }

  /** Key by key, closing the handles at `paths` writes back exactly those
      whose close succeeds. */
  lemma {:induction false} FlushedAlongAt(disk: map<string, Archive>, files: map<string, Archive>, paths: seq<string>,
                                          fails: string -> Option<string>)
    requires forall i :: 0 <= i < |paths| ==> paths[i] in files
    ensures var m := FlushedAlong(disk, files, paths, fails);
      && (forall q :: q in m <==> q in disk || (q in paths && fails(q).None?))
      && (forall q :: q in m ==> m[q] == if q in paths && fails(q).None? then files[q] else disk[q])
  {
    if paths != [] {
      var init := paths[..|paths| - 1];
      FlushedAlongAt(disk, files, init, fails);
      assert paths == init + [paths[|paths| - 1]];
    }
  }

  /** Some order in which to visit the handles of the cache: each path
      exactly once. */
  method Enumerate(paths: set<string>) returns (order: seq<string>)
    ensures forall p :: p in paths <==> p in order
    ensures forall i, j :: 0 <= i < j < |order| ==> order[i] != order[j]
  {
    var remaining := paths;
    order := [];
    while remaining != {}
      invariant remaining <= paths
      invariant forall p :: p in paths ==> (p in order <==> p !in remaining)
      invariant forall p :: p in order ==> p in paths
      invariant forall i, j :: 0 <= i < j < |order| ==> order[i] != order[j]
      decreases remaining
    {
      var p :| p in remaining;
      assert p !in order;
      order := order + [p];
      remaining := remaining - {p};
    }
  }

  /** One iteration of `close()`'s loop: a failure becomes the primary
      exception if there is none yet, and is attached as suppressed otherwise. */
  lemma CloseStep(before: seq<string>, p: string, fails: string -> Option<string>)
    ensures fails(p).None? ==> Aggregate(CloseFailures(before + [p], fails)) == Aggregate(CloseFailures(before, fails))
    ensures fails(p).Some? && Aggregate(CloseFailures(before, fails)).None? ==>
      Aggregate(CloseFailures(before + [p], fails)) == Some(Thrown(IOException(fails(p).value), []))
    ensures fails(p).Some? && Aggregate(CloseFailures(before, fails)).Some? ==>
      var t := Aggregate(CloseFailures(before, fails)).value;
      Aggregate(CloseFailures(before + [p], fails)) == Some(Thrown(t.primary, t.suppressed + [IOException(fails(p).value)]))
  {
    var fs := CloseFailures(before, fails);
    assert (before + [p])[..|before|] == before;
    assert CloseFailures(before + [p], fails) == fs + CloseFailure(fails, p);
    match fails(p) {
      case None =>
        assert fs + [] == fs;
      case Some(m) =>
        if fs != [] {
          assert (fs + [IOException(m)])[1..] == fs[1..] + [IOException(m)];
        }
    }
  }

  /** After `setBytecode(external, internal, b)`, `getBytecode(external,
      internal)` returns exactly `b`, whenever the archive can be opened. */
  method SetThenGet(store: ByteCodeProvider, disk: map<string, Archive>, external: string, internal: string, bytes: seq<byte>)
    returns (r: Result<seq<byte>>)
    modifies store
    ensures external in old(store.files) || external in disk ==> r == Ok(bytes)
    ensures external !in old(store.files) && external !in disk ==> r.Err? && store.files == old(store.files)
  {
    var w := store.SetBytecode(disk, external, internal, bytes);
    r := store.GetBytecode(disk, external, internal);
  }

  /** With no close failure `close()` throws nothing; otherwise the thrown
      exception is the first failure and carries all the others. */
  lemma {:induction false} AggregateCarriesAll(paths: seq<string>, fails: string -> Option<string>)
    ensures Aggregate(CloseFailures(paths, fails)).None? <==> forall i :: 0 <= i < |paths| ==> fails(paths[i]).None?
    ensures Aggregate(CloseFailures(paths, fails)).Some? ==>
      var t := Aggregate(CloseFailures(paths, fails)).value;
      1 + |t.suppressed| == |set i | 0 <= i < |paths| && fails(paths[i]).Some?|
  {
    var failed := set i | 0 <= i < |paths| && fails(paths[i]).Some?;
    FailuresCount(paths, fails, failed);
    if forall i :: 0 <= i < |paths| ==> fails(paths[i]).None? {
      assert failed == {};
    } else {
      var i :| 0 <= i < |paths| && fails(paths[i]).Some?;
      assert i in failed;
    }
  }

  /** The number of failures is the number of handles whose close failed. */
  lemma {:induction false} FailuresCount(paths: seq<string>, fails: string -> Option<string>, failed: set<int>)
    requires forall i :: i in failed <==> 0 <= i < |paths| && fails(paths[i]).Some?
    ensures |CloseFailures(paths, fails)| == |failed|
  {
    if paths == [] {
      assert forall i :: i !in failed;
      assert failed == {};
    } else {
      var n := |paths| - 1;
      var prefix := paths[..n];
      var before := failed - {n};
      assert forall i :: i in before <==> 0 <= i < |prefix| && fails(prefix[i]).Some? by {
        assert forall i :: 0 <= i < n ==> prefix[i] == paths[i];
      }
      FailuresCount(prefix, fails, before);
      var fs := CloseFailures(prefix, fails);
      assert CloseFailures(paths, fails) == fs + CloseFailure(fails, paths[n]);
      if fails(paths[n]).Some? {
        assert failed == before + {n};
        assert |before + {n}| == |before| + 1;
      } else {
        assert failed == before;
      }
    }
  }
}
