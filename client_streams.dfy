/** The reference-counted file streams of client_logger. One table, shared
    by every logger of the process, maps a file path to the number of
    refcounted_stream objects that hold it (and to the open file, which the
    model does not represent). A refcounted_stream holds a path and a
    pointer into the table; the pointer is null once the object has been
    moved from. Whether a file can be opened is an input. */
module ClientStreams {
  import opened Wrappers

  /** ios_base::failure when the file cannot be opened; out_of_range when a
      copied stream's path is not in the table. */
  datatype StreamError = OpenFailed | PathLost

  /** Every entry of the table is held at least once. */
  predicate Positive(streams: map<string, nat>)
  {
    forall p | p in streams :: streams[p] > 0
  }

  /** The table counts exactly the holders: a path has an entry if and
      only if some holder holds it, and its count is the number of them. */
  ghost predicate Balanced(streams: map<string, nat>, held: multiset<string>)
  {
    forall p :: (p in streams <==> p in held) && (p in streams ==> streams[p] == held[p])
  }

  /** One more holder of path: its count goes up, or it gets an entry with
      count 1. */
  function Acquire(streams: map<string, nat>, path: string): (r: map<string, nat>)
    ensures Positive(streams) ==> Positive(r)
  {
    if path in streams then streams[path := streams[path] + 1] else streams[path := 1]
  }

  /** One holder of path fewer: the count goes down, and the entry is
      erased when it reaches 0. */
  function Release(streams: map<string, nat>, path: string): (r: map<string, nat>)
    requires path in streams && streams[path] > 0
    ensures Positive(streams) ==> Positive(r)
  {
    if streams[path] == 1 then streams - {path} else streams[path := streams[path] - 1]
  }

  /** A balanced table has only positive counts. */
  lemma BalancedPositive(streams: map<string, nat>, held: multiset<string>)
    requires Balanced(streams, held)
    ensures Positive(streams)
  {
    forall p | p in streams
      ensures streams[p] > 0
    {
      assert p in held;
    }
  }

  /** A new holder keeps the table balanced. */
  lemma AcquireBalanced(streams: map<string, nat>, held: multiset<string>, path: string)
    requires Balanced(streams, held)
    ensures Balanced(Acquire(streams, path), held + multiset{path})
  {
    var r, h := Acquire(streams, path), held + multiset{path};
    forall p
      ensures (p in r <==> p in h) && (p in r ==> r[p] == h[p])
    {
      if p != path {
        assert h[p] == held[p];
      }
    }
  }

  /** A holder that lets go keeps the table balanced. */
  lemma ReleaseBalanced(streams: map<string, nat>, held: multiset<string>, path: string)
    requires Balanced(streams, held) && path in held
    ensures path in streams && streams[path] > 0
    ensures Balanced(Release(streams, path), held - multiset{path})
  {
    assert path in streams;
    var r, h := Release(streams, path), held - multiset{path};
    forall p
      ensures (p in r <==> p in h) && (p in r ==> r[p] == h[p])
    {
      if p != path {
        assert h[p] == held[p];
      }
    }
  }

  /** One more holder of each path in turn. */
  function AcquireAll(streams: map<string, nat>, paths: seq<string>): map<string, nat>
    decreases |paths|
  {
    if paths == [] then streams else Acquire(AcquireAll(streams, paths[..|paths| - 1]), paths[|paths| - 1])
  }

  /** Holders of a whole list of paths keep the table balanced: each path
      gains one count per time it is listed. */
  lemma {:induction false} AcquireAllBalanced(streams: map<string, nat>, held: multiset<string>, paths: seq<string>)
    requires Balanced(streams, held)
    ensures Balanced(AcquireAll(streams, paths), held + multiset(paths))
    decreases |paths|
  {
    if paths != [] {
      var init, last := paths[..|paths| - 1], paths[|paths| - 1];
      AcquireAllBalanced(streams, held, init);
      AcquireBalanced(AcquireAll(streams, init), held + multiset(init), last);
      assert paths == init + [last];
      assert held + multiset(paths) == held + multiset(init) + multiset{last};
    }
  }

  /** When every listed path is already in the table, the entries stay the
      same and each count grows by the number of times its path is listed. */
  lemma {:induction false} AcquireAllCounts(streams: map<string, nat>, paths: seq<string>)
    requires forall i | 0 <= i < |paths| :: paths[i] in streams
    ensures AcquireAll(streams, paths).Keys == streams.Keys
    ensures forall p | p in streams :: AcquireAll(streams, paths)[p] == streams[p] + multiset(paths)[p]
    decreases |paths|
  {
    if paths != [] {
      var init, last := paths[..|paths| - 1], paths[|paths| - 1];
      AcquireAllCounts(streams, init);
      assert paths == init + [last];
      assert multiset(paths) == multiset(init) + multiset{last};
    }
  }

  /** Letting go right after taking a path gives the table back. */
  lemma ReleaseUndoesAcquire(streams: map<string, nat>, path: string)
    requires Positive(streams)
    ensures Release(Acquire(streams, path), path) == streams
  {
    if path !in streams {
      assert Acquire(streams, path) - {path} == streams;
    }
  }

  /** The entry is erased exactly when the last holder lets go, and no
      other entry changes. */
  lemma ReleaseErases(streams: map<string, nat>, path: string)
    requires path in streams && streams[path] > 0
    ensures path !in Release(streams, path) <==> streams[path] == 1
    ensures path in Release(streams, path) ==> Release(streams, path)[path] == streams[path] - 1
    ensures forall q | q != path :: (q in Release(streams, path) <==> q in streams)
    ensures forall q | q != path && q in streams :: Release(streams, path)[q] == streams[q]
  {
  }

  /** refcounted_stream: the path it holds, and whether its stream pointer
      is set (it is null after a move). */
  class RefcountedStream {
    var path: string
    var live: bool

    constructor Holding(path: string)
      ensures this.path == path && live
    {
      this.path := path;
      live := true;
    }

    /** The move constructor: the path and the pointer are taken over, the
        source's pointer becomes null and its path is left empty (a moved-from
        string). No count changes. */
    constructor Move(oth: RefcountedStream)
      modifies oth
      ensures path == old(oth.path) && live == old(oth.live)
      ensures oth.path == "" && !oth.live
    {
      path := oth.path;
      live := oth.live;
      new;
      oth.path := "";
      oth.live := false;
    }

    /** Copy assignment, releasing the path held before: the source's path
        is looked up (it must be in the table), its count goes up, and then
        the old path's count goes down. Self-assignment changes nothing. */
    method CopyAssign(table: StreamTable, oth: RefcountedStream)
      requires Positive(table.streams) && oth.path in table.streams
      requires live ==> path in table.streams
      modifies this, table
      ensures Positive(table.streams)
      ensures this == oth ==> table.streams == old(table.streams) && path == old(path) && live == old(live)
      ensures this != oth ==> path == old(oth.path) && live
      ensures this != oth && old(live) ==> table.streams == Release(Acquire(old(table.streams), old(oth.path)), old(path))
      ensures this != oth && !old(live) ==> table.streams == Acquire(old(table.streams), old(oth.path))
    {
      if this != oth {
        var before := table.streams;
        table.streams := Acquire(table.streams, oth.path);
        if live {
          assert path in before && before[path] > 0;
          table.streams := Release(table.streams, path);
        }
        path := oth.path;
        live := true;
      }
    }

    /** Move assignment, releasing the path held before: the source's path
        and pointer are taken over and the source's pointer becomes null.
        Self-assignment changes nothing. */
    method MoveAssign(table: StreamTable, oth: RefcountedStream)
      requires Positive(table.streams)
      requires live ==> path in table.streams
      modifies this, oth, table
      ensures Positive(table.streams)
      ensures this == oth ==> table.streams == old(table.streams) && path == old(path) && live == old(live)
      ensures this != oth ==> path == old(oth.path) && live == old(oth.live) && oth.path == "" && !oth.live
      ensures this != oth && old(live) ==> table.streams == Release(old(table.streams), old(path))
      ensures this != oth && !old(live) ==> table.streams == old(table.streams)
    {
      if this != oth {
        if live {
          table.streams := Release(table.streams, path);
        }
        path := oth.path;
        live := oth.live;
        oth.path := "";
        oth.live := false;
      }
    }

    /** The destructor: a stream whose pointer is set lets go of its path;
        the entry (and the file) goes when the count reaches 0. The object
        is not used afterwards, which the model records by clearing live. */
    method Destroy(table: StreamTable)
      requires Positive(table.streams)
      requires live ==> path in table.streams
      modifies this, table
      ensures Positive(table.streams) && !live && path == old(path)
      ensures table.streams == if old(live) then Release(old(table.streams), path) else old(table.streams)
    {
      if live {
        table.streams := Release(table.streams, path);
        live := false;
      }
    }
  }

  /** The process-wide table of open streams. */
  class StreamTable {
    var streams: map<string, nat>

    constructor()
      ensures streams == map[]
    {
      streams := map[];
    }

    /** refcounted_stream(path): a path already in the table gets one more
        holder. Otherwise an entry with count 1 is inserted and the file
        opened; when it does not open, the entry is erased again and the
        construction fails. */
    method Open(path: string, opens: bool) returns (r: Result<RefcountedStream, StreamError>)
      requires Positive(streams)
      modifies this
      ensures Positive(streams)
      ensures path in old(streams) || opens ==>
        r.Ok? && fresh(r.value) && r.value.path == path && r.value.live && streams == Acquire(old(streams), path)
      ensures !(path in old(streams) || opens) ==> r == Err(OpenFailed) && streams == old(streams)
    {
      if path in streams {
        streams := Acquire(streams, path);
      } else {
        streams := streams[path := 1];
        if !opens {
          streams := streams - {path};
          return Err(OpenFailed);
        }
      }
      var stream := new RefcountedStream.Holding(path);
      r := Ok(stream);
    }

    /** The copy constructor: the source's path must still be in the table,
        and gets one more holder. */
    method Copy(oth: RefcountedStream) returns (r: Result<RefcountedStream, StreamError>)
      requires Positive(streams)
      modifies this
      ensures Positive(streams)
      ensures oth.path in old(streams) ==>
        r.Ok? && fresh(r.value) && r.value.path == oth.path && r.value.live && streams == Acquire(old(streams), oth.path)
      ensures oth.path !in old(streams) ==> r == Err(PathLost) && streams == old(streams)
    {
      if oth.path !in streams {
        return Err(PathLost);
      }
      streams := Acquire(streams, oth.path);
      var stream := new RefcountedStream.Holding(oth.path);
      r := Ok(stream);
    }
  }

  /** Two loggers writing to one file share its entry: it survives the
      first holder's destruction with count 1 and is erased with the
      second. */
  method SharedFile() returns (afterFirst: map<string, nat>, afterSecond: map<string, nat>)
    ensures afterFirst == map["app.log" := 1]
    ensures afterSecond == map[]
  {
    var table := new StreamTable();
    var a := table.Open("app.log", true);
    var b := table.Open("app.log", false);
    assert table.streams == map["app.log" := 2];
    a.value.Destroy(table);
    afterFirst := table.streams;
    b.value.Destroy(table);
    afterSecond := table.streams;
  }
}
