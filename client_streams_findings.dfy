/** Copy and move assignment of refcounted_stream as written: the stream
    takes over the new path (copy assignment also counts one more holder of
    it) but never lets go of the path it held before. That path keeps a
    count no holder will ever release, so its entry, and its file, stay
    open for the life of the process. The corrected members are
    RefcountedStream.CopyAssign and RefcountedStream.MoveAssign. */
module ClientStreamsFindings {
  import opened Wrappers
  import opened ClientStreams

  /** Copy assignment as written. */
  method CopyAssignAsWritten(table: StreamTable, target: RefcountedStream, oth: RefcountedStream)
    requires Positive(table.streams) && oth.path in table.streams
    modifies target, table
    ensures Positive(table.streams)
    ensures target == oth ==> table.streams == old(table.streams) && target.path == old(target.path) && target.live == old(target.live)
    ensures target != oth ==> target.path == old(oth.path) && target.live
    ensures target != oth ==> table.streams == Acquire(old(table.streams), old(oth.path))
  {
    if target != oth {
      table.streams := Acquire(table.streams, oth.path);
      target.path := oth.path;
      target.live := true;
    }
  }

  /** Move assignment as written. */
  method MoveAssignAsWritten(target: RefcountedStream, oth: RefcountedStream)
    modifies target, oth
    ensures target == oth ==> target.path == old(target.path) && target.live == old(target.live)
    ensures target != oth ==> target.path == old(oth.path) && target.live == old(oth.live)
    ensures target != oth ==> oth.path == "" && !oth.live
  {
    if target != oth {
      target.path := oth.path;
      target.live := oth.live;
      oth.path := "";
      oth.live := false;
    }
  }

  /** Whatever the table, when a live holder of p is copy-assigned a
      different path q as written, the table no longer counts its holders:
      p keeps the count of a holder that is gone. */
  lemma CopyAssignUnbalances(streams: map<string, nat>, held: multiset<string>, p: string, q: string)
    requires Balanced(streams, held) && p in held && p != q
    ensures !Balanced(Acquire(streams, q), held + multiset{q} - multiset{p})
  {
    var h := held + multiset{q} - multiset{p};
    assert h[p] == held[p] - 1;
  }

  /** Whatever the table, when a live holder of p is move-assigned as
      written, the table no longer counts its holders. */
  lemma MoveAssignUnbalances(streams: map<string, nat>, held: multiset<string>, p: string)
    requires Balanced(streams, held) && p in held
    ensures !Balanced(streams, held - multiset{p})
  {
    assert (held - multiset{p})[p] == held[p] - 1;
  }

  /** Two files, a = b as written, then both destroyed: the table still
      holds "a.log" with count 1 and nobody to release it. */
  method CopyAssignLeaks() returns (left: map<string, nat>)
    ensures left == map["a.log" := 1]
  {
    var table := new StreamTable();
    var a := table.Open("a.log", true);
    var b := table.Open("b.log", true);
    CopyAssignAsWritten(table, a.value, b.value);
    a.value.Destroy(table);
    b.value.Destroy(table);
    left := table.streams;
  }

  /** The same steps with the corrected copy assignment leave the table
      empty. */
  method CopyAssignReleases() returns (left: map<string, nat>)
    ensures left == map[]
  {
    var table := new StreamTable();
    var a := table.Open("a.log", true);
    var b := table.Open("b.log", true);
    a.value.CopyAssign(table, b.value);
    a.value.Destroy(table);
    b.value.Destroy(table);
    left := table.streams;
  }

  /** a = std::move(b) as written, then both destroyed: "a.log" stays with
      count 1. */
  method MoveAssignLeaks() returns (left: map<string, nat>)
    ensures left == map["a.log" := 1]
  {
    var table := new StreamTable();
    var a := table.Open("a.log", true);
    var b := table.Open("b.log", true);
    MoveAssignAsWritten(a.value, b.value);
    a.value.Destroy(table);
    b.value.Destroy(table);
    left := table.streams;
  }

  /** The same steps with the corrected move assignment leave the table
      empty. */
  method MoveAssignReleases() returns (left: map<string, nat>)
    ensures left == map[]
  {
    var table := new StreamTable();
    var a := table.Open("a.log", true);
    var b := table.Open("b.log", true);
    a.value.MoveAssign(table, b.value);
    a.value.Destroy(table);
    b.value.Destroy(table);
    left := table.streams;
  }
}
