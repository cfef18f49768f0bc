/** client_logger_builder: per severity, a list of file streams (kept by
    their canonical paths, newest first, without repeats) and a console
    flag, plus the format string. The canonical form of a path and whether
    its stream can be opened are inputs. */
module ClientLoggerBuilders {
  import opened Wrappers
  import opened LoggerFormat
  import opened ClientStreams

  /** The file streams and the console flag of one severity. */
  datatype Streams = Streams(files: seq<string>, console: bool)

  predicate NoRepeats(s: seq<string>)
  {
    forall i, j | 0 <= i < j < |s| :: s[i] != s[j]
  }

  /** The entry of a severity; a missing one is the entry emplace creates. */
  function Entry(streams: map<Severity, Streams>, sev: Severity): Streams
  {
    if sev in streams then streams[sev] else Streams([], false)
  }

  /** The table after add_file_stream with a canonical path whose stream
      opened: the path goes to the front unless the list has it already. */
  function AddFile(streams: map<Severity, Streams>, sev: Severity, canonical: string): map<Severity, Streams>
  {
    var e := Entry(streams, sev);
    streams[sev := if canonical in e.files then e else e.(files := [canonical] + e.files)]
  }

  /** The table after add_console_stream. */
  function AddConsole(streams: map<Severity, Streams>, sev: Severity): map<Severity, Streams>
  {
    streams[sev := Entry(streams, sev).(console := true)]
  }

  /** add_file_stream keeps every list free of repeats, adds exactly the
      canonical path, puts a new path first and keeps the rest in order,
      and leaves the console flag and the other severities alone. */
  lemma AddFileMeaning(streams: map<Severity, Streams>, sev: Severity, canonical: string)
    requires NoRepeats(Entry(streams, sev).files)
    ensures NoRepeats(Entry(AddFile(streams, sev, canonical), sev).files)
    ensures forall p :: p in Entry(AddFile(streams, sev, canonical), sev).files <==> p == canonical || p in Entry(streams, sev).files
    ensures canonical !in Entry(streams, sev).files ==>
      Entry(AddFile(streams, sev, canonical), sev).files == [canonical] + Entry(streams, sev).files
    ensures Entry(AddFile(streams, sev, canonical), sev).console == Entry(streams, sev).console
    ensures forall other | other != sev :: Entry(AddFile(streams, sev, canonical), other) == Entry(streams, other)
  {
    var before := Entry(streams, sev).files;
    var after := Entry(AddFile(streams, sev, canonical), sev).files;
    if canonical !in before {
      assert after == [canonical] + before;
      forall i, j | 0 <= i < j < |after|
        ensures after[i] != after[j]
      {
        if i == 0 {
          assert after[j] == before[j - 1];
        }
      }
    }
  }

  /** Adding the same path twice is the same as adding it once. */
  lemma AddFileIdempotent(streams: map<Severity, Streams>, sev: Severity, canonical: string)
    ensures AddFile(AddFile(streams, sev, canonical), sev, canonical) == AddFile(streams, sev, canonical)
  {
  }

  /** add_console_stream sets the flag and leaves every file list alone. */
  lemma AddConsoleMeaning(streams: map<Severity, Streams>, sev: Severity, other: Severity)
    ensures Entry(AddConsole(streams, sev), sev).console
    ensures Entry(AddConsole(streams, sev), other).files == Entry(streams, other).files
    ensures other != sev ==> Entry(AddConsole(streams, sev), other) == Entry(streams, other)
  {
  }

  /** Console and file streams are independent: adding them in either
      order gives the same table. */
  lemma AddConsoleCommutes(streams: map<Severity, Streams>, sev: Severity, other: Severity, canonical: string)
    ensures AddConsole(AddFile(streams, other, canonical), sev) == AddFile(AddConsole(streams, sev), other, canonical)
  {
    if sev == other {
      assert Entry(AddConsole(streams, sev), sev).files == Entry(streams, sev).files;
    }
  }

  class ClientLoggerBuilder {
    var outputStreams: map<Severity, Streams>
    var format: string

    /** The builder's initial state, which is assumed: its constructor is
        not part of this model. */
    constructor(format: string)
      ensures outputStreams == map[] && this.format == format
    {
      outputStreams := map[];
      this.format := format;
    }

    /** The loop of add_file_stream that looks for the canonical path in
        the list. */
    static method Contains(list: seq<string>, canonical: string) returns (found: bool)
      ensures found <==> canonical in list
    {
      found := false;
      var i := 0;
      while i < |list|
        invariant 0 <= i <= |list|
        invariant canonical !in list[..i]
      {
        if list[i] == canonical {
          return true;
        }
        i := i + 1;
      }
      assert list[..i] == list;
    }

    /** add_file_stream: the severity's entry is created if missing; a
        canonical path already in the list is not added again; a new one is
        constructed as a refcounted_stream at the front of the list. When
        that stream cannot be opened the construction fails, after the
        entry was created. */
    method AddFileStream(sev: Severity, canonical: string, opens: bool) returns (r: Outcome<StreamError>)
      modifies this
      ensures format == old(format)
      ensures canonical in Entry(old(outputStreams), sev).files || opens ==>
        r == Pass && outputStreams == AddFile(old(outputStreams), sev, canonical)
      ensures !(canonical in Entry(old(outputStreams), sev).files || opens) ==>
        r == Fail(OpenFailed) && outputStreams == old(outputStreams)[sev := Entry(old(outputStreams), sev)]
    {
      if sev !in outputStreams {
        outputStreams := outputStreams[sev := Streams([], false)];
      }
      var list := outputStreams[sev].files;
      var found := Contains(list, canonical);
      if !found {
        if !opens {
          return Fail(OpenFailed);
        }
        outputStreams := outputStreams[sev := outputStreams[sev].(files := [canonical] + list)];
      }
      r := Pass;
    }

    /** add_console_stream: the entry is created if missing and its console
        flag set. */
    method AddConsoleStream(sev: Severity)
      modifies this
      ensures outputStreams == AddConsole(old(outputStreams), sev) && format == old(format)
    {
      if sev !in outputStreams {
        outputStreams := outputStreams[sev := Streams([], false)];
      }
      outputStreams := outputStreams[sev := outputStreams[sev].(console := true)];
    }

    /** clear: no streams, and the format back to "%m". */
    method Clear()
      modifies this
      ensures outputStreams == map[] && format == "%m"
    {
      outputStreams := map[];
      format := "%m";
    }

    method SetFormat(format: string)
      modifies this
      ensures this.format == format && outputStreams == old(outputStreams)
    {
      this.format := format;
    }

    /** set_destination: a client logger has no destination, so nothing
        changes. */
    method SetDestination(destination: string)
      ensures unchanged(this)
    {
    }
  }
}
