/** server_logger_builder: per severity, the file paths joined into one
    string with server_logger's separator "," and a console flag; the format
    string; and the address of the log server. */
module ServerLoggerBuilders {
  import opened LoggerFormat

  /** The joined paths and the console flag of one severity. */
  datatype Streams = Streams(paths: string, console: bool)

  /** server_logger::_separator. */
  const Separator: string := ","

  /** The destination clear restores. */
  const DefaultDestination: string := "http://127.0.0.1:9200"

  /** Paths written one after another with a separator between each two. */
  function Join(ps: seq<string>): string
  {
    if ps == [] then ""
    else if |ps| == 1 then ps[0]
    else ps[0] + Separator + Join(ps[1..])
  }

  /** One path added to a joined string: the separator goes in front of it
      unless the string is empty. */
  function Append(joined: string, path: string): string
  {
    if joined == "" then path else joined + Separator + path
  }

  /** Appending to the join of non-empty paths joins one path more. (An
      empty first path would be lost: the string is still empty after it,
      so no separator follows.) */
  lemma {:induction false} AppendJoin(ps: seq<string>, p: string)
    requires forall i | 0 <= i < |ps| :: ps[i] != ""
    ensures Append(Join(ps), p) == Join(ps + [p])
    decreases |ps|
  {
    if |ps| == 1 {
      assert ps + [p] == [ps[0], p];
      assert (ps + [p])[1..] == [p];
    } else if |ps| > 1 {
      AppendJoin(ps[1..], p);
      assert (ps + [p])[1..] == ps[1..] + [p];
    }
  }

  function Entry(streams: map<Severity, Streams>, sev: Severity): Streams
  {
    if sev in streams then streams[sev] else Streams("", false)
  }

  /** The table after add_file_stream. */
  function AddFile(streams: map<Severity, Streams>, sev: Severity, path: string): map<Severity, Streams>
  {
    var e := Entry(streams, sev);
    streams[sev := e.(paths := Append(e.paths, path))]
  }

  /** The table after add_console_stream. */
  function AddConsole(streams: map<Severity, Streams>, sev: Severity): map<Severity, Streams>
  {
    streams[sev := Entry(streams, sev).(console := true)]
  }

  /** The table after add_file_stream with each of ps in turn. */
  function AddFiles(streams: map<Severity, Streams>, sev: Severity, ps: seq<string>): map<Severity, Streams>
    decreases |ps|
  {
    if ps == [] then streams else AddFiles(AddFile(streams, sev, ps[0]), sev, ps[1..])
  }

  /** add_file_stream leaves the console flag and every other severity as
      they were. */
  lemma AddFileKeeps(streams: map<Severity, Streams>, sev: Severity, path: string, other: Severity)
    ensures Entry(AddFile(streams, sev, path), sev).console == Entry(streams, sev).console
    ensures other != sev ==> Entry(AddFile(streams, sev, path), other) == Entry(streams, other)
  {
  }

  /** Adding non-empty paths one by one to the join of earlier non-empty
      paths (none at all for a new entry) gives the join of all of them in
      call order, and the console flag does not change. */
  lemma {:induction false} AddFilesJoin(streams: map<Severity, Streams>, sev: Severity, done: seq<string>, ps: seq<string>)
    requires Entry(streams, sev).paths == Join(done)
    requires forall i | 0 <= i < |done| :: done[i] != ""
    requires forall i | 0 <= i < |ps| :: ps[i] != ""
    ensures Entry(AddFiles(streams, sev, ps), sev).paths == Join(done + ps)
    ensures Entry(AddFiles(streams, sev, ps), sev).console == Entry(streams, sev).console
    decreases |ps|
  {
    if ps == [] {
      assert done + ps == done;
    } else {
      AppendJoin(done, ps[0]);
      assert done + ps == (done + [ps[0]]) + ps[1..];
      AddFilesJoin(AddFile(streams, sev, ps[0]), sev, done + [ps[0]], ps[1..]);
    }
  }

  /** add_console_stream sets the flag and changes no paths. */
  lemma AddConsoleKeeps(streams: map<Severity, Streams>, sev: Severity, other: Severity)
    ensures Entry(AddConsole(streams, sev), sev).console
    ensures Entry(AddConsole(streams, sev), other).paths == Entry(streams, other).paths
    ensures other != sev ==> Entry(AddConsole(streams, sev), other) == Entry(streams, other)
  {
  }

  class ServerLoggerBuilder {
    var outputStreams: map<Severity, Streams>
    var format: string
    var destination: string

    /** The builder's initial state, which is assumed: its constructor is
        not part of this model. */
    constructor(format: string, destination: string)
      ensures outputStreams == map[] && this.format == format && this.destination == destination
    {
      outputStreams := map[];
      this.format := format;
      this.destination := destination;
    }

    /** add_file_stream: the entry ("", false) is created if missing, and
        the path appended to its string, after a separator when the string
        is not empty. */
    method AddFileStream(path: string, sev: Severity)
      modifies this
      ensures outputStreams == AddFile(old(outputStreams), sev, path)
      ensures format == old(format) && destination == old(destination)
    {
      if sev !in outputStreams {
        outputStreams := outputStreams[sev := Streams("", false)];
      }
      var paths := outputStreams[sev].paths;
      assert paths == Entry(old(outputStreams), sev).paths;
      if paths != "" {
        paths := paths + Separator;
      }
      paths := paths + path;
      assert paths == Append(Entry(old(outputStreams), sev).paths, path);
      outputStreams := outputStreams[sev := outputStreams[sev].(paths := paths)];
    }

    /** add_console_stream: the entry is created if missing and its flag
        set. */
    method AddConsoleStream(sev: Severity)
      modifies this
      ensures outputStreams == AddConsole(old(outputStreams), sev)
      ensures format == old(format) && destination == old(destination)
    {
      if sev !in outputStreams {
        outputStreams := outputStreams[sev := Streams("", false)];
      }
      outputStreams := outputStreams[sev := outputStreams[sev].(console := true)];
    }

    /** clear: no streams and the default destination; the format stays. */
    method Clear()
      modifies this
      ensures outputStreams == map[] && destination == DefaultDestination && format == old(format)
    {
      destination := DefaultDestination;
      outputStreams := map[];
    }

    method SetDestination(destination: string)
      modifies this
      ensures this.destination == destination
      ensures outputStreams == old(outputStreams) && format == old(format)
    {
      this.destination := destination;
    }

    method SetFormat(format: string)
      modifies this
      ensures this.format == format
      ensures outputStreams == old(outputStreams) && destination == old(destination)
    {
      this.format := format;
    }
  }
}
