/** client_logger's formatting: the logger keeps its format string and
    make_format walks it with an iterator, writing plain characters and the
    texts of the directives into a string stream. */
module ClientLoggers {
  import opened LoggerFormat
  import opened ClientStreams
  import opened ClientLoggerBuilders

  /** The severities in declaration order. */
  const Severities: seq<Severity> := [Trace, Debug, Information, Warning, Error, Critical]

  /** The paths of the refcounted_streams in a stream map, severity by
      severity, each list in its own order. */
  function Paths(streams: map<Severity, Streams>, sevs: seq<Severity>): seq<string>
    decreases |sevs|
  {
    if sevs == [] then [] else Entry(streams, sevs[0]).files + Paths(streams, sevs[1..])
  }

  /** Every path some severity lists is among the paths copied. */
  lemma {:induction false} PathsListed(streams: map<Severity, Streams>, sevs: seq<Severity>, sev: Severity, p: string)
    requires sev in sevs && p in Entry(streams, sev).files
    ensures p in Paths(streams, sevs)
    decreases |sevs|
  {
    if sevs[0] != sev {
      PathsListed(streams, sevs[1..], sev, p);
    }
  }

  /** Every severity is listed in Severities. */
  lemma EverySeverity(sev: Severity)
    ensures sev in Severities
  {
    match sev
    case Trace => assert Severities[0] == sev;
    case Debug => assert Severities[1] == sev;
    case Information => assert Severities[2] == sev;
    case Warning => assert Severities[3] == sev;
    case Error => assert Severities[4] == sev;
    case Critical => assert Severities[5] == sev;
  }

  /** Copying the stream lists of live holders, severity by severity, into
      a new logger: the paths are in the table, so no copy throws
      out_of_range; the table stays balanced with the new logger as one more
      holder of each path; and every path a severity lists gains a count. */
  lemma CopyBalanced(table: map<string, nat>, held: multiset<string>, streams: map<Severity, Streams>, sevs: seq<Severity>)
    requires Balanced(table, held) && multiset(Paths(streams, sevs)) <= held
    ensures forall i | 0 <= i < |Paths(streams, sevs)| :: Paths(streams, sevs)[i] in table
    ensures Balanced(AcquireAll(table, Paths(streams, sevs)), held + multiset(Paths(streams, sevs)))
    ensures forall sev, p | sev in sevs && p in Entry(streams, sev).files ::
      p in table && AcquireAll(table, Paths(streams, sevs))[p] > table[p]
  {
    var ps := Paths(streams, sevs);
    forall i | 0 <= i < |ps|
      ensures ps[i] in table
    {
      assert ps[i] in multiset(ps);
    }
    AcquireAllBalanced(table, held, ps);
    AcquireAllCounts(table, ps);
    forall sev, p | sev in sevs && p in Entry(streams, sev).files
      ensures p in table && AcquireAll(table, ps)[p] > table[p]
    {
      PathsListed(streams, sevs, sev, p);
      assert p in multiset(ps);
    }
  }

  /** The logger: per severity, the paths of its refcounted_streams and the
      console flag, and the format string. */
  class ClientLogger {
    var format: string
    var streams: map<Severity, Streams>

    /** client_logger(streams, format): the stream map is copied, and the
        copy constructor of each refcounted_stream in it gives its path one
        more holder in the table. The paths must still be in the table, as
        they are while the streams that hold them live. */
    constructor(table: StreamTable, streams: map<Severity, Streams>, format: string)
      requires forall i | 0 <= i < |Paths(streams, Severities)| :: Paths(streams, Severities)[i] in table.streams
      modifies table
      ensures this.format == format && this.streams == streams
      ensures table.streams == AcquireAll(old(table.streams), Paths(streams, Severities))
    {
      this.format := format;
      this.streams := streams;
      table.streams := AcquireAll(table.streams, Paths(streams, Severities));
    }

    /** make_format: at '%' the next character is read as a flag and both
        are consumed; any other character is copied. */
    method MakeFormat(message: string, date: string, time: string, severity: string) returns (s: string)
      requires Complete(format)
      ensures s == Expand(format, Context(date, time, severity, message))
    {
      var ctx := Context(date, time, severity, message);
      s := "";
      var i := 0;
      while i < |format|
        invariant 0 <= i <= |format| && Complete(format[i..])
        invariant s + Expand(format[i..], ctx) == Expand(format, ctx)
      {
        var piece;
        if format[i] == '%' {
          var flag := CharToFlag(format[i + 1]);
          match flag {
            case Date => piece := date;
            case Time => piece := time;
            case SeverityFlag => piece := severity;
            case Message => piece := message;
            case NoFlag => piece := "";
          }
          ExpandStep(format, i, 2, s, piece, ctx);
          i := i + 1;
        } else {
          piece := [format[i]];
          ExpandStep(format, i, 1, s, piece, ctx);
        }
        s := s + piece;
        i := i + 1;
      }
    }
  }
}
