/** server_logger: its format, its per-severity streams (the joined path
    strings the builder made) and the address of its log server. The HTTP
    requests it sends are not modelled, except for what the copy
    constructor and copy assignment announce for each severity: the paths
    they get back by splitting the joined string on ",". */
module ServerLoggers {
  import opened LoggerFormat
  import opened ServerLoggerBuilders

  /** The pieces between the commas of s, empty ones included: one more
      than there are commas. This is std::views::split(s, ",") except on
      the empty string, which gives one empty piece here where the split
      gives none; PathsOf drops empty pieces, so it is the same either way. */
  function Fields(s: string): (r: seq<string>)
    ensures |r| > 0
    ensures |r| == multiset(s)[','] + 1
    decreases |s|
  {
    if s == [] then [""]
    else
      assert multiset(s) == multiset{s[0]} + multiset(s[1..]) by { assert s == [s[0]] + s[1..]; }
      if s[0] == ',' then [""] + Fields(s[1..])
      else var rest := Fields(s[1..]); [[s[0]] + rest[0]] + rest[1..]
  }

  /** The fields that follow once token has been read: the token is
      glued to the front of the first one. */
  function Glue(token: string, fields: seq<string>): seq<string>
    requires |fields| > 0
  {
    [token + fields[0]] + fields[1..]
  }

  /** An empty token changes nothing, and at the end of the string the
      token is the last field. */
  lemma GlueEnds(token: string, fields: seq<string>)
    requires |fields| > 0
    ensures Glue("", fields) == fields
    ensures Glue(token, Fields("")) == [token]
  {
    assert "" + fields[0] == fields[0];
    assert token + "" == token;
  }

  /** The non-empty ones among pieces. */
  function NonEmpty(pieces: seq<string>): (r: seq<string>)
    ensures forall i | 0 <= i < |r| :: r[i] != ""
  {
    if pieces == [] then []
    else if pieces[0] == "" then NonEmpty(pieces[1..])
    else [pieces[0]] + NonEmpty(pieces[1..])
  }

  /** The paths the copy announces for one joined string. */
  function PathsOf(s: string): seq<string>
  {
    NonEmpty(Fields(s))
  }

  predicate CommaFree(s: string)
  {
    forall i | 0 <= i < |s| :: s[i] != ','
  }

  /** A piece without separators, followed by the rest: the piece is the
      first field. */
  lemma {:induction false} FieldsPrefix(p: string, rest: string)
    requires CommaFree(p)
    ensures Fields(p + rest) == Glue(p, Fields(rest))
    decreases |p|
  {
    if p == [] {
      assert p + rest == rest;
      assert p + Fields(rest)[0] == Fields(rest)[0];
    } else {
      assert (p + rest)[1..] == p[1..] + rest;
      FieldsPrefix(p[1..], rest);
      assert [p[0]] + (p[1..] + Fields(rest)[0]) == p + Fields(rest)[0];
    }
  }

  /** The join splits back into the paths it was made of. */
  lemma {:induction false} FieldsOfJoin(ps: seq<string>)
    requires ps != [] && forall i | 0 <= i < |ps| :: CommaFree(ps[i])
    ensures Fields(Join(ps)) == ps
    decreases |ps|
  {
    if |ps| == 1 {
      FieldsPrefix(ps[0], "");
      assert ps[0] + "" == ps[0];
    } else {
      FieldsOfJoin(ps[1..]);
      var tail := Separator + Join(ps[1..]);
      assert Join(ps) == ps[0] + tail;
      FieldsPrefix(ps[0], tail);
      assert tail[0] == ',' && tail[1..] == Join(ps[1..]);
      assert Fields(tail) == [""] + ps[1..];
      assert ps[0] + "" == ps[0];
      assert ps == [ps[0]] + ps[1..];
    }
  }

  lemma {:induction false} NonEmptyKeeps(ps: seq<string>)
    requires forall i | 0 <= i < |ps| :: ps[i] != ""
    ensures NonEmpty(ps) == ps
    decreases |ps|
  {
    if ps != [] {
      NonEmptyKeeps(ps[1..]);
    }
  }

  /** Splitting what the builder joined gives back the paths, in the order
      they were added, when none is empty and none holds a ",". */
  lemma SplitJoinRoundTrip(ps: seq<string>)
    requires forall i | 0 <= i < |ps| :: ps[i] != "" && CommaFree(ps[i])
    ensures PathsOf(Join(ps)) == ps
  {
    if ps != [] {
      FieldsOfJoin(ps);
      NonEmptyKeeps(ps);
    }
  }

  /** NonEmpty distributes over concatenation. */
  lemma {:induction false} NonEmptyConcat(a: seq<string>, b: seq<string>)
    ensures NonEmpty(a + b) == NonEmpty(a) + NonEmpty(b)
    decreases |a|
  {
    if a == [] {
      assert a + b == b;
    } else {
      assert (a + b)[1..] == a[1..] + b;
      NonEmptyConcat(a[1..], b);
    }
  }

  /** The loop over the split of one joined string: characters build up
      the current token, and a separator or the end closes it; only
      non-empty tokens are kept. */
  method SplitPaths(s: string) returns (tokens: seq<string>)
    ensures tokens == PathsOf(s)
  {
    tokens := [];
    var token := "";
    var i := 0;
    assert s[i..] == s;
    GlueEnds(token, Fields(s));
    while i < |s|
      invariant 0 <= i <= |s| && CommaFree(token)
      invariant PathsOf(s) == tokens + NonEmpty(Glue(token, Fields(s[i..])))
    {
      CloseStep(s, i, token);
      if s[i] == ',' {
        if token != "" {
          tokens := tokens + [token];
        }
        token := "";
      } else {
        token := token + [s[i]];
      }
      i := i + 1;
    }
    assert s[i..] == [];
    GlueEnds(token, Fields(s));
    if token != "" {
      tokens := tokens + [token];
    }
  }

  /** One character of the split: a separator closes the token, any other
      character extends it. */
  lemma CloseStep(s: string, i: nat, token: string)
    requires i < |s|
    ensures s[i] == ',' ==> NonEmpty(Glue(token, Fields(s[i..]))) == (if token == "" then [] else [token]) + NonEmpty(Glue("", Fields(s[i + 1..])))
    ensures s[i] != ',' ==> Glue(token, Fields(s[i..])) == Glue(token + [s[i]], Fields(s[i + 1..]))
  {
    var rest := Fields(s[i + 1..]);
    assert s[i..][1..] == s[i + 1..];
    if s[i] == ',' {
      assert Fields(s[i..]) == [""] + rest;
      assert token + "" == token;
      assert "" + rest[0] == rest[0];
      assert [rest[0]] + rest[1..] == rest;
      NonEmptyConcat([token], rest);
    } else {
      assert token + ([s[i]] + rest[0]) == (token + [s[i]]) + rest[0];
    }
  }

  /** What the copy announces for one severity: its paths and its console
      flag. */
  datatype Init = Init(paths: seq<string>, console: bool)

  class ServerLogger {
    var format: string
    var streams: map<Severity, Streams>
    var destination: string

    /** The constructor build uses. Its /destroy and /init requests are
        not modelled. */
    constructor(destination: string, streams: map<Severity, Streams>, format: string)
      ensures this.destination == destination && this.streams == streams && this.format == format
    {
      this.destination := destination;
      this.streams := streams;
      this.format := format;
    }

    /** The copy constructor: the format, the streams and the server are
        copied. */
    constructor Copy(other: ServerLogger)
      ensures destination == other.destination && streams == other.streams && format == other.format
    {
      destination := other.destination;
      streams := other.streams;
      format := other.format;
    }

    /** The /init request each severity gets from a copy: the split of its
        joined paths, empty pieces dropped, and its console flag. */
    method InitRequests() returns (requests: map<Severity, Init>)
      ensures requests.Keys == streams.Keys
      ensures forall sev | sev in streams :: requests[sev] == Init(PathsOf(streams[sev].paths), streams[sev].console)
    {
      requests := map[];
      var left := streams.Keys;
      while left != {}
        invariant left <= streams.Keys && requests.Keys == streams.Keys - left
        invariant forall sev | sev in requests :: requests[sev] == Init(PathsOf(streams[sev].paths), streams[sev].console)
        decreases left
      {
        var sev :| sev in left;
        var paths := SplitPaths(streams[sev].paths);
        requests := requests[sev := Init(paths, streams[sev].console)];
        left := left - {sev};
      }
    }

    /** Copy assignment: unless it is self-assignment, the fields are
        copied and every severity announced again. */
    method CopyAssign(other: ServerLogger) returns (requests: map<Severity, Init>)
      modifies this
      ensures this == other ==> requests == map[] && unchanged(this)
      ensures this != other ==> destination == other.destination && streams == other.streams && format == other.format
      ensures this != other ==> requests.Keys == streams.Keys
      ensures this != other ==> forall sev | sev in streams :: requests[sev] == Init(PathsOf(streams[sev].paths), streams[sev].console)
    {
      requests := map[];
      if this != other {
        destination := other.destination;
        format := other.format;
        streams := other.streams;
        requests := InitRequests();
      }
    }

    /** The move constructor: everything is taken over; the source is left
        with no streams, the default server and an empty (moved-from)
        format. */
    constructor Move(other: ServerLogger)
      modifies other
      ensures destination == old(other.destination) && streams == old(other.streams) && format == old(other.format)
      ensures other.streams == map[] && other.destination == DefaultDestination && other.format == ""
    {
      destination := other.destination;
      format := other.format;
      streams := other.streams;
      new;
      other.format := "";
      other.streams := map[];
      other.destination := DefaultDestination;
    }

    /** Move assignment, which has no self-assignment check: the fields are
        taken over and the source's streams emptied afterwards, so moving a
        logger into itself leaves it without streams. */
    method MoveAssign(other: ServerLogger)
      modifies this, other
      ensures other.streams == map[] && other.destination == DefaultDestination
      ensures this != other ==> destination == old(other.destination) && streams == old(other.streams) && format == old(other.format)
      ensures this != other ==> other.format == ""
      ensures this == other ==> format == old(format)
    {
      var taken := other.format;
      destination := other.destination;
      streams := other.streams;
      other.format := "";
      format := taken;
      other.streams := map[];
      other.destination := DefaultDestination;
    }

    /** make_format: at '%' the iterator moves to the next character, which
        is read as a flag; any other character is copied. */
    method MakeFormat(message: string, date: string, time: string, severity: string) returns (s: string)
      requires Complete(format)
      ensures s == Expand(format, Context(date, time, severity, message))
    {
      var ctx := Context(date, time, severity, message);
      s := "";
      var i := 0;
      while i < |format|
        invariant 0 <= i <= |format| && Complete(format[i..])
        invariant s + Expand(format[i..], ctx) == Expand(format, ctx)
      {
        var piece;
        if format[i] == '%' {
          var start := i;
          i := i + 1;
          var flag := CharToFlag(format[i]);
          match flag {
            case Date => piece := date;
            case Time => piece := time;
            case SeverityFlag => piece := severity;
            case Message => piece := message;
            case NoFlag => piece := "";
          }
          assert piece == Directive(format[start + 1], ctx);
          ExpandStep(format, start, 2, s, piece, ctx);
        } else {
          piece := [format[i]];
          ExpandStep(format, i, 1, s, piece, ctx);
        }
        s := s + piece;
        i := i + 1;
      }
    }
  }
}
