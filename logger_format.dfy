/** What client_logger and server_logger share: the severities that key
    their stream tables, the format flags, and the expansion of a format
    string that both make_format members perform. The current date and time
    and the severity's text are inputs (a Context) rather than clock reads
    and calls into the logger base. */
module LoggerFormat {

  /** logger::severity, in the order the logger base declares it. */
  datatype Severity = Trace | Debug | Information | Warning | Error | Critical

  /** The flag enum of both loggers. */
  datatype Flag = Date | Time | SeverityFlag | Message | NoFlag

  /** The letter that selects a flag after '%'. */
  function FlagLetter(f: Flag): char
    requires f != NoFlag
  {
    match f
    case Date => 'd'
    case Time => 't'
    case SeverityFlag => 's'
    case Message => 'm'
  }

  /** char_to_flag: the four letters select their flags and every other
      character gives NO_FLAG. */
  function CharToFlag(c: char): (r: Flag)
    ensures r != NoFlag <==> c == 'd' || c == 't' || c == 's' || c == 'm'
    ensures r != NoFlag ==> FlagLetter(r) == c
  {
    match c
    case 'd' => Date
    case 't' => Time
    case 's' => SeverityFlag
    case 'm' => Message
    case _ => NoFlag
  }

  /** Every flag is selected by its own letter. */
  lemma LetterSelectsFlag(f: Flag)
    requires f != NoFlag
    ensures CharToFlag(FlagLetter(f)) == f
  {
  }

  /** What make_format may write for a directive: the date and time strings
      of the moment, the severity's text and the message. */
  datatype Context = Context(date: string, time: string, severity: string, message: string)

  /** The text one directive "%c" expands to; an unknown letter gives
      nothing. */
  function Directive(c: char, ctx: Context): string
  {
    match CharToFlag(c)
    case Date => ctx.date
    case Time => ctx.time
    case SeverityFlag => ctx.severity
    case Message => ctx.message
    case NoFlag => ""
  }

  /** Read from the left, every '%' has a character after it. A format that
      ends in a '%' of its own makes make_format read past the end. */
  predicate Complete(format: string)
    decreases |format|
  {
    if format == [] then true
    else if format[0] == '%' then |format| >= 2 && Complete(format[2..])
    else Complete(format[1..])
  }

  /** The expansion of a format: characters other than '%' are copied, and
      '%' with the character after it is replaced by that directive's
      text. */
  function Expand(format: string, ctx: Context): string
    requires Complete(format)
    decreases |format|
  {
    if format == [] then ""
    else if format[0] == '%' then Directive(format[1], ctx) + Expand(format[2..], ctx)
    else [format[0]] + Expand(format[1..], ctx)
  }

  /** Expansion works piece by piece: two complete formats written one
      after the other expand to the two expansions one after the other. */
  lemma {:induction false} ExpandConcat(a: string, b: string, ctx: Context)
    requires Complete(a) && Complete(b)
    ensures Complete(a + b) && Expand(a + b, ctx) == Expand(a, ctx) + Expand(b, ctx)
    decreases |a|
  {
    if a == [] {
      assert a + b == b;
    } else {
      var k := if a[0] == '%' then 2 else 1;
      assert (a + b)[k..] == a[k..] + b;
      assert (a + b)[0] == a[0] && (a + b)[k - 1] == a[k - 1];
      ExpandConcat(a[k..], b, ctx);
    }
  }

  /** Text without '%' is copied verbatim. */
  lemma {:induction false} PlainVerbatim(s: string, ctx: Context)
    requires forall i | 0 <= i < |s| :: s[i] != '%'
    ensures Complete(s) && Expand(s, ctx) == s
    decreases |s|
  {
    if s != [] {
      PlainVerbatim(s[1..], ctx);
    }
  }

  /** Each directive on its own: the four known letters give their texts,
      and '%' with any other character gives nothing. */
  lemma DirectiveAlone(c: char, ctx: Context)
    ensures Complete(['%', c])
    ensures Expand(['%', c], ctx) ==
      if c == 'd' then ctx.date
      else if c == 't' then ctx.time
      else if c == 's' then ctx.severity
      else if c == 'm' then ctx.message
      else ""
  {
    assert ['%', c][2..] == [];
  }

  /** A format without "%m" expands the same way whatever the message. */
  lemma {:induction false} MessageUnused(format: string, ctx: Context, message: string)
    requires Complete(format)
    requires forall i | 0 <= i < |format| - 1 :: format[i] == '%' ==> format[i + 1] != 'm'
    ensures Expand(format, ctx.(message := message)) == Expand(format, ctx)
    decreases |format|
  {
    if format != [] {
      var k := if format[0] == '%' then 2 else 1;
      assert forall i | 0 <= i < |format[k..]| - 1 :: format[k..][i] == format[i + k];
      MessageUnused(format[k..], ctx, message);
    }
  }

  /** One step of make_format's loop: the directive or character at i,
      k characters wide, is written as piece after the text done so far,
      and what follows it is expanded next. */
  lemma ExpandStep(format: string, i: nat, k: nat, done: string, piece: string, ctx: Context)
    requires i < |format| && Complete(format[i..])
    requires k == if format[i] == '%' then 2 else 1
    requires format[i] == '%' ==> i + 1 < |format| && piece == Directive(format[i + 1], ctx)
    requires format[i] != '%' ==> piece == [format[i]]
    ensures i + k <= |format| && Complete(format[i + k..])
    ensures Expand(format[i..], ctx) == piece + Expand(format[i + k..], ctx)
    ensures done + Expand(format[i..], ctx) == (done + piece) + Expand(format[i + k..], ctx)
  {
    assert format[i..][k..] == format[i + k..];
  }
}
