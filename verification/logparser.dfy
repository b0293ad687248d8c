/** Parsing one process's log into events: `eventsFromLog` and
    `eventFromString` of traceFromLogs (trace.js:61-141). A log is text with
    one comma-separated event per line:
      send,<time>,<recipient>[,<title>],<data>
      receive,<time>,<departure>,<sender>
      log,<time>[,<title>],<data>
    where titles and data are encoded payloads. */
module LogParser {
  import opened Wrappers
  import opened Text
  import opened Events

  /** The conversions the parser borrows from its environment: `Number(...)`
      on a timestamp field, and the payload decoding of trace.js:143-145
      (base64, then UTF-8), which fails on malformed input. */
  datatype Codec = Codec(number: string -> int, decode: string -> Option<string>)

  datatype ParseError =
    /** The first field is none of `send`, `receive`, `log` (line 136). */
    | UnknownEventType(kind: string)
    /** A line has too few fields for its kind. */
    | MissingField(line: string)
    /** A payload field does not decode. */
    | UndecodablePayload(field: string)
    /** Two events of one log share a timestamp (lines 67-68). */
    | DuplicateLocalTimestamps(log: string)

  function DecodeField(c: Codec, field: string): (r: Result<Option<string>, ParseError>)
    ensures r.Success? <==> c.decode(field).Some?
    ensures r.Success? ==> r.value == c.decode(field)
    ensures r.Failure? ==> r.error == UndecodablePayload(field)
  {
    match c.decode(field)
    case None => Failure(UndecodablePayload(field))
    case Some(text) => Success(Some(text))
  }

  /** `eventFromString`: one line of the log of `process`. A send with exactly
      five fields and a log entry with exactly four carry a title before the
      data; otherwise the data field comes right after the recipient (send)
      or the time (log) and further fields are ignored. A receive never has
      data or a title of its own. */
  function ParseLine(c: Codec, process: string, line: string): (r: Result<Event, ParseError>)
    ensures r.Success? ==> r.value.process == process && r.value.arrival.None?
    ensures r.Success? ==> |Split(line, ',')| >= 3 && r.value.time == c.number(Split(line, ',')[1])
    ensures r.Success? && r.value.Receive? ==> r.value.data.None? && r.value.title.None?
    ensures r.Success? && !r.value.Receive? ==> r.value.data.Some?
    ensures r.Success? ==>
      && (r.value.Send? <==> Split(line, ',')[0] == "send")
      && (r.value.Receive? <==> Split(line, ',')[0] == "receive")
      && (r.value.Log? <==> Split(line, ',')[0] == "log")
    ensures r.Failure? && r.error.UnknownEventType? <==> Split(line, ',')[0] !in {"send", "receive", "log"}
    ensures r.Failure? ==> !r.error.DuplicateLocalTimestamps?
  {
    var v := Split(line, ',');
    var kind := v[0];
    if kind == "send" then
      if |v| < 4 then Failure(MissingField(line))
      else if |v| == 5 then
        var data :- DecodeField(c, v[4]);
        var title :- DecodeField(c, v[3]);
        Success(Send(c.number(v[1]), process, v[2], data, title, None))
      else
        var data :- DecodeField(c, v[3]);
        Success(Send(c.number(v[1]), process, v[2], data, None, None))
    else if kind == "receive" then
      if |v| < 4 then Failure(MissingField(line))
      else Success(Receive(c.number(v[1]), process, v[3], c.number(v[2]), None, None, None))
    else if kind == "log" then
      if |v| < 3 then Failure(MissingField(line))
      else if |v| == 4 then
        var data :- DecodeField(c, v[3]);
        var title :- DecodeField(c, v[2]);
        Success(Log(c.number(v[1]), process, data, title, None))
      else
        var data :- DecodeField(c, v[2]);
        Success(Log(c.number(v[1]), process, data, None, None))
    else Failure(UnknownEventType(kind))
  }

  /** Which field of the line becomes which part of the event, and why a line
      of a known kind is rejected: too few fields for its kind, or a payload
      field that does not decode. */
  lemma ParseLineFields(c: Codec, process: string, line: string)
    ensures var r, v := ParseLine(c, process, line), Split(line, ',');
      r.Success? && r.value.Send? ==>
        && |v| >= 4 && r.value.recipient == v[2]
        && if |v| == 5 then r.value.title == c.decode(v[3]) && r.value.data == c.decode(v[4])
           else r.value.title.None? && r.value.data == c.decode(v[3])
    ensures var r, v := ParseLine(c, process, line), Split(line, ',');
      r.Success? && r.value.Receive? ==>
        |v| >= 4 && r.value.sender == v[3] && r.value.departure == c.number(v[2])
    ensures var r, v := ParseLine(c, process, line), Split(line, ',');
      r.Success? && r.value.Log? ==>
        if |v| == 4 then r.value.title == c.decode(v[2]) && r.value.data == c.decode(v[3])
        else r.value.title.None? && r.value.data == c.decode(v[2])
    ensures var r, v := ParseLine(c, process, line), Split(line, ',');
      r.Failure? && r.error.MissingField? <==>
        ((v[0] == "send" || v[0] == "receive") && |v| < 4) || (v[0] == "log" && |v| < 3)
    ensures var r, v := ParseLine(c, process, line), Split(line, ',');
      r.Failure? && r.error.UndecodablePayload? ==>
        && c.decode(r.error.field).None?
        && exists k | 2 <= k < |v| :: v[k] == r.error.field
  {
  }

  /** The lines of a log, mapped in order; the first line that fails decides
      the error. */
  function ParseLines(c: Codec, process: string, lines: seq<string>): (r: Result<seq<Event>, ParseError>)
    ensures r.Success? ==> |r.value| == |lines|
    ensures r.Failure? ==> !r.error.DuplicateLocalTimestamps?
    decreases |lines|
  {
    if |lines| == 0 then Success([])
    else
      var event :- ParseLine(c, process, lines[0]);
      var rest :- ParseLines(c, process, lines[1..]);
      Success([event] + rest)
  }

  /** Lines parse exactly when each line does, each to its own event; when
      they do not, the error is that of the first line that fails. */
  lemma {:induction false} ParseLinesSpec(c: Codec, process: string, lines: seq<string>)
    ensures ParseLines(c, process, lines).Success? <==> forall k | 0 <= k < |lines| :: ParseLine(c, process, lines[k]).Success?
    ensures ParseLines(c, process, lines).Success? ==>
      forall k | 0 <= k < |lines| :: ParseLine(c, process, lines[k]) == Success(ParseLines(c, process, lines).value[k])
    ensures ParseLines(c, process, lines).Failure? ==> exists k | 0 <= k < |lines| ::
      && ParseLine(c, process, lines[k]) == Failure(ParseLines(c, process, lines).error)
      && forall m | 0 <= m < k :: ParseLine(c, process, lines[m]).Success?
    decreases |lines|
  {
    if |lines| > 0 {
      var r := ParseLines(c, process, lines);
      var first := ParseLine(c, process, lines[0]);
      var tail := lines[1..];
      var rest := ParseLines(c, process, tail);
      ParseLinesSpec(c, process, tail);
      assert forall k | 1 <= k < |lines| :: lines[k] == tail[k - 1];
      if first.Failure? {
        assert r == Failure(first.error);
      } else if rest.Failure? {
        assert r == Failure(rest.error);
        var k :| 0 <= k < |tail| && ParseLine(c, process, tail[k]) == Failure(rest.error)
          && forall m | 0 <= m < k :: ParseLine(c, process, tail[m]).Success?;
        assert ParseLine(c, process, lines[k + 1]) == Failure(r.error);
        forall m | 0 <= m < k + 1
          ensures ParseLine(c, process, lines[m]).Success?
        {
          if m > 0 {
            assert lines[m] == tail[m - 1];
          }
        }
      } else {
        assert r == Success([first.value] + rest.value);
        forall k | 0 <= k < |lines|
          ensures ParseLine(c, process, lines[k]) == Success(r.value[k])
        {
          if k > 0 {
            assert lines[k] == tail[k - 1] && r.value[k] == rest.value[k - 1];
          }
        }
      }
    }
  }

  /** The lines that are not empty (`filter(hasChars)`), in order. */
  function NonEmpty(lines: seq<string>): (r: seq<string>)
    ensures forall k | 0 <= k < |r| :: r[k] != "" && r[k] in lines
    ensures forall l | l in lines && l != "" :: l in r
    ensures (forall k | 0 <= k < |lines| :: lines[k] != "") ==> r == lines
    decreases |lines|
  {
    if |lines| == 0 then []
    else
      var rest := NonEmpty(lines[1..]);
      assert forall l | l in lines :: l == lines[0] || l in lines[1..];
      if lines[0] == "" then rest else [lines[0]] + rest
  }

  /** Filtering a concatenation filters each part in place, so the kept lines
      keep their order. */
  lemma {:induction false} NonEmptyAppend(a: seq<string>, b: seq<string>)
    ensures NonEmpty(a + b) == NonEmpty(a) + NonEmpty(b)
    decreases |a|
  {
    if |a| == 0 {
      assert a + b == b;
    } else {
      assert (a + b)[0] == a[0] && (a + b)[1..] == a[1..] + b;
      NonEmptyAppend(a[1..], b);
    }
  }

  /** Every non-empty line is kept as often as it occurs, and no empty one. */
  lemma {:induction false} NonEmptyCount(lines: seq<string>)
    ensures forall l :: multiset(NonEmpty(lines))[l] == if l == "" then 0 else multiset(lines)[l]
    decreases |lines|
  {
    if |lines| > 0 {
      NonEmptyCount(lines[1..]);
      assert lines == [lines[0]] + lines[1..];
      assert multiset(lines) == multiset{lines[0]} + multiset(lines[1..]);
    }
  }

  // ---------------------------------------------------------------------------
  // The duplicate-timestamp test (lines 73-78): `_.uniq` of the times has
  // fewer entries than the times themselves
  // ---------------------------------------------------------------------------

  function Times(events: seq<Event>): (r: seq<int>)
    ensures |r| == |events|
    ensures forall k | 0 <= k < |events| :: r[k] == events[k].time
  {
    seq(|events|, k requires 0 <= k < |events| => events[k].time)
  }

  predicate Distinct(xs: seq<int>) {
    forall i, j | 0 <= i < j < |xs| :: xs[i] != xs[j]
  }

  /** `_.uniq`: the first occurrence of each value, in order. */
  function Uniq(xs: seq<int>): (r: seq<int>)
    ensures forall x :: x in r <==> x in xs
    ensures Distinct(r)
    ensures |r| <= |xs|
    decreases |xs|
  {
    if |xs| == 0 then []
    else
      var last := xs[|xs| - 1];
      var rest := Uniq(xs[..|xs| - 1]);
      assert forall x | x in xs :: x == last || x in xs[..|xs| - 1];
      if last in rest then rest else rest + [last]
  }

  /** Deduplicating keeps every entry exactly when the entries are distinct. */
  lemma {:induction false} UniqKeepsAllIffDistinct(xs: seq<int>)
    ensures |Uniq(xs)| == |xs| <==> Distinct(xs)
    decreases |xs|
  {
    if |xs| > 0 {
      var init := xs[..|xs| - 1];
      var last := xs[|xs| - 1];
      UniqKeepsAllIffDistinct(init);
      if Distinct(xs) {
        assert Distinct(init) by {
          forall i, j | 0 <= i < j < |init|
            ensures init[i] != init[j]
          {
            assert init[i] == xs[i] && init[j] == xs[j];
          }
        }
        assert last !in init by {
          forall i | 0 <= i < |init|
            ensures init[i] != last
          {
            assert init[i] == xs[i];
          }
        }
      }
      if |Uniq(xs)| == |xs| {
        assert last !in Uniq(init);
        assert Distinct(init);
        forall i, j | 0 <= i < j < |xs|
          ensures xs[i] != xs[j]
        {
          assert xs[i] == init[i];
          if j < |xs| - 1 {
            assert xs[j] == init[j];
          }
        }
      }
    }
  }

  predicate HasDuplicateTimes(events: seq<Event>) {
    |Times(events)| != |Uniq(Times(events))|
  }

  /** The test finds a repeated timestamp exactly when there is one. */
  lemma DuplicateTimesFound(events: seq<Event>)
    ensures HasDuplicateTimes(events) <==> !Distinct(Times(events))
  {
    UniqKeepsAllIffDistinct(Times(events));
  }

  /** The non-empty lines of a log once it is trimmed and split at line
      breaks (a line break is `\n` with an optional `\r` before it). */
  function LogLines(log: string): (r: seq<string>)
    ensures forall k | 0 <= k < |r| :: r[k] != "" && '\n' !in r[k]
  {
    var r := NonEmpty(Lines(Trim(log)));
    assert forall k | 0 <= k < |r| :: r[k] in Lines(Trim(log));
    r
  }

  /** `eventsFromLog`: parse every non-empty line of the trimmed log, and
      reject the log if two of its events share a timestamp. */
  function ParseLog(c: Codec, process: string, log: string): Result<seq<Event>, ParseError> {
    var events :- ParseLines(c, process, LogLines(log));
    if HasDuplicateTimes(events) then Failure(DuplicateLocalTimestamps(log))
    else Success(events)
  }

  /** A log parses exactly when its lines do and no two of their events
      share a timestamp; the events are then the lines' events. */
  lemma ParseLogSpec(c: Codec, process: string, log: string)
    ensures ParseLog(c, process, log).Success? <==>
      ParseLines(c, process, LogLines(log)).Success? && Distinct(Times(ParseLines(c, process, LogLines(log)).value))
    ensures ParseLog(c, process, log).Success? ==> ParseLog(c, process, log).value == ParseLines(c, process, LogLines(log)).value
    ensures ParseLog(c, process, log).Failure? && ParseLog(c, process, log).error.DuplicateLocalTimestamps? ==>
      ParseLog(c, process, log).error.log == log
  {
    var lines := ParseLines(c, process, LogLines(log));
    if lines.Success? {
      DuplicateTimesFound(lines.value);
    }
  }

  /** Every event of a parsed log belongs to that log's process and has no
      arrival yet. */
  lemma ParseLogProcess(c: Codec, process: string, log: string)
    ensures ParseLog(c, process, log).Success? ==>
      forall e | e in ParseLog(c, process, log).value :: e.process == process && e.arrival.None?
  {
    if ParseLog(c, process, log).Failure? {
      return;
    }
    var lines := LogLines(log);
    var events := ParseLog(c, process, log).value;
    ParseLogSpec(c, process, log);
    ParseLinesSpec(c, process, lines);
    forall e | e in events
      ensures e.process == process && e.arrival.None?
    {
      var k :| 0 <= k < |events| && events[k] == e;
      assert ParseLine(c, process, lines[k]) == Success(e);
    }
  }

  /** An empty or blank-only log has no events. */
  lemma BlankLogHasNoEvents(c: Codec, process: string, log: string)
    requires Blank(log)
    ensures ParseLog(c, process, log) == Success([])
  {
    assert Trim(log) == "";
    assert Lines("") == [""];
  }

  // ---------------------------------------------------------------------------
  // The writer's side: the format a log line is written in
  // ---------------------------------------------------------------------------

  /** The encoders a log writer uses: timestamps in decimal and payloads in
      base64. */
  datatype Printer = Printer(show: int -> string, encode: string -> string)

  /** A field with no comma and no whitespace (base64 text and decimal numbers
      are like this, and so are the process ids). */
  predicate Plain(s: string) {
    forall k | 0 <= k < |s| :: s[k] != ',' && !IsWhitespace(s[k])
  }

  /** `p` writes what `c` reads back. */
  ghost predicate Inverse(c: Codec, p: Printer) {
    && (forall n :: c.number(p.show(n)) == n && Plain(p.show(n)))
    && (forall s :: c.decode(p.encode(s)) == Some(s) && Plain(p.encode(s)))
  }

  /** The fields of the line that records `e`. */
  function Fields(p: Printer, e: Event): seq<string> {
    var payload := if e.data.Some? then e.data.value else "";
    match e
    case Send(time, _, recipient, _, title, _) =>
      ["send", p.show(time), recipient] + (if title.Some? then [p.encode(title.value)] else []) + [p.encode(payload)]
    case Receive(time, _, sender, departure, _, _, _) =>
      ["receive", p.show(time), p.show(departure), sender]
    case Log(time, _, _, title, _) =>
      ["log", p.show(time)] + (if title.Some? then [p.encode(title.value)] else []) + [p.encode(payload)]
  }

  function FormatLine(p: Printer, e: Event): string {
    Join(Fields(p, e), ',')
  }

  function FormattedLines(p: Printer, events: seq<Event>): (r: seq<string>)
    ensures |r| == |events|
    ensures forall k | 0 <= k < |events| :: r[k] == FormatLine(p, events[k])
  {
    seq(|events|, k requires 0 <= k < |events| => FormatLine(p, events[k]))
  }

  /** The log that records `events`, one line each. */
  function FormatLog(p: Printer, events: seq<Event>): string {
    if |events| == 0 then "" else Join(FormattedLines(p, events), '\n')
  }

  /** An event of `process` as the parser produces it: no arrival yet, a
      payload on sends and log entries, none on receives, and plain process
      ids. */
  predicate Recordable(process: string, e: Event) {
    && e.process == process
    && e.arrival.None?
    && match e
       case Send(_, _, recipient, data, _, _) => data.Some? && Plain(recipient)
       case Receive(_, _, sender, _, data, title, _) => data.None? && title.None? && Plain(sender)
       case Log(_, _, data, _, _) => data.Some?
  }

  lemma FieldsPlain(c: Codec, p: Printer, e: Event, process: string)
    requires Inverse(c, p) && Recordable(process, e)
    ensures |Fields(p, e)| >= 3
    ensures forall k | 0 <= k < |Fields(p, e)| :: Plain(Fields(p, e)[k])
  {
    var f := Fields(p, e);
    assert Plain("send") && Plain("receive") && Plain("log");
    if e.title.Some? {
      assert Plain(p.encode(e.title.value));
    }
    assert Plain(p.encode(if e.data.Some? then e.data.value else ""));
    assert Plain(p.show(e.time));
    if e.Receive? {
      assert Plain(p.show(e.departure));
    }
  }

  /** Parsing a written line gives back the event. */
  lemma ParseFormatLine(c: Codec, p: Printer, process: string, e: Event)
    requires Inverse(c, p) && Recordable(process, e)
    ensures ParseLine(c, process, FormatLine(p, e)) == Success(e)
  {
    var f := Fields(p, e);
    FieldsPlain(c, p, e, process);
    forall k | 0 <= k < |f|
      ensures ',' !in f[k]
    {
      assert Plain(f[k]);
    }
    SplitJoin(f, ',');
    assert c.number(p.show(e.time)) == e.time;
    if e.title.Some? {
      assert c.decode(p.encode(e.title.value)) == e.title;
    }
    if e.data.Some? {
      assert c.decode(p.encode(e.data.value)) == e.data;
    }
    if e.Receive? {
      assert c.number(p.show(e.departure)) == e.departure;
    }
  }

  /** A written line is never blank at either end and holds no line break. */
  lemma FormatLinePlain(c: Codec, p: Printer, process: string, e: Event)
    requires Inverse(c, p) && Recordable(process, e)
    ensures |FormatLine(p, e)| > 0
    ensures forall k | 0 <= k < |FormatLine(p, e)| :: !IsWhitespace(FormatLine(p, e)[k])
  {
    var f := Fields(p, e);
    FieldsPlain(c, p, e, process);
    forall i | 0 <= i < |FormatLine(p, e)|
      ensures !IsWhitespace(FormatLine(p, e)[i])
    {
      JoinChars(f, ',', i);
    }
    assert |f[0]| > 0;
  }

  /** Reading a written log back yields the written lines. */
  lemma LogLinesOfFormatLog(c: Codec, p: Printer, process: string, events: seq<Event>)
    requires Inverse(c, p)
    requires forall k | 0 <= k < |events| :: Recordable(process, events[k])
    requires |events| > 0
    ensures LogLines(FormatLog(p, events)) == FormattedLines(p, events)
  {
    var ls := FormattedLines(p, events);
    var log := FormatLog(p, events);
    forall k | 0 <= k < |ls|
      ensures |ls[k]| > 0 && '\n' !in ls[k] && '\r' !in ls[k]
      ensures !IsWhitespace(ls[k][0]) && !IsWhitespace(ls[k][|ls[k]| - 1])
    {
      FormatLinePlain(c, p, process, events[k]);
      assert IsWhitespace('\n') && IsWhitespace('\r');
    }
    JoinEnds(ls, '\n');
    TrimUnpadded(log);
    LinesJoin(ls);
  }

  lemma ParseFormattedLines(c: Codec, p: Printer, process: string, events: seq<Event>)
    requires Inverse(c, p)
    requires forall k | 0 <= k < |events| :: Recordable(process, events[k])
    ensures ParseLines(c, process, FormattedLines(p, events)) == Success(events)
  {
    var ls := FormattedLines(p, events);
    forall k | 0 <= k < |ls|
      ensures ParseLine(c, process, ls[k]) == Success(events[k])
    {
      ParseFormatLine(c, p, process, events[k]);
    }
    ParseLinesSpec(c, process, ls);
    assert ParseLines(c, process, ls).value == events;
  }

  /** Parsing a written log gives back its events, provided no two of them
      share a timestamp. */
  lemma ParseFormatLog(c: Codec, p: Printer, process: string, events: seq<Event>)
    requires Inverse(c, p)
    requires forall k | 0 <= k < |events| :: Recordable(process, events[k])
    requires Distinct(Times(events))
    ensures ParseLog(c, process, FormatLog(p, events)) == Success(events)
  {
    if |events| == 0 {
      assert Blank(FormatLog(p, events));
      BlankLogHasNoEvents(c, process, FormatLog(p, events));
    } else {
      LogLinesOfFormatLog(c, p, process, events);
      ParseFormattedLines(c, p, process, events);
      ParseLogSpec(c, process, FormatLog(p, events));
    }
  }
}
