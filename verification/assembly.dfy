/** traceFromLogs (trace.js:12-59): one log per process id, in the order of
    the logs object's keys, compiled into a trace. */
module Assembly {
  import opened Wrappers
  import opened Events
  import opened LogParser

  /** The logs object as its `(process id, log text)` entries, in key order. */
  type Logs = seq<(string, string)>

  predicate HasId(logs: Logs, id: string) {
    exists k | 0 <= k < |logs| :: logs[k].0 == id
  }

  /** `processesFromLogs`: every log's id, mapped to itself. */
  function ProcessesFromLogs(logs: Logs): (r: map<string, string>)
    ensures forall id :: id in r <==> HasId(logs, id)
    ensures forall id | id in r :: r[id] == id
    decreases |logs|
  {
    if |logs| == 0 then map[]
    else
      var rest := ProcessesFromLogs(logs[1..]);
      assert forall id :: HasId(logs, id) <==> id == logs[0].0 || HasId(logs[1..], id) by {
        forall id
          ensures HasId(logs, id) <==> id == logs[0].0 || HasId(logs[1..], id)
        {
          if HasId(logs[1..], id) {
            var k :| 0 <= k < |logs[1..]| && logs[1..][k].0 == id;
            assert logs[k + 1].0 == id;
          }
          if HasId(logs, id) && id != logs[0].0 {
            var k :| 0 <= k < |logs| && logs[k].0 == id;
            assert logs[1..][k - 1].0 == id;
          }
        }
      }
      rest[logs[0].0 := logs[0].0]
  }

  /** The registry: the alias map when one is given (any object, even an
      empty one, counts as given), otherwise each id named after itself. */
  function Registry(logs: Logs, aliases: Option<map<string, string>>): map<string, string> {
    match aliases
    case Some(a) => a
    case None => ProcessesFromLogs(logs)
  }

  /** The logs parsed one after another and concatenated; the first log that
      fails decides the error. */
  function EventsFromLogs(c: Codec, logs: Logs): Result<seq<Event>, ParseError>
    decreases |logs|
  {
    if |logs| == 0 then Success([])
    else
      var first :- ParseLog(c, logs[0].0, logs[0].1);
      var rest :- EventsFromLogs(c, logs[1..]);
      Success(first + rest)
  }

  /** Assembling fails exactly when one of the logs fails to parse. */
  lemma {:induction false} EventsFromLogsSucceed(c: Codec, logs: Logs)
    ensures EventsFromLogs(c, logs).Success? <==> forall k | 0 <= k < |logs| :: ParseLog(c, logs[k].0, logs[k].1).Success?
    decreases |logs|
  {
    if |logs| > 0 {
      EventsFromLogsSucceed(c, logs[1..]);
      assert forall k | 1 <= k < |logs| :: logs[k] == logs[1..][k - 1];
    }
  }

  /** Each log's own parse, in order. */
  function LogResults(c: Codec, logs: Logs): (r: seq<Result<seq<Event>, ParseError>>)
    ensures |r| == |logs| && forall k | 0 <= k < |logs| :: r[k] == ParseLog(c, logs[k].0, logs[k].1)
  {
    seq(|logs|, k requires 0 <= k < |logs| => ParseLog(c, logs[k].0, logs[k].1))
  }

  lemma {:induction false} EventsFromLogsAllOf(c: Codec, logs: Logs)
    ensures EventsFromLogs(c, logs).Failure? <==> AllOf(LogResults(c, logs)).Failure?
    ensures EventsFromLogs(c, logs).Failure? ==> EventsFromLogs(c, logs).error == AllOf(LogResults(c, logs)).error
    decreases |logs|
  {
    if |logs| > 0 {
      EventsFromLogsAllOf(c, logs[1..]);
      assert LogResults(c, logs)[1..] == LogResults(c, logs[1..]);
    }
  }

  /** A failed assembly reports the error of the first log that fails to
      parse: every log before it parses. */
  lemma EventsFromLogsFirstFailure(c: Codec, logs: Logs)
    ensures EventsFromLogs(c, logs).Failure? ==> exists k | 0 <= k < |logs| ::
      && ParseLog(c, logs[k].0, logs[k].1) == Failure(EventsFromLogs(c, logs).error)
      && forall m | 0 <= m < k :: ParseLog(c, logs[m].0, logs[m].1).Success?
  {
    EventsFromLogsAllOf(c, logs);
    AllOfSpec(LogResults(c, logs));
  }

  /** The events of a successful parse, log by log. */
  lemma {:induction false} EventsFromLogsAppend(c: Codec, a: Logs, b: Logs)
    requires EventsFromLogs(c, a + b).Success?
    ensures EventsFromLogs(c, a).Success? && EventsFromLogs(c, b).Success?
    ensures EventsFromLogs(c, a + b).value == EventsFromLogs(c, a).value + EventsFromLogs(c, b).value
    decreases |a|
  {
    if |a| > 0 {
      var ab := a + b;
      assert ab[0] == a[0];
      assert ab[1..] == a[1..] + b;
      var first := ParseLog(c, a[0].0, a[0].1);
      assert first.Success?;
      assert EventsFromLogs(c, a[1..] + b).Success?;
      EventsFromLogsAppend(c, a[1..], b);
      assert EventsFromLogs(c, ab).value == first.value + EventsFromLogs(c, a[1..] + b).value;
      assert EventsFromLogs(c, a).value == first.value + EventsFromLogs(c, a[1..]).value;
    } else {
      assert a + b == b;
    }
  }

  /** A single log contributes exactly its own parse. */
  lemma EventsFromOneLog(c: Codec, id: string, log: string)
    ensures EventsFromLogs(c, [(id, log)]) == ParseLog(c, id, log)
  {
    assert [(id, log)][1..] == [];
    if ParseLog(c, id, log).Success? {
      assert ParseLog(c, id, log).value + [] == ParseLog(c, id, log).value;
    }
  }

  /** Sends to a process outside the registry are discarded (lines 54-56);
      everything else is kept, in order. */
  function KnownRecipients(events: seq<Event>, reg: map<string, string>): (r: seq<Event>)
    ensures forall e :: e in r <==> e in events && (e.Send? ==> e.recipient in reg)
    ensures |r| <= |events|
    decreases |events|
  {
    if |events| == 0 then []
    else
      var rest := KnownRecipients(events[1..], reg);
      assert forall e | e in events :: e == events[0] || e in events[1..];
      if events[0].Send? && events[0].recipient !in reg then rest
      else [events[0]] + rest
  }

  /** Filtering commutes with concatenation, so the logs keep their order. */
  lemma {:induction false} KnownRecipientsAppend(a: seq<Event>, b: seq<Event>, reg: map<string, string>)
    ensures KnownRecipients(a + b, reg) == KnownRecipients(a, reg) + KnownRecipients(b, reg)
    decreases |a|
  {
    if |a| == 0 {
      assert a + b == b;
    } else {
      assert (a + b)[1..] == a[1..] + b;
      KnownRecipientsAppend(a[1..], b, reg);
    }
  }

  /** Filtering leaves alone a sequence with no send to an unknown process. */
  lemma {:induction false} KnownRecipientsKeepsAll(events: seq<Event>, reg: map<string, string>)
    requires forall k | 0 <= k < |events| && events[k].Send? :: events[k].recipient in reg
    ensures KnownRecipients(events, reg) == events
    decreases |events|
  {
    if |events| > 0 {
      KnownRecipientsKeepsAll(events[1..], reg);
    }
  }

  /** traceFromLogs. */
  function TraceFromLogs(c: Codec, logs: Logs, aliases: Option<map<string, string>>): (r: Result<Trace, ParseError>)
    ensures r.Success? <==> forall k | 0 <= k < |logs| :: ParseLog(c, logs[k].0, logs[k].1).Success?
    ensures r.Success? ==> r.value.processes == Registry(logs, aliases)
    ensures r.Success? ==> forall e | e in r.value.events && e.Send? :: e.recipient in r.value.processes
  {
    EventsFromLogsSucceed(c, logs);
    var processes := Registry(logs, aliases);
    var events :- EventsFromLogs(c, logs);
    Success(Trace(processes, KnownRecipients(events, processes)))
  }

  /** Without aliases every log's id is registered under its own name; with
      aliases the registry is the alias map itself. */
  lemma RegistryOfTrace(c: Codec, logs: Logs, aliases: Option<map<string, string>>)
    requires TraceFromLogs(c, logs, aliases).Success?
    ensures aliases.None? ==>
      && (forall id :: id in TraceFromLogs(c, logs, aliases).value.processes <==> HasId(logs, id))
      && (forall id | id in TraceFromLogs(c, logs, aliases).value.processes ::
            TraceFromLogs(c, logs, aliases).value.processes[id] == id)
    ensures aliases.Some? ==> TraceFromLogs(c, logs, aliases).value.processes == aliases.value
  {
  }

  /** The events of the trace are those of the logs in order, each log's own
      events in their order, without the sends to unregistered processes. */
  lemma TraceOfTwoParts(c: Codec, a: Logs, b: Logs, aliases: Option<map<string, string>>)
    requires TraceFromLogs(c, a + b, aliases).Success?
    ensures EventsFromLogs(c, a).Success? && EventsFromLogs(c, b).Success?
    ensures var reg := Registry(a + b, aliases);
      TraceFromLogs(c, a + b, aliases).value.events ==
        KnownRecipients(EventsFromLogs(c, a).value, reg) + KnownRecipients(EventsFromLogs(c, b).value, reg)
  {
    EventsFromLogsAppend(c, a, b);
    KnownRecipientsAppend(EventsFromLogs(c, a).value, EventsFromLogs(c, b).value, Registry(a + b, aliases));
  }

  /** Every assembled event belongs to the process of the log it came from. */
  lemma {:induction false} EventsFromLogsOwners(c: Codec, logs: Logs)
    requires EventsFromLogs(c, logs).Success?
    ensures forall e | e in EventsFromLogs(c, logs).value :: HasId(logs, e.process)
    decreases |logs|
  {
    if |logs| > 0 {
      var first := ParseLog(c, logs[0].0, logs[0].1);
      ParseLogProcess(c, logs[0].0, logs[0].1);
      EventsFromLogsOwners(c, logs[1..]);
      forall e | e in EventsFromLogs(c, logs).value
        ensures HasId(logs, e.process)
      {
        if e !in first.value {
          var k :| 0 <= k < |logs[1..]| && logs[1..][k].0 == e.process;
          assert logs[k + 1].0 == e.process;
        }
      }
    }
  }

  /** Without aliases, every event of the assembled trace belongs to a
      registered process, so ordering it never fails for an unregistered
      process. */
  lemma AssembledProcessesRegistered(c: Codec, logs: Logs)
    requires TraceFromLogs(c, logs, None).Success?
    ensures forall e | e in TraceFromLogs(c, logs, None).value.events :: e.process in TraceFromLogs(c, logs, None).value.processes
  {
    EventsFromLogsSucceed(c, logs);
    EventsFromLogsOwners(c, logs);
  }
}
