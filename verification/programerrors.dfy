/** The part of ProgramController.js that feeds the trace: the latest uncaught
    exception of a program's log (`latestException`), and the `Exception` log
    event `addErrorsToTrace` appends for every terminated program that has
    one. */
module ProgramErrors {
  import opened Wrappers
  import opened Text
  import opened Events
  import opened Sorting
  import opened Seattle

  // ---------------------------------------------------------------------------
  // `latestException` (ProgramController.js:204-217)
  // ---------------------------------------------------------------------------

  /** The line the node manager writes when a program dies of an exception. */
  const ExceptionHeader: string := "---\nUncaught exception!"

  /** The line the node manager writes when a program is started. */
  const StartHeader: string := "========================================\nRunning program:"

  /** The log holds an exception header that no start header follows: the
      latest run of the program ended with an uncaught exception. */
  ghost predicate ExceptionAfterLastStart(log: string) {
    exists i | 0 <= i <= |log| ::
      OccursAt(log, ExceptionHeader, i) && forall j | i <= j <= |log| :: !OccursAt(log, StartHeader, j)
  }

  /** What the suffix of a string from `i` holds at `k`, the string holds at
      `i + k`. */
  lemma OccursInSuffix(s: string, pat: string, i: nat, k: int)
    requires i <= |s|
    ensures OccursAt(s[i..], pat, k) <==> (k >= 0 && OccursAt(s, pat, i + k))
  {
    if k >= 0 && i + k + |pat| <= |s| {
      assert s[i..][k..k + |pat|] == s[i + k..i + k + |pat|];
    }
  }

  /** The log from its last exception header on, when that header comes
      after the last start header (there being none counts as coming
      before); nothing otherwise. */
  function LatestException(log: string): Option<string> {
    var exceptionIndex := LastIndexOf(log, ExceptionHeader);
    var startIndex := LastIndexOf(log, StartHeader);
    if exceptionIndex > startIndex then Some(log[exceptionIndex..]) else None
  }

  /** The exception is a suffix of the log that begins with the exception
      header and holds no further exception header and no start header: the
      report of the latest run's uncaught exception, up to the end of the
      log. */
  lemma LatestExceptionShape(log: string)
    requires LatestException(log).Some?
    ensures var x := LatestException(log).value;
      && |x| <= |log| && x == log[|log| - |x|..]
      && OccursAt(x, ExceptionHeader, 0)
      && (forall k | 0 < k :: !OccursAt(x, ExceptionHeader, k))
      && (forall k :: !OccursAt(x, StartHeader, k))
  {
    var exceptionIndex := LastIndexOf(log, ExceptionHeader);
    var x := log[exceptionIndex..];
    assert LatestException(log).value == x;
    forall k ensures OccursAt(x, ExceptionHeader, k) <==> (k >= 0 && OccursAt(log, ExceptionHeader, exceptionIndex + k)) {
      OccursInSuffix(log, ExceptionHeader, exceptionIndex, k);
    }
    forall k ensures OccursAt(x, StartHeader, k) <==> (k >= 0 && OccursAt(log, StartHeader, exceptionIndex + k)) {
      OccursInSuffix(log, StartHeader, exceptionIndex, k);
    }
  }

  /** An exception is found exactly when the latest run ended with one. */
  lemma LatestExceptionFound(log: string)
    ensures LatestException(log).Some? <==> ExceptionAfterLastStart(log)
  {
    var e := LastIndexOf(log, ExceptionHeader);
    var s := LastIndexOf(log, StartHeader);
    if e > s {
      assert OccursAt(log, ExceptionHeader, e);
      assert forall j | e <= j <= |log| :: !OccursAt(log, StartHeader, j);
    }
    if ExceptionAfterLastStart(log) {
      var i :| 0 <= i <= |log| && OccursAt(log, ExceptionHeader, i) && forall j | i <= j <= |log| :: !OccursAt(log, StartHeader, j);
      assert i <= e;
      assert s < i;
    }
  }

  // ---------------------------------------------------------------------------
  // The error events of `addErrorsToTrace` (ProgramController.js:169-201)
  // ---------------------------------------------------------------------------

  /** A program of the user interface: the vessel it runs on, the status the
      node manager reports for it, and its log. */
  datatype Program = Program(vessel: Vessel, status: string, log: string)

  /** `_.max(programEvents, time)` (lines 176-181): the latest time among the
      process's events, or nothing when it has none. */
  function LastTime(events: seq<Event>, process: string): (r: Option<int>)
    ensures r.None? <==> forall k | 0 <= k < |events| :: events[k].process != process
    ensures r.Some? ==> forall k | 0 <= k < |events| && events[k].process == process :: events[k].time <= r.value
    ensures r.Some? ==> exists k | 0 <= k < |events| :: events[k].process == process && events[k].time == r.value
    decreases |events|
  {
    if |events| == 0 then None
    else
      var rest := LastTime(events[1..], process);
      assert forall k | 1 <= k < |events| :: events[k] == events[1..][k - 1];
      if events[0].process != process then rest
      else match rest
        case None => Some(events[0].time)
        case Some(t) => Some(if events[0].time < t then t else events[0].time)
  }

  /** The time of a process's error event (line 185): one past its latest
      event, or 1 when it has none. It is later than every event of the
      process, so it repeats none of the process's local timestamps. */
  function ErrorTime(events: seq<Event>, process: string): (r: int)
    ensures forall k | 0 <= k < |events| && events[k].process == process :: events[k].time < r
    ensures (exists k | 0 <= k < |events| :: events[k].process == process && events[k].time == r - 1)
            || ((forall k | 0 <= k < |events| :: events[k].process != process) && r == 1)
  {
    match LastTime(events, process)
    case None => 1
    case Some(t) => t + 1
  }

  /** The event pushed for one program (lines 172-191): for a terminated
      program whose log ends with an exception, a log event of its vessel
      titled `Exception` whose data is the exception, placed after the
      vessel's events. */
  function ErrorEvent(program: Program, events: seq<Event>): (r: Option<Event>)
    ensures r.Some? <==> program.status == "Terminated" && LatestException(program.log).Some?
    ensures r.Some? ==>
      && r.value.Log?
      && r.value.process == VesselId(program.vessel)
      && r.value.data == LatestException(program.log)
      && r.value.title == Some("Exception")
      && r.value.arrival.None?
      && r.value.time == ErrorTime(events, VesselId(program.vessel))
  {
    if program.status != "Terminated" then None
    else
      match LatestException(program.log)
      case None => None
      case Some(exception) =>
        var id := VesselId(program.vessel);
        Some(Log(ErrorTime(events, id), id, Some(exception), Some("Exception"), None))
  }

  /** A program gets an error event exactly when it has terminated and its
      latest run ended with an uncaught exception; the event carries that
      exception. */
  lemma ErrorEventExactly(program: Program, events: seq<Event>)
    ensures ErrorEvent(program, events).Some? <==> program.status == "Terminated" && ExceptionAfterLastStart(program.log)
    ensures ErrorEvent(program, events).Some? ==>
      && ErrorEvent(program, events).value.data.Some?
      && OccursAt(ErrorEvent(program, events).value.data.value, ExceptionHeader, 0)
      && ErrorEvent(program, events).value.process == VesselId(program.vessel)
  {
    LatestExceptionFound(program.log);
    if ErrorEvent(program, events).Some? {
      LatestExceptionShape(program.log);
    }
  }

  /** What each program contributes, in program order (lines 170-193);
      each is computed against the trace's own events. */
  function ErrorOptions(programs: seq<Program>, events: seq<Event>): seq<Option<Event>> {
    seq(|programs|, k requires 0 <= k < |programs| => ErrorEvent(programs[k], events))
  }

  /** The values of the options that hold one, in order. */
  function Present<T>(opts: seq<Option<T>>): (r: seq<T>)
    ensures |r| <= |opts|
  {
    if |opts| == 0 then []
    else (if opts[0].Some? then [opts[0].value] else []) + Present(opts[1..])
  }

  lemma {:induction false} PresentSound<T>(opts: seq<Option<T>>)
    ensures forall i | 0 <= i < |Present(opts)| :: Some(Present(opts)[i]) in opts
  {
    if |opts| > 0 {
      var rest := Present(opts[1..]);
      PresentSound(opts[1..]);
      var head: seq<T> := if opts[0].Some? then [opts[0].value] else [];
      var r := Present(opts);
      assert r == head + rest;
      forall i | 0 <= i < |r| ensures Some(r[i]) in opts {
        if i < |head| {
          assert opts[0] == Some(r[i]);
        } else {
          assert r[i] == rest[i - |head|];
          var m :| 0 <= m < |opts[1..]| && opts[1..][m] == Some(r[i]);
          assert opts[m + 1] == Some(r[i]);
        }
      }
    }
  }

  lemma {:induction false} PresentComplete<T>(opts: seq<Option<T>>)
    ensures forall k | 0 <= k < |opts| && opts[k].Some? :: opts[k].value in Present(opts)
  {
    if |opts| > 0 {
      var rest := Present(opts[1..]);
      PresentComplete(opts[1..]);
      var head: seq<T> := if opts[0].Some? then [opts[0].value] else [];
      assert Present(opts) == head + rest;
      forall k | 0 <= k < |opts| && opts[k].Some? ensures opts[k].value in Present(opts) {
        if k > 0 {
          assert opts[k] == opts[1..][k - 1];
        }
      }
    }
  }

  /** The error events of the programs, in program order. */
  function ErrorEvents(programs: seq<Program>, events: seq<Event>): (r: seq<Event>)
    ensures |r| <= |programs|
  {
    Present(ErrorOptions(programs, events))
  }

  /** `e` is the error event of one of the programs. */
  predicate ErrorOf(programs: seq<Program>, events: seq<Event>, e: Event) {
    exists k | 0 <= k < |programs| :: ErrorEvent(programs[k], events) == Some(e)
  }

  /** Every error event is the event of one of the programs. */
  lemma ErrorEventsSound(programs: seq<Program>, events: seq<Event>)
    ensures forall i | 0 <= i < |ErrorEvents(programs, events)| :: ErrorOf(programs, events, ErrorEvents(programs, events)[i])
  {
    var opts := ErrorOptions(programs, events);
    var r := ErrorEvents(programs, events);
    PresentSound(opts);
    forall i | 0 <= i < |r| ensures ErrorOf(programs, events, r[i]) {
      var k :| 0 <= k < |opts| && opts[k] == Some(r[i]);
      assert ErrorEvent(programs[k], events) == Some(r[i]);
    }
  }

  /** Every program that has an error event contributes it. */
  lemma ErrorEventsComplete(programs: seq<Program>, events: seq<Event>)
    ensures forall k | 0 <= k < |programs| && ErrorEvent(programs[k], events).Some? ::
      ErrorEvent(programs[k], events).value in ErrorEvents(programs, events)
  {
    var opts := ErrorOptions(programs, events);
    PresentComplete(opts);
    forall k | 0 <= k < |programs| && ErrorEvent(programs[k], events).Some?
      ensures ErrorEvent(programs[k], events).value in ErrorEvents(programs, events)
    {
      assert opts[k] == ErrorEvent(programs[k], events);
    }
  }

  /** The comparator of line 196 as a sort key: the time alone. */
  function TimeKey(e: Event): Key {
    Key(e.time, "")
  }

  lemma TimeKeyOrder(a: Event, b: Event)
    ensures KeyAtMost(TimeKey(a), TimeKey(b)) <==> a.time <= b.time
  {
    TextBelowIrreflexive("");
  }

  lemma OrderedByTime(s: seq<Event>)
    requires Ordered(s, TimeKey)
    ensures forall i, j | 0 <= i < j < |s| :: s[i].time <= s[j].time
  {
    forall i, j | 0 <= i < j < |s| ensures s[i].time <= s[j].time {
      TimeKeyOrder(s[i], s[j]);
    }
  }

  /** `addErrorsToTrace` (lines 169-201): the error events, sorted by time,
      pushed after the trace's own events. */
  function AddErrorsToTrace(trace: Trace, programs: seq<Program>): (r: Trace)
    ensures r.processes == trace.processes
    ensures |trace.events| <= |r.events| && r.events[..|trace.events|] == trace.events
    ensures multiset(r.events[|trace.events|..]) == multiset(ErrorEvents(programs, trace.events))
    ensures forall i, j | |trace.events| <= i < j < |r.events| :: r.events[i].time <= r.events[j].time
  {
    var sorted := SortBy(ErrorEvents(programs, trace.events), TimeKey);
    var r := Trace(trace.processes, trace.events + sorted);
    assert r.events[|trace.events|..] == sorted;
    assert r.events[..|trace.events|] == trace.events;
    OrderedByTime(sorted);
    r
  }

  /** The programs run on different vessels. */
  predicate DistinctVessels(programs: seq<Program>) {
    forall i, j | 0 <= i < j < |programs| :: VesselId(programs[i].vessel) != VesselId(programs[j].vessel)
  }

  /** No two of the events belong to the same process. */
  predicate DistinctProcesses(s: seq<Event>) {
    forall i, j | 0 <= i < j < |s| :: s[i].process != s[j].process
  }

  lemma ConsDistinct(e: Event, s: seq<Event>)
    requires DistinctProcesses(s)
    requires forall j | 0 <= j < |s| :: e.process != s[j].process
    ensures DistinctProcesses([e] + s)
  {
    var r := [e] + s;
    forall i, j | 0 <= i < j < |r| ensures r[i].process != r[j].process {
      assert r[j] == s[j - 1];
      if i > 0 {
        assert r[i] == s[i - 1];
      }
    }
  }

  /** Present values of options with pairwise different processes have
      pairwise different processes. */
  lemma {:induction false} PresentDistinct(opts: seq<Option<Event>>)
    requires forall i, j | 0 <= i < j < |opts| && opts[i].Some? && opts[j].Some? :: opts[i].value.process != opts[j].value.process
    ensures DistinctProcesses(Present(opts))
  {
    if |opts| > 0 {
      var tail := opts[1..];
      var rest := Present(tail);
      forall i, j | 0 <= i < j < |tail| && tail[i].Some? && tail[j].Some?
        ensures tail[i].value.process != tail[j].value.process
      {
        assert tail[i] == opts[i + 1] && tail[j] == opts[j + 1];
      }
      PresentDistinct(tail);
      if opts[0].Some? {
        var e := opts[0].value;
        PresentSound(tail);
        forall j | 0 <= j < |rest| ensures e.process != rest[j].process {
          var m :| 0 <= m < |tail| && tail[m] == Some(rest[j]);
          assert opts[m + 1] == Some(rest[j]);
        }
        assert Present(opts) == [e] + rest;
        ConsDistinct(e, rest);
      } else {
        assert Present(opts) == rest;
      }
    }
  }

  /** Programs on different vessels get error events of different
      processes. */
  lemma ErrorEventsDistinctProcesses(programs: seq<Program>, events: seq<Event>)
    requires DistinctVessels(programs)
    ensures DistinctProcesses(ErrorEvents(programs, events))
  {
    var opts := ErrorOptions(programs, events);
    forall i, j | 0 <= i < j < |opts| && opts[i].Some? && opts[j].Some?
      ensures opts[i].value.process != opts[j].value.process
    {
      assert opts[i] == ErrorEvent(programs[i], events) && opts[j] == ErrorEvent(programs[j], events);
    }
    PresentDistinct(opts);
  }

  /** An error event repeats no key of the events it was computed against:
      it is later than every event of its process. */
  lemma ErrorKeyIsNew(programs: seq<Program>, events: seq<Event>, e: Event)
    requires ErrorOf(programs, events, e)
    ensures forall i | 0 <= i < |events| :: CanonicalKey(events[i]) != CanonicalKey(e)
  {
    var k :| 0 <= k < |programs| && ErrorEvent(programs[k], events) == Some(e);
  }

  /** With one program per vessel, adding the error events keeps every
      `(process, time)` pair of the trace unique: each error event is later
      than its vessel's own events, and no two share a vessel. */
  lemma AddErrorsKeepsKeysUnique(trace: Trace, programs: seq<Program>)
    requires UniqueKeys(trace.events)
    requires DistinctVessels(programs)
    ensures UniqueKeys(AddErrorsToTrace(trace, programs).events)
  {
    var errors := ErrorEvents(programs, trace.events);
    var r := AddErrorsToTrace(trace, programs).events;
    var n := |trace.events|;
    var added := r[n..];
    ErrorEventsDistinctProcesses(programs, trace.events);
    ErrorEventsSound(programs, trace.events);
    assert UniqueKeys(errors);
    UniqueKeysPermutation(errors, added);
    forall i, j | 0 <= i < j < |r| ensures CanonicalKey(r[i]) != CanonicalKey(r[j]) {
      if j < n {
        assert r[i] == trace.events[i] && r[j] == trace.events[j];
      } else if i >= n {
        assert r[i] == added[i - n] && r[j] == added[j - n];
      } else {
        assert r[i] == trace.events[i] && r[j] == added[j - n];
        assert r[j] in multiset(errors);
        var m :| 0 <= m < |errors| && errors[m] == r[j];
        ErrorKeyIsNew(programs, trace.events, r[j]);
      }
    }
  }
}
