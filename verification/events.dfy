/** The trace data format shared by the log parser, the trace assembler and the
    ordering resolver (trace.js): processes, tagged events and the canonical
    `(time, process id)` order. */
module Events {
  import opened Wrappers
  import opened Text

  /** One entry of a process's timeline. The three kinds share the fields every
      event object may carry once the trace has been ordered:
      - `data` and `title` (payloads, already decoded; absent is `None`);
      - `arrival`: on a send after ordering, `None` is the null "not received"
        marker and `Some(i)` the position of its receive; the resolver may also
        attach an arrival to whatever other event a receive matched, so every
        kind carries the field.
      A receive's `departure` is the sender's local timestamp before ordering
      and the position of the matched event (or -1) after it. */
  datatype Event =
    | Send(time: int, process: string, recipient: string,
           data: Option<string>, title: Option<string>, arrival: Option<int>)
    | Receive(time: int, process: string, sender: string, departure: int,
              data: Option<string>, title: Option<string>, arrival: Option<int>)
    | Log(time: int, process: string,
          data: Option<string>, title: Option<string>, arrival: Option<int>)

  /** The same event with its `arrival` field replaced. */
  function WithArrival(e: Event, a: Option<int>): (r: Event)
    ensures r.arrival == a
  {
    match e
    case Send(time, process, recipient, data, title, _) => Send(time, process, recipient, data, title, a)
    case Receive(time, process, sender, departure, data, title, _) => Receive(time, process, sender, departure, data, title, a)
    case Log(time, process, data, title, _) => Log(time, process, data, title, a)
  }

  /** `processes` maps a process id to its display name. */
  datatype Trace = Trace(processes: map<string, string>, events: seq<Event>)

  /** The position of an event in the canonical order. */
  datatype Key = Key(time: int, process: string)

  function CanonicalKey(e: Event): Key {
    Key(e.time, e.process)
  }

  /** The comparator of the sort in orderingFromTrace: time first, then the
      process id (`localeCompare`, taken as code-point order). */
  predicate KeyBelow(a: Key, b: Key) {
    a.time < b.time || (a.time == b.time && TextBelow(a.process, b.process))
  }

  predicate KeyAtMost(a: Key, b: Key) {
    !KeyBelow(b, a)
  }

  lemma KeyBelowIrreflexive(a: Key)
    ensures !KeyBelow(a, a)
  {
    TextBelowIrreflexive(a.process);
  }

  lemma KeyBelowTransitive(a: Key, b: Key, c: Key)
    requires KeyBelow(a, b) && KeyBelow(b, c)
    ensures KeyBelow(a, c)
  {
    if a.time == b.time == c.time {
      TextBelowTransitive(a.process, b.process, c.process);
    }
  }

  /** Keys are totally ordered: two keys are equal or one is below the other. */
  lemma KeyBelowTotal(a: Key, b: Key)
    ensures a == b || KeyBelow(a, b) || KeyBelow(b, a)
  {
    TextBelowTotal(a.process, b.process);
  }

  lemma KeyBelowAsymmetric(a: Key, b: Key)
    requires KeyBelow(a, b)
    ensures !KeyBelow(b, a)
  {
    if a.time == b.time {
      TextBelowAsymmetric(a.process, b.process);
    }
  }

  lemma KeyAtMostTransitive(a: Key, b: Key, c: Key)
    requires KeyAtMost(a, b) && KeyAtMost(b, c)
    ensures KeyAtMost(a, c)
  {
    KeyBelowTotal(a, b);
    KeyBelowTotal(b, c);
    if KeyBelow(c, a) {
      if a == b {
      } else if b == c {
      } else {
        KeyBelowTransitive(a, b, c);
        KeyBelowAsymmetric(a, c);
      }
    }
  }

  /** The keys of a sequence of events, in order. */
  function Keys(s: seq<Event>, key: Event -> Key): (r: seq<Key>)
    ensures |r| == |s|
    ensures forall i | 0 <= i < |s| :: r[i] == key(s[i])
  {
    seq(|s|, i requires 0 <= i < |s| => key(s[i]))
  }

  /** The first position whose event has the given process and time: the
      `processEvents[process][time]` lookup of orderingFromTrace. */
  function Lookup(s: seq<Event>, process: string, time: int): (r: Option<nat>)
    ensures r.Some? ==> r.value < |s| && CanonicalKey(s[r.value]) == Key(time, process)
    ensures r.Some? ==> forall k | 0 <= k < r.value :: CanonicalKey(s[k]) != Key(time, process)
    ensures r.None? ==> forall k | 0 <= k < |s| :: CanonicalKey(s[k]) != Key(time, process)
  {
    if |s| == 0 then None
    else if CanonicalKey(s[0]) == Key(time, process) then Some(0)
    else match Lookup(s[1..], process, time)
      case None => None
      case Some(k) => Some(k + 1)
  }

  /** No two events share a process and a local time. */
  predicate UniqueKeys(s: seq<Event>) {
    forall i, j | 0 <= i < j < |s| :: CanonicalKey(s[i]) != CanonicalKey(s[j])
  }

  /** Strictly increasing in the canonical order. */
  predicate StrictlyOrdered(s: seq<Event>) {
    forall i, j | 0 <= i < j < |s| :: KeyBelow(CanonicalKey(s[i]), CanonicalKey(s[j]))
  }
}
