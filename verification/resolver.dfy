/** orderingFromTrace (trace.js:152-261): sort the events of a trace into the
    canonical `(time, process id)` order, reject impossible traces, drop
    receives whose departure has no event, and cross-link each receive with the
    event it matched by position. */
module Resolver {
  import opened Wrappers
  import opened Events
  import opened Sorting

  datatype OrderError =
    /** An event's process is not a key of the registry (the lookup at line 175
        reads a property of undefined). */
    | UnregisteredProcess(process: string)
    /** Two events of one process share a local time (lines 175-177). */
    | DuplicateTimestamp(process: string, time: int)
    /** A receive names a sender outside the registry (the lookup at line 185
        reads a property of undefined). */
    | SenderLookupFailed(process: string, sender: string)
    /** The explicit unknown-sender error of lines 199-205. */
    | UnknownSender(process: string, sender: string)
    /** A receive is not strictly later than the event it matched (209-215). */
    | ReceivedBeforeSent(process: string, sender: string)

  // ---------------------------------------------------------------------------
  // Step 2: the per-process timestamp table (lines 169-180)
  // ---------------------------------------------------------------------------

  /** Walks the sorted events, filling the table of keys already seen; fails on
      the first event of an unregistered process or with a key already seen. */
  function CheckLocal(s: seq<Event>, reg: map<string, string>, seen: set<Key>): (r: Option<OrderError>)
    ensures r.None? <==>
      && (forall k | 0 <= k < |s| :: s[k].process in reg)
      && UniqueKeys(s)
      && (forall k | 0 <= k < |s| :: CanonicalKey(s[k]) !in seen)
    ensures r.Some? ==> r.value.UnregisteredProcess? || r.value.DuplicateTimestamp?
    decreases |s|
  {
    if |s| == 0 then None
    else if s[0].process !in reg then Some(UnregisteredProcess(s[0].process))
    else if CanonicalKey(s[0]) in seen then Some(DuplicateTimestamp(s[0].process, s[0].time))
    else
      var r := CheckLocal(s[1..], reg, seen + {CanonicalKey(s[0])});
      assert r.None? ==> UniqueKeys(s) by {
        if r.None? {
          forall i, j | 0 <= i < j < |s|
            ensures CanonicalKey(s[i]) != CanonicalKey(s[j])
          {
            if i > 0 {
              assert s[i] == s[1..][i - 1] && s[j] == s[1..][j - 1];
            } else {
              assert s[j] == s[1..][j - 1];
            }
          }
        }
      }
      assert UniqueKeys(s) ==> UniqueKeys(s[1..]) by {
        if UniqueKeys(s) {
          forall i, j | 0 <= i < j < |s| - 1
            ensures CanonicalKey(s[1..][i]) != CanonicalKey(s[1..][j])
          {
            assert s[1..][i] == s[i + 1] && s[1..][j] == s[j + 1];
          }
        }
      }
      r
  }

  /** Event `k` fails the table check: its process is not registered, or its
      key is already in the table, from `seen` or from an earlier event. */
  predicate LocalClash(s: seq<Event>, reg: map<string, string>, seen: set<Key>, k: int)
    requires 0 <= k < |s|
  {
    || s[k].process !in reg
    || CanonicalKey(s[k]) in seen
    || exists m | 0 <= m < k :: CanonicalKey(s[m]) == CanonicalKey(s[k])
  }

  /** The error the table check reports for an event that clashes. */
  function LocalError(e: Event, reg: map<string, string>): OrderError {
    if e.process !in reg then UnregisteredProcess(e.process) else DuplicateTimestamp(e.process, e.time)
  }

  lemma LocalClashShift(s: seq<Event>, reg: map<string, string>, seen: set<Key>, k: int)
    requires 0 <= k < |s| - 1
    ensures LocalClash(s[1..], reg, seen + {CanonicalKey(s[0])}, k) <==> LocalClash(s, reg, seen, k + 1)
  {
    assert s[1..][k] == s[k + 1];
    assert forall m | 0 <= m < k :: s[1..][m] == s[m + 1];
    if exists m | 0 <= m < k + 1 :: CanonicalKey(s[m]) == CanonicalKey(s[k + 1]) {
      var m :| 0 <= m < k + 1 && CanonicalKey(s[m]) == CanonicalKey(s[k + 1]);
      if m > 0 {
        assert CanonicalKey(s[1..][m - 1]) == CanonicalKey(s[1..][k]);
      }
    }
  }

  /** The first clash after the first event is the first clash overall when
      the first event itself passes. */
  lemma FirstClashShift(s: seq<Event>, reg: map<string, string>, seen: set<Key>, k: int)
    requires 0 <= k < |s| - 1
    requires s[0].process in reg && CanonicalKey(s[0]) !in seen
    requires LocalClash(s[1..], reg, seen + {CanonicalKey(s[0])}, k)
    requires forall m | 0 <= m < k :: !LocalClash(s[1..], reg, seen + {CanonicalKey(s[0])}, m)
    ensures LocalClash(s, reg, seen, k + 1) && s[1..][k] == s[k + 1]
    ensures forall m | 0 <= m < k + 1 :: !LocalClash(s, reg, seen, m)
  {
    LocalClashShift(s, reg, seen, k);
    forall m | 0 <= m < k + 1
      ensures !LocalClash(s, reg, seen, m)
    {
      if m > 0 {
        LocalClashShift(s, reg, seen, m - 1);
      }
    }
  }

  /** The table check reports the first event of the sorted list that
      clashes. */
  lemma {:induction false} CheckLocalFirst(s: seq<Event>, reg: map<string, string>, seen: set<Key>)
    ensures CheckLocal(s, reg, seen).Some? ==> exists k | 0 <= k < |s| ::
      && LocalClash(s, reg, seen, k)
      && (forall m | 0 <= m < k :: !LocalClash(s, reg, seen, m))
      && CheckLocal(s, reg, seen).value == LocalError(s[k], reg)
    decreases |s|
  {
    if |s| > 0 && CheckLocal(s, reg, seen).Some? {
      if s[0].process !in reg || CanonicalKey(s[0]) in seen {
        assert LocalClash(s, reg, seen, 0);
      } else {
        var seen' := seen + {CanonicalKey(s[0])};
        assert CheckLocal(s, reg, seen) == CheckLocal(s[1..], reg, seen');
        CheckLocalFirst(s[1..], reg, seen');
        var k :| 0 <= k < |s| - 1
          && LocalClash(s[1..], reg, seen', k)
          && (forall m | 0 <= m < k :: !LocalClash(s[1..], reg, seen', m))
          && CheckLocal(s[1..], reg, seen').value == LocalError(s[1..][k], reg);
        FirstClashShift(s, reg, seen, k);
      }
    }
  }

  // ---------------------------------------------------------------------------
  // Step 3: dropping receives with no event at their departure (lines 182-190)
  // ---------------------------------------------------------------------------

  /** Fails on the first receive whose sender has no table (line 185). */
  function CheckSenders(s: seq<Event>, reg: map<string, string>): (r: Option<OrderError>)
    ensures r.None? <==> forall k | 0 <= k < |s| && s[k].Receive? :: s[k].sender in reg
    ensures r.Some? ==> r.value.SenderLookupFailed?
    decreases |s|
  {
    if |s| == 0 then None
    else if s[0].Receive? && s[0].sender !in reg then Some(SenderLookupFailed(s[0].process, s[0].sender))
    else
      var r := CheckSenders(s[1..], reg);
      assert forall k | 1 <= k < |s| :: s[k] == s[1..][k - 1];
      r
  }

  /** A receive whose sender has no event at the departure time. */
  predicate Unmatched(all: seq<Event>, e: Event) {
    e.Receive? && Lookup(all, e.sender, e.departure).None?
  }

  /** The events of `s` except the unmatched receives, in order. */
  function Kept(s: seq<Event>, all: seq<Event>): (r: seq<Event>)
    ensures forall k | 0 <= k < |r| :: r[k] in s && !Unmatched(all, r[k])
    ensures forall e | e in s && !Unmatched(all, e) :: e in r
    ensures StrictlyOrdered(s) ==> StrictlyOrdered(r)
    decreases |s|
  {
    if |s| == 0 then []
    else
      var rest := Kept(s[1..], all);
      assert forall e | e in s :: e == s[0] || e in s[1..];
      if Unmatched(all, s[0]) then
        assert StrictlyOrdered(s) ==> StrictlyOrdered(s[1..]);
        rest
      else
        KeptConsOrdered(s, rest);
        [s[0]] + rest
  }

  lemma KeptConsOrdered(s: seq<Event>, rest: seq<Event>)
    requires |s| > 0
    requires forall k | 0 <= k < |rest| :: rest[k] in s[1..]
    requires StrictlyOrdered(s[1..]) ==> StrictlyOrdered(rest)
    ensures StrictlyOrdered(s) ==> StrictlyOrdered([s[0]] + rest)
  {
    if StrictlyOrdered(s) {
      assert StrictlyOrdered(s[1..]);
      var r := [s[0]] + rest;
      forall i, j | 0 <= i < j < |r|
        ensures KeyBelow(CanonicalKey(r[i]), CanonicalKey(r[j]))
      {
        if i == 0 {
          assert rest[j - 1] in s[1..];
          var k :| 0 <= k < |s[1..]| && s[1..][k] == rest[j - 1];
          assert s[k + 1] == r[j];
        }
      }
    }
  }

  // ---------------------------------------------------------------------------
  // Step 4: every send starts out not received (lines 192-196)
  // ---------------------------------------------------------------------------

  /** The arrival an event carries before any receive is linked to it: null on
      a send, whatever it already had otherwise. */
  function InitialArrival(e: Event): Option<int> {
    if e.Send? then None else e.arrival
  }

  function ClearArrivals(f: seq<Event>): (r: seq<Event>)
    ensures |r| == |f|
    ensures forall k | 0 <= k < |f| :: r[k] == WithArrival(f[k], InitialArrival(f[k]))
  {
    seq(|f|, k requires 0 <= k < |f| => WithArrival(f[k], InitialArrival(f[k])))
  }

  // ---------------------------------------------------------------------------
  // Step 5: linking, one receive at a time in canonical order (lines 198-224)
  // ---------------------------------------------------------------------------

  /** Every receive at position `i` or later has an event at its departure. */
  predicate Matchable(all: seq<Event>, cur: seq<Event>, i: nat) {
    forall k | i <= k < |cur| && cur[k].Receive? :: Lookup(all, cur[k].sender, cur[k].departure).Some?
  }

  /** The title a receive ends with: the matched event's, if it has one. */
  function MergeTitle(matched: Option<string>, own: Option<string>): Option<string> {
    if matched.Some? then matched else own
  }

  /** The event a receive at position `i` matched (`sendEvent`, line 207): the
      event the sender has at the departure time, found among the kept events
      `cur` when it is there and in the full sorted sequence `all` otherwise
      (a matched receive may itself have been dropped). Its type is not
      checked: any kind of event can be the matched one. */
  function Peer(all: seq<Event>, cur: seq<Event>, i: nat): (r: Event)
    requires i < |cur| && cur[i].Receive?
    requires Lookup(all, cur[i].sender, cur[i].departure).Some?
    ensures CanonicalKey(r) == Key(cur[i].departure, cur[i].sender)
  {
    match Lookup(cur, cur[i].sender, cur[i].departure)
    case Some(j) => cur[j]
    case None => all[Lookup(all, cur[i].sender, cur[i].departure).value]
  }

  /** Lines 217-223 for the receive at position `i`: its departure becomes the
      position of the matched event (-1, as `indexOf` gives, when that event
      was dropped), the matched event's arrival becomes `i`, and the receive
      copies the matched event's data and, if present, its title. */
  function LinkOne(all: seq<Event>, cur: seq<Event>, i: nat): (r: seq<Event>)
    requires i < |cur| && cur[i].Receive?
    requires Lookup(all, cur[i].sender, cur[i].departure).Some?
    ensures |r| == |cur|
    ensures forall k | 0 <= k < |cur| && k != i :: r[k] == cur[k] || r[k] == WithArrival(cur[k], Some(i))
  {
    var rcv := cur[i];
    var peer := Peer(all, cur, i);
    var at := Lookup(cur, rcv.sender, rcv.departure);
    var linked := Receive(rcv.time, rcv.process, rcv.sender, if at.Some? then at.value else -1,
                          peer.data, MergeTitle(peer.title, rcv.title), rcv.arrival);
    if at.Some? then cur[i := linked][at.value := WithArrival(peer, Some(i))]
    else cur[i := linked]
  }

  /** Processes the receives from position `i` on, in canonical order. */
  function LinkFrom(reg: map<string, string>, all: seq<Event>, cur: seq<Event>, i: nat): Result<seq<Event>, OrderError>
    requires i <= |cur|
    requires Matchable(all, cur, i)
    decreases |cur| - i
  {
    if i == |cur| then Success(cur)
    else if !cur[i].Receive? then LinkFrom(reg, all, cur, i + 1)
    else if cur[i].sender !in reg then Failure(UnknownSender(cur[i].process, cur[i].sender))
    else if cur[i].time <= Peer(all, cur, i).time then Failure(ReceivedBeforeSent(cur[i].process, cur[i].sender))
    else LinkFrom(reg, all, LinkOne(all, cur, i), i + 1)
  }

  // ---------------------------------------------------------------------------
  // The whole resolution
  // ---------------------------------------------------------------------------

  /** The canonical order of a trace's events. */
  function Sorted(t: Trace): seq<Event> {
    SortBy(t.events, CanonicalKey)
  }

  /** The events that survive step 3, in canonical order. */
  function Prepared(t: Trace): seq<Event> {
    Kept(Sorted(t), Sorted(t))
  }

  /** Steps 2 to 6 on the already sorted events `s`. */
  function ResolveSorted(reg: map<string, string>, s: seq<Event>): Result<Trace, OrderError> {
    match CheckLocal(s, reg, {})
    case Some(e) => Failure(e)
    case None =>
      match CheckSenders(s, reg)
      case Some(e) => Failure(e)
      case None =>
        var f := Kept(s, s);
        match LinkFrom(reg, s, ClearArrivals(f), 0)
        case Failure(e) => Failure(e)
        case Success(out) => Success(Trace(reg, out))
  }

  /** orderingFromTrace. */
  function Resolve(t: Trace): Result<Trace, OrderError> {
    ResolveSorted(t.processes, Sorted(t))
  }
}
