/** What orderingFromTrace (trace.js:152-261) promises its callers, stated over
    the trace it is given: when it fails, which events it keeps, how receives
    and the events they matched end up cross-linked, and that the arrangement
    of the input does not matter. */
module OrderingProperties {
  import opened Wrappers
  import opened Events
  import opened Sorting
  import opened Resolver
  import opened Linking

  /** The sender of receive `e` has some event at `e`'s departure time. */
  predicate Matched(events: seq<Event>, e: Event) {
    e.Receive? && exists x | x in events :: CanonicalKey(x) == Key(e.departure, e.sender)
  }

  /** Events that survive the filter of lines 182-190. */
  predicate Survives(events: seq<Event>, e: Event) {
    !e.Receive? || Matched(events, e)
  }

  lemma SortedMembers(t: Trace)
    ensures forall e :: e in Sorted(t) <==> e in t.events
  {
    var s := Sorted(t);
    assert multiset(s) == multiset(t.events);
    forall e
      ensures e in s <==> e in t.events
    {
      assert e in s <==> e in multiset(s);
    }
  }

  lemma UnmatchedInSorted(t: Trace, e: Event)
    ensures Unmatched(Sorted(t), e) <==> !Survives(t.events, e)
  {
    SortedMembers(t);
    var s := Sorted(t);
    if e.Receive? {
      var l := Lookup(s, e.sender, e.departure);
      if l.Some? {
        assert s[l.value] in t.events;
      }
    }
  }

  /** The events that reach the linking pass are exactly the input events
      that survive the filter; when the input has no repeated key they are in
      strictly increasing canonical order. */
  lemma ResolveKeeps(t: Trace)
    ensures forall e :: e in Prepared(t) <==> e in t.events && Survives(t.events, e)
    ensures UniqueKeys(t.events) ==> StrictlyOrdered(Prepared(t))
  {
    SortedMembers(t);
    forall e
      ensures e in Prepared(t) <==> e in t.events && Survives(t.events, e)
    {
      UnmatchedInSorted(t, e);
    }
    if UniqueKeys(t.events) {
      UniqueKeysPermutation(Sorted(t), t.events);
      OrderedUniqueIsStrict(Sorted(t));
    }
  }

  /** The state the checks of lines 169-190 leave when they all pass. */
  lemma Prechecked(t: Trace)
    requires CheckLocal(Sorted(t), t.processes, {}).None?
    requires CheckSenders(Sorted(t), t.processes).None?
    ensures StrictlyOrdered(Prepared(t))
    ensures Linked(Sorted(t), Prepared(t), ClearArrivals(Prepared(t)), 0)
    ensures forall k | 0 <= k < |Prepared(t)| && Prepared(t)[k].Receive? :: Prepared(t)[k].sender in t.processes
    ensures Resolve(t) ==
      match LinkFrom(t.processes, Sorted(t), ClearArrivals(Prepared(t)), 0)
      case Failure(e) => Failure(e)
      case Success(out) => Success(Trace(t.processes, out))
  {
    var s, f := Sorted(t), Prepared(t);
    OrderedUniqueIsStrict(s);
    assert Matchable(s, f, 0);
    LinkedInitially(s, f);
  }

  /** A successful ordering is the linking pass run to the end over the
      events that reach it. */
  lemma ResolveSucceeds(t: Trace)
    requires Resolve(t).Success?
    ensures StrictlyOrdered(Prepared(t))
    ensures Resolve(t).value.processes == t.processes
    ensures Linked(Sorted(t), Prepared(t), Resolve(t).value.events, |Prepared(t)|)
  {
    var s, reg := Sorted(t), t.processes;
    assert CheckLocal(s, reg, {}).None? && CheckSenders(s, reg).None?;
    var f := Prepared(t);
    Prechecked(t);
    LinkFromSpec(reg, s, f, ClearArrivals(f), 0);
  }

  /** orderingFromTrace fails exactly when an event belongs to an unregistered
      process, two events share a process and a local time, a receive names an
      unregistered sender, or a surviving receive is not strictly later than
      the event it matched. The unknown-sender error of lines 199-205 is never
      the one reported. */
  lemma ResolveFailsExactly(t: Trace)
    ensures Resolve(t).Failure? <==>
      || (exists e | e in t.events :: e.process !in t.processes)
      || !UniqueKeys(t.events)
      || (exists e | e in t.events :: e.Receive? && e.sender !in t.processes)
      || (exists e | e in t.events :: Matched(t.events, e) && e.time <= e.departure)
    ensures Resolve(t).Failure? ==> !Resolve(t).error.UnknownSender?
  {
    var s, reg := Sorted(t), t.processes;
    if CheckLocal(s, reg, {}).Some? {
      LocalFailure(t);
    } else if CheckSenders(s, reg).Some? {
      SenderFailure(t);
    } else {
      ChecksPass(t);
      LinkingFailure(t);
    }
  }

  /** An unregistered process or a repeated key stops the ordering. */
  lemma LocalFailure(t: Trace)
    requires CheckLocal(Sorted(t), t.processes, {}).Some?
    ensures Resolve(t).Failure? && !Resolve(t).error.UnknownSender?
    ensures (exists e | e in t.events :: e.process !in t.processes) || !UniqueKeys(t.events)
  {
    var s := Sorted(t);
    SortedMembers(t);
    UniqueKeysPermutation(s, t.events);
    if UniqueKeys(s) {
      var k :| 0 <= k < |s| && s[k].process !in t.processes;
      assert s[k] in t.events;
    }
  }

  /** Otherwise, a receive from an unregistered sender stops it. */
  lemma SenderFailure(t: Trace)
    requires CheckLocal(Sorted(t), t.processes, {}).None?
    requires CheckSenders(Sorted(t), t.processes).Some?
    ensures Resolve(t).Failure? && !Resolve(t).error.UnknownSender?
    ensures exists e | e in t.events :: e.Receive? && e.sender !in t.processes
  {
    var s := Sorted(t);
    SortedMembers(t);
    var k :| 0 <= k < |s| && s[k].Receive? && s[k].sender !in t.processes;
    assert s[k] in t.events;
  }

  /** When the checks of lines 169-190 pass, every process and sender is
      registered and no key repeats. */
  lemma ChecksPass(t: Trace)
    requires CheckLocal(Sorted(t), t.processes, {}).None?
    requires CheckSenders(Sorted(t), t.processes).None?
    ensures forall e | e in t.events :: e.process in t.processes && (e.Receive? ==> e.sender in t.processes)
    ensures UniqueKeys(t.events)
  {
    var s := Sorted(t);
    SortedMembers(t);
    UniqueKeysPermutation(s, t.events);
    forall e | e in t.events
      ensures e.process in t.processes && (e.Receive? ==> e.sender in t.processes)
    {
      var k :| 0 <= k < |s| && s[k] == e;
    }
  }

  /** Then the linking pass decides: it fails, with "received before sent",
      exactly when a matched receive is not strictly later than its match. */
  lemma LinkingFailure(t: Trace)
    requires CheckLocal(Sorted(t), t.processes, {}).None?
    requires CheckSenders(Sorted(t), t.processes).None?
    ensures Resolve(t).Failure? <==> exists e | e in t.events :: Matched(t.events, e) && e.time <= e.departure
    ensures Resolve(t).Failure? ==> Resolve(t).error.ReceivedBeforeSent?
  {
    var s, reg, f := Sorted(t), t.processes, Prepared(t);
    Prechecked(t);
    LinkFromSpec(reg, s, f, ClearArrivals(f), 0);
    ResolveKeeps(t);
    if AnyTooEarly(f, 0) {
      var k :| 0 <= k < |f| && TooEarly(f, k);
      assert f[k] in f;
    }
    if exists e | e in t.events :: Matched(t.events, e) && e.time <= e.departure {
      var e :| e in t.events && Matched(t.events, e) && e.time <= e.departure;
      assert e in f;
      var k :| 0 <= k < |f| && f[k] == e;
      assert TooEarly(f, k);
    }
  }

  /** A successful ordering keeps the registry and holds one event per
      surviving input event, at the same position, of the same kind, with the
      same process, time and payload fields (a receive keeps its sender), in
      strictly increasing canonical order. */
  lemma ResolveShape(t: Trace)
    requires Resolve(t).Success?
    ensures Resolve(t).value.processes == t.processes
    ensures |Resolve(t).value.events| == |Prepared(t)|
    ensures forall k | 0 <= k < |Prepared(t)| :: SameCore(Resolve(t).value.events[k], Prepared(t)[k])
    ensures StrictlyOrdered(Resolve(t).value.events)
  {
    ResolveSucceeds(t);
    var f := Prepared(t);
    var out := Resolve(t).value.events;
    ShapeKeys(f, out);
  }

  /** Every receive of a successful ordering is linked to the event it
      matched: it is strictly later than that event, its departure is that
      event's position when the event was kept and -1 when it was dropped, and
      it carries that event's data and (when present) its title. */
  lemma ResolveReceives(t: Trace)
    requires Resolve(t).Success?
    ensures var f, out := Prepared(t), Resolve(t).value.events;
      |out| == |f| &&
      forall k | 0 <= k < |out| && out[k].Receive? ::
        && f[k].Receive?
        && f[k].departure < f[k].time
        && (out[k].departure == -1 <==> Lookup(f, f[k].sender, f[k].departure).None?)
        && (out[k].departure != -1 ==>
              && 0 <= out[k].departure < k
              && CanonicalKey(out[out[k].departure]) == Key(f[k].departure, f[k].sender)
              && out[k].data == out[out[k].departure].data
              && out[k].title == MergeTitle(out[out[k].departure].title, f[k].title))
        && (out[k].departure == -1 ==>
              Lookup(Sorted(t), f[k].sender, f[k].departure).Some? &&
              var m := Sorted(t)[Lookup(Sorted(t), f[k].sender, f[k].departure).value];
              out[k].data == m.data && out[k].title == MergeTitle(m.title, f[k].title))
  {
    ResolveSucceeds(t);
    var f := Prepared(t);
    var out := Resolve(t).value.events;
    ShapeKeys(f, out);
    forall k | 0 <= k < |out| && out[k].Receive?
      ensures f[k].Receive? && ResolvedAt(Sorted(t), f, out, k)
    {
      assert SameCore(out[k], f[k]);
    }
  }

  /** The arrival of every event of a successful ordering names the last
      receive linked to it (lines 217-218 overwrite it receive by receive);
      an event no receive is linked to keeps its initial arrival: null for a
      send. */
  lemma ResolveArrivals(t: Trace)
    requires Resolve(t).Success?
    ensures var f, out := Prepared(t), Resolve(t).value.events;
      && |out| == |f|
      && (forall j, k | 0 <= j < |out| && 0 <= k < |out| && out[k].Receive? && out[k].departure == j ::
            && out[j].arrival.Some?
            && k <= out[j].arrival.value < |out|
            && out[out[j].arrival.value].Receive?
            && out[out[j].arrival.value].departure == j)
      && (forall j | 0 <= j < |out| && (forall k | 0 <= k < |out| && out[k].Receive? :: out[k].departure != j) ::
            out[j].arrival == InitialArrival(f[j]))
  {
    ResolveSucceeds(t);
    var f := Prepared(t);
    LinkedArrivals(Sorted(t), f, Resolve(t).value.events);
  }

  /** The table checks of lines 169-180 only look at processes and times. */
  lemma {:induction false} CheckLocalKeysOnly(a: seq<Event>, b: seq<Event>, reg: map<string, string>, seen: set<Key>)
    requires Keys(a, CanonicalKey) == Keys(b, CanonicalKey)
    ensures CheckLocal(a, reg, seen) == CheckLocal(b, reg, seen)
    decreases |a|
  {
    if |a| > 0 {
      assert CanonicalKey(a[0]) == CanonicalKey(b[0]);
      assert Keys(a[1..], CanonicalKey) == Keys(b[1..], CanonicalKey) by {
        forall k | 0 <= k < |a| - 1
          ensures CanonicalKey(a[1..][k]) == CanonicalKey(b[1..][k])
        {
          assert CanonicalKey(a[k + 1]) == CanonicalKey(b[k + 1]);
        }
      }
      CheckLocalKeysOnly(a[1..], b[1..], reg, seen + {CanonicalKey(a[0])});
    }
  }

  /** The result depends only on the registry and on the multiset of events,
      not on the order the events come in: the sort of lines 159-167 puts them
      into one canonical arrangement. */
  lemma ResolveIgnoresInputOrder(t1: Trace, t2: Trace)
    requires t1.processes == t2.processes
    requires multiset(t1.events) == multiset(t2.events)
    ensures Resolve(t1) == Resolve(t2)
  {
    var s1, s2 := Sorted(t1), Sorted(t2);
    OrderedKeysAgree(s1, s2, CanonicalKey);
    CheckLocalKeysOnly(s1, s2, t1.processes, {});
    if CheckLocal(s1, t1.processes, {}).None? {
      OrderedUniqueIsStrict(s1);
      OrderedUniqueIsStrict(s2);
      StrictlyOrderedUnique(s1, s2);
    }
  }
}
