/** What the linking pass of orderingFromTrace (trace.js:198-224) establishes,
    stated as an invariant over the receives processed so far and proved step
    by step. `f` is the sequence of kept events as it stood before linking
    (strictly ordered by the canonical key) and `all` the full sorted
    sequence. */
module Linking {
  import opened Wrappers
  import opened Events
  import opened Resolver

  /** Same kind and same fields, apart from what linking may change: arrivals
      everywhere, and the departure, data and title of a receive. */
  predicate SameCore(a: Event, b: Event) {
    && a.time == b.time
    && a.process == b.process
    && match a
       case Send(_, _, recipient, data, title, _) => b.Send? && b.recipient == recipient && b.data == data && b.title == title
       case Receive(_, _, sender, _, _, _, _) => b.Receive? && b.sender == sender
       case Log(_, _, data, title, _) => b.Log? && b.data == data && b.title == title
  }

  /** The position among the kept events of the event the receive at `k`
      matched, or -1 when it is not there (or `f[k]` is not a receive). */
  function Target(f: seq<Event>, k: nat): (r: int)
    requires k < |f|
    ensures -1 <= r < |f|
    ensures r >= 0 ==> f[k].Receive? && CanonicalKey(f[r]) == Key(f[k].departure, f[k].sender)
  {
    if !f[k].Receive? then -1
    else match Lookup(f, f[k].sender, f[k].departure)
      case Some(j) => j
      case None => -1
  }

  /** The last of the first `n` positions whose receive matched position `j`. */
  function LastLinker(f: seq<Event>, j: int, n: nat): (r: Option<nat>)
    requires n <= |f|
    ensures r.Some? ==> r.value < n && Target(f, r.value) == j
    ensures r.Some? ==> forall y | r.value < y < n :: Target(f, y) != j
    ensures r.None? ==> forall y | 0 <= y < n :: Target(f, y) != j
  {
    if n == 0 then None
    else if Target(f, n - 1) == j then Some(n - 1)
    else LastLinker(f, j, n - 1)
  }

  /** The arrival of position `j` once the first `n` positions are processed. */
  function ArrivalAfter(f: seq<Event>, j: nat, n: nat): Option<int>
    requires j < |f| && n <= |f|
  {
    match LastLinker(f, j, n)
    case Some(k) => Some(k)
    case None => InitialArrival(f[j])
  }

  predicate Shape(f: seq<Event>, cur: seq<Event>) {
    |cur| == |f| && forall k | 0 <= k < |f| :: SameCore(cur[k], f[k])
  }

  /** Receives at position `i` or later are untouched (apart from arrival). */
  predicate Pending(f: seq<Event>, cur: seq<Event>, i: nat)
    requires Shape(f, cur)
  {
    forall k | i <= k < |f| && f[k].Receive? ::
      cur[k].departure == f[k].departure && cur[k].data == f[k].data && cur[k].title == f[k].title
  }

  /** The receive at position `k` is linked: its departure is the target's
      position, it is strictly later than the event it matched, and it carries
      that event's data and title. */
  predicate ResolvedAt(all: seq<Event>, f: seq<Event>, cur: seq<Event>, k: nat)
    requires Shape(f, cur) && Matchable(all, f, 0)
    requires k < |f| && f[k].Receive?
  {
    var t := Target(f, k);
    && cur[k].departure == t
    && f[k].departure < f[k].time
    && (t >= 0 ==> t < k && cur[k].data == cur[t].data && cur[k].title == MergeTitle(cur[t].title, f[k].title))
    && (t < 0 ==>
          var m := all[Lookup(all, f[k].sender, f[k].departure).value];
          cur[k].data == m.data && cur[k].title == MergeTitle(m.title, f[k].title))
  }

  predicate Resolved(all: seq<Event>, f: seq<Event>, cur: seq<Event>, i: nat)
    requires Shape(f, cur) && Matchable(all, f, 0)
  {
    forall k | 0 <= k < i && k < |f| && f[k].Receive? :: ResolvedAt(all, f, cur, k)
  }

  predicate Arrivals(f: seq<Event>, cur: seq<Event>, n: nat)
    requires |cur| == |f| && n <= |f|
  {
    forall j | 0 <= j < |f| :: cur[j].arrival == ArrivalAfter(f, j, n)
  }

  /** The state after the first `i` positions have been processed. */
  predicate Linked(all: seq<Event>, f: seq<Event>, cur: seq<Event>, i: nat) {
    && i <= |f|
    && Matchable(all, f, 0)
    && Shape(f, cur)
    && Pending(f, cur, i)
    && Resolved(all, f, cur, i)
    && Arrivals(f, cur, i)
  }

  lemma SameCoreKey(a: Event, b: Event)
    requires SameCore(a, b)
    ensures CanonicalKey(a) == CanonicalKey(b)
  {
  }

  lemma LookupSameKeys(a: seq<Event>, b: seq<Event>, p: string, t: int)
    requires |a| == |b|
    requires forall k | 0 <= k < |a| :: CanonicalKey(a[k]) == CanonicalKey(b[k])
    ensures Lookup(a, p, t) == Lookup(b, p, t)
  {
    forall k | 0 <= k < |a|
      ensures (CanonicalKey(a[k]) == Key(t, p)) == (CanonicalKey(b[k]) == Key(t, p))
    {
    }
  }

  lemma ShapeKeys(f: seq<Event>, cur: seq<Event>)
    requires Shape(f, cur)
    ensures forall k | 0 <= k < |f| :: CanonicalKey(cur[k]) == CanonicalKey(f[k])
  {
    forall k | 0 <= k < |f|
      ensures CanonicalKey(cur[k]) == CanonicalKey(f[k])
    {
      SameCoreKey(cur[k], f[k]);
    }
  }

  lemma MatchableFromShape(all: seq<Event>, f: seq<Event>, cur: seq<Event>, i: nat)
    requires Shape(f, cur) && Pending(f, cur, i) && Matchable(all, f, 0)
    ensures Matchable(all, cur, i)
  {
    forall k | i <= k < |cur| && cur[k].Receive?
      ensures Lookup(all, cur[k].sender, cur[k].departure).Some?
    {
      assert SameCore(cur[k], f[k]);
    }
  }

  /** Before any receive is processed, with sends reset to null. */
  lemma LinkedInitially(all: seq<Event>, f: seq<Event>)
    requires Matchable(all, f, 0)
    ensures Linked(all, f, ClearArrivals(f), 0)
  {
    var cur := ClearArrivals(f);
    assert Shape(f, cur);
    forall j | 0 <= j < |f|
      ensures cur[j].arrival == ArrivalAfter(f, j, 0)
    {
    }
  }

  /** A non-receive position changes nothing. */
  lemma LinkedSkip(all: seq<Event>, f: seq<Event>, cur: seq<Event>, i: nat)
    requires Linked(all, f, cur, i) && i < |f| && !f[i].Receive?
    ensures Linked(all, f, cur, i + 1)
  {
    forall j | 0 <= j < |f|
      ensures cur[j].arrival == ArrivalAfter(f, j, i + 1)
    {
      assert Target(f, i) == -1;
    }
  }

  /** The position of the event a receive matched, in terms of the original
      kept sequence. */
  lemma PeerIsTarget(all: seq<Event>, f: seq<Event>, cur: seq<Event>, i: nat)
    requires Linked(all, f, cur, i) && i < |f| && f[i].Receive?
    ensures cur[i].Receive? && Lookup(all, cur[i].sender, cur[i].departure).Some?
    ensures Lookup(cur, cur[i].sender, cur[i].departure) ==
            (if Target(f, i) >= 0 then Some(Target(f, i) as nat) else None)
    ensures Peer(all, cur, i).time == f[i].departure
  {
    assert SameCore(cur[i], f[i]);
    ShapeKeys(f, cur);
    LookupSameKeys(cur, f, f[i].sender, f[i].departure);
  }

  /** The conditions under which the receive at `i` is linked. */
  predicate StepReady(all: seq<Event>, f: seq<Event>, cur: seq<Event>, i: nat) {
    && StrictlyOrdered(f)
    && Linked(all, f, cur, i) && i < |f| && f[i].Receive?
    && f[i].departure < f[i].time
  }

  /** What linking the receive at `i` changes: the receive itself, and the
      arrival of the earlier event it matched, if that event was kept. */
  lemma LinkOneEffect(all: seq<Event>, f: seq<Event>, cur: seq<Event>, i: nat)
    requires StepReady(all, f, cur, i)
    ensures cur[i].Receive? && Lookup(all, cur[i].sender, cur[i].departure).Some?
    ensures var next := LinkOne(all, cur, i);
      var t := Target(f, i);
      var peer := Peer(all, cur, i);
      && |next| == |cur|
      && next[i] == Receive(cur[i].time, cur[i].process, cur[i].sender, t, peer.data, MergeTitle(peer.title, cur[i].title), cur[i].arrival)
      && (t >= 0 ==> t < i && peer == cur[t] && next[t] == WithArrival(cur[t], Some(i)))
      && (forall k | 0 <= k < |cur| && k != i && k != t :: next[k] == cur[k])
  {
    PeerIsTarget(all, f, cur, i);
    var t := Target(f, i);
    if t >= 0 {
      // The matched event is earlier: its key is below the receive's.
      assert CanonicalKey(f[t]) == Key(f[i].departure, f[i].sender);
      assert KeyBelow(CanonicalKey(f[t]), CanonicalKey(f[i]));
      if t >= i {
        assert false;
      }
    }
  }

  lemma StepShape(all: seq<Event>, f: seq<Event>, cur: seq<Event>, i: nat)
    requires StepReady(all, f, cur, i)
    ensures cur[i].Receive? && Lookup(all, cur[i].sender, cur[i].departure).Some?
    ensures Shape(f, LinkOne(all, cur, i)) && Pending(f, LinkOne(all, cur, i), i + 1)
  {
    LinkOneEffect(all, f, cur, i);
    var next := LinkOne(all, cur, i);
    forall k | 0 <= k < |f|
      ensures SameCore(next[k], f[k])
    {
      assert SameCore(cur[k], f[k]);
    }
    forall k | i + 1 <= k < |f| && f[k].Receive?
      ensures next[k].departure == f[k].departure && next[k].data == f[k].data && next[k].title == f[k].title
    {
      assert next[k] == cur[k];
    }
  }

  lemma StepResolved(all: seq<Event>, f: seq<Event>, cur: seq<Event>, i: nat)
    requires StepReady(all, f, cur, i)
    ensures cur[i].Receive? && Lookup(all, cur[i].sender, cur[i].departure).Some?
    ensures Shape(f, LinkOne(all, cur, i)) && Resolved(all, f, LinkOne(all, cur, i), i + 1)
  {
    LinkOneEffect(all, f, cur, i);
    StepShape(all, f, cur, i);
    var next := LinkOne(all, cur, i);
    forall k | 0 <= k < |f| && k != i
      ensures next[k].data == cur[k].data && next[k].title == cur[k].title
      ensures cur[k].Receive? ==> next[k].Receive? && next[k].departure == cur[k].departure
    {
      if k != Target(f, i) {
        assert next[k] == cur[k];
      }
    }
    forall k | 0 <= k < i && f[k].Receive?
      ensures ResolvedAt(all, f, next, k)
    {
      assert ResolvedAt(all, f, cur, k);
      assert SameCore(cur[k], f[k]);
    }
  }

  lemma StepArrivals(all: seq<Event>, f: seq<Event>, cur: seq<Event>, i: nat)
    requires StepReady(all, f, cur, i)
    ensures cur[i].Receive? && Lookup(all, cur[i].sender, cur[i].departure).Some?
    ensures |LinkOne(all, cur, i)| == |f| && Arrivals(f, LinkOne(all, cur, i), i + 1)
  {
    LinkOneEffect(all, f, cur, i);
    var next := LinkOne(all, cur, i);
    var t := Target(f, i);
    forall j | 0 <= j < |f|
      ensures next[j].arrival == ArrivalAfter(f, j, i + 1)
    {
      if j != t && j != i {
        assert next[j] == cur[j];
      }
    }
  }

  /** Processing a receive that is strictly later than its match keeps the
      invariant. */
  lemma LinkedStep(all: seq<Event>, f: seq<Event>, cur: seq<Event>, i: nat)
    requires StrictlyOrdered(f)
    requires Linked(all, f, cur, i) && i < |f| && f[i].Receive?
    requires f[i].departure < f[i].time
    ensures cur[i].Receive? && Lookup(all, cur[i].sender, cur[i].departure).Some?
    ensures Linked(all, f, LinkOne(all, cur, i), i + 1)
  {
    StepShape(all, f, cur, i);
    StepResolved(all, f, cur, i);
    StepArrivals(all, f, cur, i);
  }

  /** The receive at position `k` is not strictly later than the event it
      matched (whose time is the receive's departure). */
  predicate TooEarly(f: seq<Event>, k: nat)
    requires k < |f|
  {
    f[k].Receive? && f[k].time <= f[k].departure
  }

  predicate AnyTooEarly(f: seq<Event>, i: nat) {
    exists k | i <= k < |f| :: TooEarly(f, k)
  }

  lemma AnyTooEarlyStep(f: seq<Event>, i: nat)
    requires i < |f|
    ensures AnyTooEarly(f, i) <==> TooEarly(f, i) || AnyTooEarly(f, i + 1)
  {
    if AnyTooEarly(f, i) && !TooEarly(f, i) {
      var k :| i <= k < |f| && TooEarly(f, k);
      assert i + 1 <= k;
    }
  }

  /** What the linking pass as a whole yields: success exactly when every
      receive from position `i` on is strictly later than its match, in which
      case the invariant holds for the whole sequence; otherwise the error is
      "received before sent". The unknown-sender branch is never taken. */
  lemma {:induction false} LinkFromSpec(reg: map<string, string>, all: seq<Event>, f: seq<Event>, cur: seq<Event>, i: nat)
    requires StrictlyOrdered(f)
    requires Linked(all, f, cur, i)
    requires forall k | 0 <= k < |f| && f[k].Receive? :: f[k].sender in reg
    ensures Matchable(all, cur, i)
    ensures LinkFrom(reg, all, cur, i).Success? ==> Linked(all, f, LinkFrom(reg, all, cur, i).value, |f|)
    ensures LinkFrom(reg, all, cur, i).Failure? <==> AnyTooEarly(f, i)
    ensures LinkFrom(reg, all, cur, i).Failure? ==> LinkFrom(reg, all, cur, i).error.ReceivedBeforeSent?
    decreases |f| - i
  {
    MatchableFromShape(all, f, cur, i);
    if i < |f| {
      AnyTooEarlyStep(f, i);
      if !f[i].Receive? {
        SkipStep(reg, all, f, cur, i);
        LinkFromSpec(reg, all, f, cur, i + 1);
      } else if f[i].departure < f[i].time {
        LinkStep(reg, all, f, cur, i);
        LinkFromSpec(reg, all, f, LinkOne(all, cur, i), i + 1);
      } else {
        FailStep(reg, all, f, cur, i);
      }
    }
  }

  /** A position that is not a receive is passed over. */
  lemma SkipStep(reg: map<string, string>, all: seq<Event>, f: seq<Event>, cur: seq<Event>, i: nat)
    requires Linked(all, f, cur, i) && i < |f| && !f[i].Receive?
    ensures !TooEarly(f, i)
    ensures Linked(all, f, cur, i + 1) && Matchable(all, cur, i)
    ensures LinkFrom(reg, all, cur, i) == LinkFrom(reg, all, cur, i + 1)
  {
    assert SameCore(cur[i], f[i]);
    LinkedSkip(all, f, cur, i);
    MatchableFromShape(all, f, cur, i);
  }

  /** A receive strictly later than its match is linked and the pass goes on. */
  lemma LinkStep(reg: map<string, string>, all: seq<Event>, f: seq<Event>, cur: seq<Event>, i: nat)
    requires StrictlyOrdered(f) && Linked(all, f, cur, i) && i < |f| && f[i].Receive?
    requires f[i].sender in reg && f[i].departure < f[i].time
    ensures !TooEarly(f, i)
    ensures cur[i].Receive? && Lookup(all, cur[i].sender, cur[i].departure).Some?
    ensures Linked(all, f, LinkOne(all, cur, i), i + 1) && Matchable(all, cur, i)
    ensures LinkFrom(reg, all, cur, i) == LinkFrom(reg, all, LinkOne(all, cur, i), i + 1)
  {
    assert SameCore(cur[i], f[i]);
    MatchableFromShape(all, f, cur, i);
    PeerIsTarget(all, f, cur, i);
    LinkedStep(all, f, cur, i);
  }

  /** A receive not strictly later than its match ends the pass. */
  lemma FailStep(reg: map<string, string>, all: seq<Event>, f: seq<Event>, cur: seq<Event>, i: nat)
    requires Linked(all, f, cur, i) && i < |f| && f[i].Receive?
    requires f[i].sender in reg && f[i].time <= f[i].departure
    ensures TooEarly(f, i) && Matchable(all, cur, i)
    ensures LinkFrom(reg, all, cur, i) == Failure(ReceivedBeforeSent(cur[i].process, cur[i].sender))
  {
    assert SameCore(cur[i], f[i]);
    MatchableFromShape(all, f, cur, i);
    PeerIsTarget(all, f, cur, i);
  }

  /** Once every position is processed, the arrival of each event names the
      last receive whose departure is that event, and an event no receive
      points at keeps its initial arrival. */
  lemma LinkedArrivals(all: seq<Event>, f: seq<Event>, out: seq<Event>)
    requires Linked(all, f, out, |f|)
    ensures |out| == |f|
    ensures forall j, k | 0 <= j < |out| && 0 <= k < |out| && out[k].Receive? && out[k].departure == j ::
      && out[j].arrival.Some?
      && k <= out[j].arrival.value < |out|
      && out[out[j].arrival.value].Receive?
      && out[out[j].arrival.value].departure == j
    ensures forall j | 0 <= j < |out| && (forall k | 0 <= k < |out| && out[k].Receive? :: out[k].departure != j) ::
      out[j].arrival == InitialArrival(f[j])
  {
    forall j, k | 0 <= j < |out| && 0 <= k < |out| && out[k].Receive? && out[k].departure == j
      ensures out[j].arrival.Some? && k <= out[j].arrival.value < |out|
      ensures out[out[j].arrival.value].Receive? && out[out[j].arrival.value].departure == j
    {
      DepartureIsTarget(all, f, out, k);
      ArrivalIsLastLinker(all, f, out, j, k);
    }
    forall j | 0 <= j < |out| && (forall k | 0 <= k < |out| && out[k].Receive? :: out[k].departure != j)
      ensures out[j].arrival == InitialArrival(f[j])
    {
      assert out[j].arrival == ArrivalAfter(f, j, |f|);
      match LastLinker(f, j, |f|)
      case None =>
      case Some(x) =>
        DepartureIsTarget(all, f, out, x);
    }
  }

  /** After the whole pass, a receive's departure is the position it matched. */
  lemma DepartureIsTarget(all: seq<Event>, f: seq<Event>, out: seq<Event>, k: nat)
    requires Linked(all, f, out, |f|) && k < |f|
    ensures out[k].Receive? ==> out[k].departure == Target(f, k)
    ensures Target(f, k) >= 0 ==> out[k].Receive?
  {
    assert SameCore(out[k], f[k]);
    if out[k].Receive? {
      assert ResolvedAt(all, f, out, k);
    }
  }

  /** The arrival of a matched position is its last linker, at or after any
      receive that matched it. */
  lemma ArrivalIsLastLinker(all: seq<Event>, f: seq<Event>, out: seq<Event>, j: nat, k: nat)
    requires Linked(all, f, out, |f|) && j < |f| && k < |f| && Target(f, k) == j
    ensures out[j].arrival.Some? && k <= out[j].arrival.value < |f|
    ensures out[out[j].arrival.value].Receive? && out[out[j].arrival.value].departure == j
  {
    assert out[j].arrival == ArrivalAfter(f, j, |f|);
    var x := LastLinker(f, j, |f|).value;
    DepartureIsTarget(all, f, out, x);
  }
}
