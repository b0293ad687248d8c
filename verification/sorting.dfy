/** The stable sort behind `events.sort(...)` in orderingFromTrace and
    `errorEvents.sort(...)` in ProgramController, as insertion sort over a key,
    with the facts that make its result independent of the input order. */
module Sorting {
  import opened Events

  /** Non-decreasing by `key`. */
  predicate Ordered(s: seq<Event>, key: Event -> Key) {
    forall i, j | 0 <= i < j < |s| :: KeyAtMost(key(s[i]), key(s[j]))
  }

  /** Puts `e` before the first element whose key is not below it, so that `e`
      lands ahead of the elements with an equal key. */
  function Insert(e: Event, s: seq<Event>, key: Event -> Key): (r: seq<Event>)
    ensures multiset(r) == multiset(s) + multiset{e}
    ensures Ordered(s, key) ==> Ordered(r, key)
    decreases |s|
  {
    if |s| == 0 || KeyAtMost(key(e), key(s[0])) then
      InsertFrontOrdered(e, s, key);
      [e] + s
    else
      var rest := Insert(e, s[1..], key);
      assert s == [s[0]] + s[1..];
      InsertBehindOrdered(e, s, rest, key);
      [s[0]] + rest
  }

  lemma InsertFrontOrdered(e: Event, s: seq<Event>, key: Event -> Key)
    requires |s| == 0 || KeyAtMost(key(e), key(s[0]))
    ensures Ordered(s, key) ==> Ordered([e] + s, key)
  {
    if Ordered(s, key) {
      var r := [e] + s;
      forall i, j | 0 <= i < j < |r|
        ensures KeyAtMost(key(r[i]), key(r[j]))
      {
        if i == 0 && j > 1 {
          KeyAtMostTransitive(key(e), key(s[0]), key(s[j - 1]));
        }
      }
    }
  }

  lemma InsertBehindOrdered(e: Event, s: seq<Event>, rest: seq<Event>, key: Event -> Key)
    requires |s| > 0 && !KeyAtMost(key(e), key(s[0]))
    requires multiset(rest) == multiset(s[1..]) + multiset{e}
    requires Ordered(s[1..], key) ==> Ordered(rest, key)
    ensures Ordered(s, key) ==> Ordered([s[0]] + rest, key)
  {
    if Ordered(s, key) {
      assert Ordered(s[1..], key);
      var r := [s[0]] + rest;
      forall i, j | 0 <= i < j < |r|
        ensures KeyAtMost(key(r[i]), key(r[j]))
      {
        if i == 0 {
          var x := rest[j - 1];
          assert x in multiset(rest);
          if x == e {
            KeyBelowAsymmetric(key(s[0]), key(e));
          } else {
            assert x in multiset(s[1..]);
            var k :| 0 <= k < |s[1..]| && s[1..][k] == x;
            assert s[k + 1] == x;
          }
        }
      }
    }
  }

  /** Sorting keeps exactly the input elements and orders them by key. */
  function SortBy(s: seq<Event>, key: Event -> Key): (r: seq<Event>)
    ensures multiset(r) == multiset(s)
    ensures Ordered(r, key)
    decreases |s|
  {
    if |s| == 0 then []
    else
      assert s == [s[0]] + s[1..];
      Insert(s[0], SortBy(s[1..], key), key)
  }

  lemma MultisetTail<T>(a: seq<T>)
    requires |a| > 0
    ensures multiset(a[1..]) == multiset(a) - multiset{a[0]}
  {
    assert a == [a[0]] + a[1..];
  }

  lemma MultisetRemove<T>(b: seq<T>, k: nat)
    requires k < |b|
    ensures multiset(b[..k] + b[k + 1..]) == multiset(b) - multiset{b[k]}
  {
    assert b == b[..k] + [b[k]] + b[k + 1..];
  }

  lemma SameSize<T>(a: seq<T>, b: seq<T>)
    requires multiset(a) == multiset(b)
    ensures |a| == |b|
  {
    assert |a| == |multiset(a)|;
    assert |b| == |multiset(b)|;
  }

  lemma KeysTail(a: seq<Event>, key: Event -> Key)
    requires |a| > 0
    ensures multiset(Keys(a, key)) == multiset(Keys(a[1..], key)) + multiset{key(a[0])}
  {
    assert Keys(a, key) == [key(a[0])] + Keys(a[1..], key);
  }

  lemma KeysRemove(b: seq<Event>, k: nat, key: Event -> Key)
    requires k < |b|
    ensures multiset(Keys(b, key)) == multiset(Keys(b[..k] + b[k + 1..], key)) + multiset{key(b[k])}
  {
    assert Keys(b, key) == Keys(b[..k], key) + [key(b[k])] + Keys(b[k + 1..], key);
    assert Keys(b[..k] + b[k + 1..], key) == Keys(b[..k], key) + Keys(b[k + 1..], key);
  }

  /** Equal multisets of events have equal multisets of keys. */
  lemma {:induction false} KeysMultiset(a: seq<Event>, b: seq<Event>, key: Event -> Key)
    requires multiset(a) == multiset(b)
    ensures multiset(Keys(a, key)) == multiset(Keys(b, key))
    decreases |a|
  {
    SameSize(a, b);
    if |a| > 0 {
      assert a[0] in multiset(b);
      var k :| 0 <= k < |b| && b[k] == a[0];
      MultisetTail(a);
      MultisetRemove(b, k);
      KeysMultiset(a[1..], b[..k] + b[k + 1..], key);
      KeysTail(a, key);
      KeysRemove(b, k, key);
    }
  }

  predicate KeysOrdered(s: seq<Key>) {
    forall i, j | 0 <= i < j < |s| :: KeyAtMost(s[i], s[j])
  }

  /** A multiset of keys has exactly one non-decreasing arrangement. */
  lemma {:induction false} OrderedKeysUnique(x: seq<Key>, y: seq<Key>)
    requires KeysOrdered(x) && KeysOrdered(y)
    requires multiset(x) == multiset(y)
    ensures x == y
    decreases |x|
  {
    SameSize(x, y);
    if |x| > 0 {
      OrderedHeadsAgree(x, y);
      MultisetTail(x);
      MultisetTail(y);
      OrderedTail(x);
      OrderedTail(y);
      OrderedKeysUnique(x[1..], y[1..]);
      assert x == [x[0]] + x[1..] && y == [y[0]] + y[1..];
    }
  }

  /** Two non-decreasing arrangements of one multiset start alike. */
  lemma OrderedHeadsAgree(x: seq<Key>, y: seq<Key>)
    requires KeysOrdered(x) && KeysOrdered(y)
    requires multiset(x) == multiset(y) && |x| > 0 && |y| > 0
    ensures x[0] == y[0]
  {
    assert x[0] in multiset(y);
    var k :| 0 <= k < |y| && y[k] == x[0];
    assert y[0] in multiset(x);
    var m :| 0 <= m < |x| && x[m] == y[0];
    KeyBelowIrreflexive(x[0]);
    assert KeyAtMost(y[0], x[0]) by {
      if k > 0 {
        assert KeyAtMost(y[0], y[k]);
      }
    }
    assert KeyAtMost(x[0], y[0]) by {
      if m > 0 {
        assert KeyAtMost(x[0], x[m]);
      }
    }
    KeyBelowTotal(x[0], y[0]);
  }

  lemma OrderedTail(x: seq<Key>)
    requires KeysOrdered(x) && |x| > 0
    ensures KeysOrdered(x[1..])
  {
    forall i, j | 0 <= i < j < |x| - 1 ensures KeyAtMost(x[1..][i], x[1..][j]) {
      assert x[1..][i] == x[i + 1] && x[1..][j] == x[j + 1];
    }
  }

  /** Two orderings of the same events have the same sequence of keys. */
  lemma OrderedKeysAgree(a: seq<Event>, b: seq<Event>, key: Event -> Key)
    requires Ordered(a, key) && Ordered(b, key)
    requires multiset(a) == multiset(b)
    ensures Keys(a, key) == Keys(b, key)
  {
    KeysMultiset(a, b, key);
    OrderedKeysUnique(Keys(a, key), Keys(b, key));
  }

  /** A multiset of events with pairwise distinct canonical keys has exactly
      one strictly increasing arrangement. */
  lemma {:induction false} StrictlyOrderedUnique(a: seq<Event>, b: seq<Event>)
    requires StrictlyOrdered(a) && StrictlyOrdered(b)
    requires multiset(a) == multiset(b)
    ensures a == b
    decreases |a|
  {
    SameSize(a, b);
    if |a| > 0 {
      if a[0] != b[0] {
        assert a[0] in multiset(b);
        var k :| 0 <= k < |b| && b[k] == a[0];
        assert b[0] in multiset(a);
        var m :| 0 <= m < |a| && a[m] == b[0];
        assert KeyBelow(CanonicalKey(b[0]), CanonicalKey(b[k]));
        assert KeyBelow(CanonicalKey(a[0]), CanonicalKey(a[m]));
        KeyBelowAsymmetric(CanonicalKey(b[0]), CanonicalKey(a[0]));
        assert false;
      }
      MultisetTail(a);
      MultisetTail(b);
      assert StrictlyOrdered(a[1..]);
      assert StrictlyOrdered(b[1..]);
      StrictlyOrderedUnique(a[1..], b[1..]);
      assert a == [a[0]] + a[1..] && b == [b[0]] + b[1..];
    }
  }

  /** Ordered by the canonical key with no key repeated means strictly
      increasing. */
  lemma OrderedUniqueIsStrict(s: seq<Event>)
    requires Ordered(s, CanonicalKey) && UniqueKeys(s)
    ensures StrictlyOrdered(s)
  {
    forall i, j | 0 <= i < j < |s|
      ensures KeyBelow(CanonicalKey(s[i]), CanonicalKey(s[j]))
    {
      KeyBelowTotal(CanonicalKey(s[i]), CanonicalKey(s[j]));
    }
  }

  lemma CountTwo(s: seq<Key>, i: nat, j: nat)
    requires i < j < |s| && s[i] == s[j]
    ensures multiset(s)[s[i]] >= 2
  {
    assert s == s[..j] + [s[j]] + s[j + 1..];
    assert s[i] == s[..j][i];
  }

  lemma {:induction false} CountAtMostOne(s: seq<Key>, x: Key)
    requires forall i, j | 0 <= i < j < |s| :: s[i] != s[j]
    ensures multiset(s)[x] <= 1
    decreases |s|
  {
    if |s| > 0 {
      assert s == [s[0]] + s[1..];
      assert forall i, j | 0 <= i < j < |s| - 1 :: s[1..][i] != s[1..][j] by {
        forall i, j | 0 <= i < j < |s| - 1
          ensures s[1..][i] != s[1..][j]
        {
          assert s[1..][i] == s[i + 1] && s[1..][j] == s[j + 1];
        }
      }
      CountAtMostOne(s[1..], x);
      if s[0] == x {
        assert x !in s[1..];
      }
    }
  }

  /** Whether two events share a key does not depend on their arrangement. */
  lemma UniqueKeysPermutation(a: seq<Event>, b: seq<Event>)
    requires multiset(a) == multiset(b)
    ensures UniqueKeys(a) <==> UniqueKeys(b)
  {
    KeysMultiset(a, b, CanonicalKey);
    if UniqueKeys(a) && !UniqueKeys(b) {
      var i, j :| 0 <= i < j < |b| && CanonicalKey(b[i]) == CanonicalKey(b[j]);
      CountTwo(Keys(b, CanonicalKey), i, j);
      CountAtMostOne(Keys(a, CanonicalKey), CanonicalKey(b[i]));
    }
    if UniqueKeys(b) && !UniqueKeys(a) {
      var i, j :| 0 <= i < j < |a| && CanonicalKey(a[i]) == CanonicalKey(a[j]);
      CountTwo(Keys(a, CanonicalKey), i, j);
      CountAtMostOne(Keys(b, CanonicalKey), CanonicalKey(a[i]));
    }
  }
}
