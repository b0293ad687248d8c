/** The two helpers of functional.js the rest of the program leans on: `zip`,
    which turns an object of parallel lists into a list of objects, and `get`,
    which reads one property of an object. */
module Functional {
  import opened Wrappers

  /** A plain object, as its own properties. */
  type Object<V> = map<string, V>

  /** An object of lists, as its `(property, list)` entries in the order a
      `for ... in` loop visits them. */
  type Mapping<V> = seq<(string, seq<V>)>

  function Max(a: nat, b: nat): nat {
    if a < b then b else a
  }

  /** `get(property)(obj)`: the property's value, or nothing (`undefined`)
      when the object does not have it. */
  function Get<V>(property: string, obj: Object<V>): (r: Option<V>)
    ensures r.Some? <==> property in obj
    ensures r.Some? ==> r.value == obj[property]
  {
    if property in obj then Some(obj[property]) else None
  }

  /** The object at `index` before one list is visited: the one already
      there, or the `{}` created for an index past the end. */
  function ObjectAt<V>(zipList: seq<Object<V>>, index: nat): Object<V> {
    if index < |zipList| then zipList[index] else map[]
  }

  /** One pass of the `forEach` of lines 21-27: every value of `list` is
      stored under `property` in the object at its index, objects being
      created as the list runs past the end. */
  function ZipProperty<V>(zipList: seq<Object<V>>, property: string, list: seq<V>): (r: seq<Object<V>>)
    ensures |r| == Max(|zipList|, |list|)
    ensures forall i | 0 <= i < |r| ::
      r[i] == if i < |list| then ObjectAt(zipList, i)[property := list[i]] else zipList[i]
    decreases |list|
  {
    if |list| == 0 then zipList
    else
      var index := |list| - 1;
      var before := ZipProperty(zipList, property, list[..index]);
      if index >= |before| then before + [map[][property := list[index]]]
      else before[index := before[index][property := list[index]]]
  }

  /** The longest list of the mapping. */
  function LongestList<V>(mapping: Mapping<V>): (r: nat)
    ensures forall j | 0 <= j < |mapping| :: |mapping[j].1| <= r
    ensures |mapping| > 0 ==> exists j | 0 <= j < |mapping| :: |mapping[j].1| == r
    decreases |mapping|
  {
    if |mapping| == 0 then 0
    else
      var init := mapping[..|mapping| - 1];
      assert forall j | 0 <= j < |init| :: init[j] == mapping[j];
      Max(LongestList(init), |mapping[|mapping| - 1].1|)
  }

  /** Some list of the mapping, stored under `property`, reaches `index`. */
  predicate Reaches<V>(mapping: Mapping<V>, property: string, index: nat) {
    exists j | 0 <= j < |mapping| :: mapping[j].0 == property && index < |mapping[j].1|
  }

  /** `zip(mapping)` (lines 17-30): the lists visited one after another. */
  function Zip<V>(mapping: Mapping<V>): (r: seq<Object<V>>)
    decreases |mapping|
  {
    if |mapping| == 0 then []
    else
      var last := mapping[|mapping| - 1];
      ZipProperty(Zip(mapping[..|mapping| - 1]), last.0, last.1)
  }

  /** The zipped list is as long as the longest list, and the object at an
      index has exactly the properties whose list reaches that index. */
  lemma {:induction false} ZipShape<V>(mapping: Mapping<V>)
    ensures |Zip(mapping)| == LongestList(mapping)
    ensures forall i, property | 0 <= i < |Zip(mapping)| ::
      property in Zip(mapping)[i] <==> Reaches(mapping, property, i)
    decreases |mapping|
  {
    if |mapping| > 0 {
      var init := mapping[..|mapping| - 1];
      var last := mapping[|mapping| - 1];
      ZipShape(init);
      var before, r := Zip(init), Zip(mapping);
      forall i, property | 0 <= i < |r|
        ensures property in r[i] <==> Reaches(mapping, property, i)
      {
        if Reaches(mapping, property, i) {
          var j :| 0 <= j < |mapping| && mapping[j].0 == property && i < |mapping[j].1|;
          if j < |init| {
            assert init[j] == mapping[j];
            assert Reaches(init, property, i);
          }
        }
        if Reaches(init, property, i) {
          var j :| 0 <= j < |init| && init[j].0 == property && i < |init[j].1|;
          assert mapping[j] == init[j];
          assert i < |before|;
        }
      }
    }
  }

  predicate DistinctProperties<V>(mapping: Mapping<V>) {
    forall j, l | 0 <= j < l < |mapping| :: mapping[j].0 != mapping[l].0
  }

  /** With distinct properties (an object's keys are), each list's values
      are found again under its property, index by index. */
  lemma {:induction false} ZipValues<V>(mapping: Mapping<V>)
    requires DistinctProperties(mapping)
    ensures forall j | 0 <= j < |mapping| :: |mapping[j].1| <= |Zip(mapping)|
    ensures forall j, i | 0 <= j < |mapping| && 0 <= i < |mapping[j].1| ::
      mapping[j].0 in Zip(mapping)[i] && Zip(mapping)[i][mapping[j].0] == mapping[j].1[i]
    decreases |mapping|
  {
    if |mapping| > 0 {
      var init := mapping[..|mapping| - 1];
      var last := mapping[|mapping| - 1];
      ZipValues(init);
      forall j | 0 <= j < |mapping|
        ensures |mapping[j].1| <= |Zip(mapping)|
      {
        if j < |init| {
          assert init[j] == mapping[j];
        }
      }
      forall j, i | 0 <= j < |mapping| && 0 <= i < |mapping[j].1|
        ensures mapping[j].0 in Zip(mapping)[i] && Zip(mapping)[i][mapping[j].0] == mapping[j].1[i]
      {
        if j < |init| {
          assert init[j] == mapping[j];
          assert i < |init[j].1|;
          assert mapping[j].0 != last.0;
        }
      }
    }
  }

  /** Reading one property back out of every zipped object gives its list,
      with nothing (`undefined`) past the list's end: `zip` followed by
      `get` undoes the zip. */
  lemma ZipThenGet<V>(mapping: Mapping<V>, j: nat)
    requires DistinctProperties(mapping)
    requires j < |mapping|
    ensures |mapping[j].1| <= |Zip(mapping)|
    ensures forall i | 0 <= i < |Zip(mapping)| ::
      Get(mapping[j].0, Zip(mapping)[i]) == if i < |mapping[j].1| then Some(mapping[j].1[i]) else None
  {
    ZipShape(mapping);
    ZipValues(mapping);
    var r := Zip(mapping);
  }
}
