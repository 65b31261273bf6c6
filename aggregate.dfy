/**
 * The max aggregator: the `(max_w, pair)` results of all merge tasks are
 * reduced to one normalisation scale per generation pair.
 */
module MaxAggregate {

  /** Python's `max(a, b)`: `a` unless `b` is larger. */
  function Max(a: real, b: real): (m: real)
    ensures m >= a && m >= b
    ensures m == a || m == b
  {
    if b > a then b else a
  }

  /**
   * `m` maps exactly the keys of `lst`, and each to the largest value
   * paired with it.
   */
  predicate IsKeyedMax<K>(lst: seq<(real, K)>, m: map<K, real>)
  {
    && m.Keys == (set i | 0 <= i < |lst| :: lst[i].1)
    && (forall i :: 0 <= i < |lst| ==> lst[i].0 <= m[lst[i].1])
    && (forall k :: k in m ==> exists i :: 0 <= i < |lst| && lst[i].1 == k && lst[i].0 == m[k])
  }

  /** One loop step: folding `(value, key)` into the map keeps it the keyed maximum. */
  lemma KeyedMaxStep<K>(seen: seq<(real, K)>, m: map<K, real>, value: real, key: K)
    requires IsKeyedMax(seen, m)
    ensures IsKeyedMax(seen + [(value, key)], m[key := if key in m then Max(m[key], value) else value])
  {
    var next := seen + [(value, key)];
    var m' := m[key := if key in m then Max(m[key], value) else value];
    assert next[|seen|] == (value, key);
    assert forall j :: 0 <= j < |seen| ==> next[j] == seen[j];
    assert m'.Keys == (set j | 0 <= j < |next| :: next[j].1) by {
      assert (set j | 0 <= j < |next| :: next[j].1) == (set j | 0 <= j < |seen| :: seen[j].1) + {key};
    }
    forall k | k in m'
      ensures exists j :: 0 <= j < |next| && next[j].1 == k && next[j].0 == m'[k]
    {
      if k == key && m'[k] == value {
        assert next[|seen|].1 == k && next[|seen|].0 == m'[k];
      } else {
        var j :| 0 <= j < |seen| && seen[j].1 == k && seen[j].0 == m[k];
        assert next[j].1 == k && next[j].0 == m'[k];
      }
    }
  }

  /**
   * `list_to_dict_max(lst)`. The source's `-inf` default makes the first
   * value seen for a key its first maximum.
   */
  method ListToDictMax<K>(lst: seq<(real, K)>) returns (m: map<K, real>)
    ensures IsKeyedMax(lst, m)
  {
    m := map[];
    for i := 0 to |lst|
      invariant IsKeyedMax(lst[..i], m)
    {
      var (value, key) := lst[i];
      KeyedMaxStep(lst[..i], m, value, key);
      assert lst[..i + 1] == lst[..i] + [(value, key)];
      m := m[key := if key in m then Max(m[key], value) else value];
    }
    assert lst[..|lst|] == lst;
  }

  /** The keyed maximum is determined by the list: there is only one. */
  lemma KeyedMaxUnique<K>(lst: seq<(real, K)>, m1: map<K, real>, m2: map<K, real>)
    requires IsKeyedMax(lst, m1) && IsKeyedMax(lst, m2)
    ensures m1 == m2
  {
  }

  /** Two chromosomes report 5.0 and 8.333 for one pair: the pair's scale is 8.333. */
  lemma TwoChromosomeScenario(m: map<string, real>)
    requires IsKeyedMax([(5.0, "1_3"), (8.333, "1_3")], m)
    ensures m == map["1_3" := 8.333]
  {
    var lst := [(5.0, "1_3"), (8.333, "1_3")];
    assert m.Keys == {"1_3"} by {
      assert lst[0].1 == "1_3" && lst[1].1 == "1_3";
    }
    assert lst[1].0 <= m["1_3"];
  }
}
