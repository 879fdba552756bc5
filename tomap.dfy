/**
 * `toMap(items, keyMapper, valueMapper)`: a map filled in place, one
 * `map.set(keyMapper(item), valueMapper(item))` per item in list order,
 * so a later item overwrites an earlier one with the same key.
 */
module ToMap {

  /** The map after setting every item of `items` in order. */
  function MapOf<T, K, V>(items: seq<T>, keyOf: T -> K, valueOf: T -> V): map<K, V>
  {
    if items == [] then map[]
    else
      var last := items[|items| - 1];
      MapOf(items[..|items| - 1], keyOf, valueOf)[keyOf(last) := valueOf(last)]
  }

  /** The keys of the items, as a set. */
  function KeySet<T, K>(items: seq<T>, keyOf: T -> K): set<K>
  {
    set i | 0 <= i < |items| :: keyOf(items[i])
  }

  /** No two items share a key. */
  ghost predicate DistinctKeys<T, K>(items: seq<T>, keyOf: T -> K)
  {
    forall i, j :: 0 <= i < j < |items| ==> keyOf(items[i]) != keyOf(items[j])
  }

  method ToMap<T, K, V>(items: seq<T>, keyOf: T -> K, valueOf: T -> V) returns (m: map<K, V>)
    ensures m == MapOf(items, keyOf, valueOf)
  {
    m := map[];
    var i := 0;
    while i < |items|
      invariant i <= |items|
      invariant m == MapOf(items[..i], keyOf, valueOf)
    {
      assert items[..i + 1][..i] == items[..i];
      m := m[keyOf(items[i]) := valueOf(items[i])];
      i := i + 1;
    }
    assert items[..i] == items;
  }

  /** The map's keys are exactly the items' keys. */
  lemma {:induction false} MapOfKeys<T, K, V>(items: seq<T>, keyOf: T -> K, valueOf: T -> V)
    ensures MapOf(items, keyOf, valueOf).Keys == KeySet(items, keyOf)
  {
    if items != [] {
      var n := |items| - 1;
      var p := items[..n];
      MapOfKeys(p, keyOf, valueOf);
      assert KeySet(items, keyOf) == KeySet(p, keyOf) + {keyOf(items[n])} by {
        forall k | k in KeySet(items, keyOf) ensures k in KeySet(p, keyOf) + {keyOf(items[n])} {
          var i :| 0 <= i < |items| && keyOf(items[i]) == k;
          if i < n { assert items[i] == p[i]; }
        }
        forall k | k in KeySet(p, keyOf) ensures k in KeySet(items, keyOf) {
          var i :| 0 <= i < |p| && keyOf(p[i]) == k;
          assert p[i] == items[i];
        }
      }
    }
  }

  /** Last write wins: a key maps to the value of the last item that has it. */
  lemma {:induction false} MapOfLastWins<T, K, V>(items: seq<T>, keyOf: T -> K, valueOf: T -> V, i: nat)
    requires i < |items|
    requires forall j :: i < j < |items| ==> keyOf(items[j]) != keyOf(items[i])
    ensures keyOf(items[i]) in MapOf(items, keyOf, valueOf)
    ensures MapOf(items, keyOf, valueOf)[keyOf(items[i])] == valueOf(items[i])
  {
    var n := |items| - 1;
    if i < n {
      var p := items[..n];
      assert p[i] == items[i];
      forall j | i < j < |p| ensures keyOf(p[j]) != keyOf(p[i]) {
        assert p[j] == items[j];
      }
      MapOfLastWins(p, keyOf, valueOf, i);
    }
  }

  lemma {:induction false} KeySetSize<T, K>(items: seq<T>, keyOf: T -> K)
    ensures |KeySet(items, keyOf)| <= |items|
    ensures |KeySet(items, keyOf)| == |items| <==> DistinctKeys(items, keyOf)
  {
    if items != [] {
      var n := |items| - 1;
      var p := items[..n];
      var last := keyOf(items[n]);
      KeySetSize(p, keyOf);
      assert KeySet(items, keyOf) == KeySet(p, keyOf) + {last} by {
        forall k | k in KeySet(items, keyOf) ensures k in KeySet(p, keyOf) + {last} {
          var i :| 0 <= i < |items| && keyOf(items[i]) == k;
          if i < n { assert items[i] == p[i]; }
        }
        forall k | k in KeySet(p, keyOf) ensures k in KeySet(items, keyOf) {
          var i :| 0 <= i < |p| && keyOf(p[i]) == k;
          assert p[i] == items[i];
        }
      }
      if last in KeySet(p, keyOf) {
        var i :| 0 <= i < |p| && keyOf(p[i]) == last;
        assert items[i] == p[i];
        assert !DistinctKeys(items, keyOf);
      } else {
        assert DistinctKeys(items, keyOf) <==> DistinctKeys(p, keyOf) by {
          if DistinctKeys(p, keyOf) {
            forall i, j | 0 <= i < j < |items| ensures keyOf(items[i]) != keyOf(items[j]) {
              assert items[i] == p[i];
              if j < n {
                assert items[j] == p[j];
              } else {
                assert keyOf(p[i]) in KeySet(p, keyOf);
              }
            }
          }
          if DistinctKeys(items, keyOf) {
            forall i, j | 0 <= i < j < |p| ensures keyOf(p[i]) != keyOf(p[j]) {
              assert items[i] == p[i] && items[j] == p[j];
            }
          }
        }
      }
    }
  }

  /** The map holds one entry per distinct key: never more than the items, and as many exactly when no key repeats. */
  lemma MapOfSize<T, K, V>(items: seq<T>, keyOf: T -> K, valueOf: T -> V)
    ensures |MapOf(items, keyOf, valueOf)| == |KeySet(items, keyOf)|
    ensures |MapOf(items, keyOf, valueOf)| <= |items|
    ensures |MapOf(items, keyOf, valueOf)| == |items| <==> DistinctKeys(items, keyOf)
  {
    MapOfKeys(items, keyOf, valueOf);
    KeySetSize(items, keyOf);
  }

  /** Every entry comes from an item: its key is that item's key and its value that item's value. */
  lemma {:induction false} MapOfEntries<T, K, V>(items: seq<T>, keyOf: T -> K, valueOf: T -> V, k: K)
    requires k in MapOf(items, keyOf, valueOf)
    ensures exists i :: 0 <= i < |items| && keyOf(items[i]) == k && MapOf(items, keyOf, valueOf)[k] == valueOf(items[i])
  {
    var n := |items| - 1;
    var p := items[..n];
    if keyOf(items[n]) != k {
      MapOfEntries(p, keyOf, valueOf, k);
      var i :| 0 <= i < |p| && keyOf(p[i]) == k && MapOf(p, keyOf, valueOf)[k] == valueOf(p[i]);
      assert p[i] == items[i];
    }
  }
}
