/**
 * A `HashMap<u64, V>` is modelled as a Dafny `map`. Iterating a hash map visits
 * every entry exactly once, in an order the map does not specify; that order is
 * made an explicit parameter of every operation that iterates.
 */
module KeyedTable {

  /** `order` lists each key of `keys` exactly once, and nothing else. */
  predicate IsIterationOrder<K(==)>(order: seq<K>, keys: set<K>)
  {
    && (forall i, j :: 0 <= i < j < |order| ==> order[i] != order[j])
    && (forall i :: 0 <= i < |order| ==> order[i] in keys)
    && (forall k :: k in keys ==> k in order)
  }

  /** An iteration order visits as many entries as the table has keys. */
  lemma {:induction false} IterationOrderLength<K>(order: seq<K>, keys: set<K>)
    requires IsIterationOrder(order, keys)
    ensures |order| == |keys|
    decreases |order|
  {
    if order == [] {
      assert keys == {};
    } else {
      var rest := keys - {order[0]};
      var tail := order[1..];
      forall k | k in rest ensures k in tail {
        assert k in order;
        var i :| 0 <= i < |order| && order[i] == k;
        assert i != 0;
        assert tail[i - 1] == k;
      }
      assert IsIterationOrder(tail, rest);
      IterationOrderLength(tail, rest);
      assert keys == rest + {order[0]};
    }
  }

  /** `m.values().collect()`: the values of `m`, visited in the order `order`. */
  function ValuesInOrder<K, V>(m: map<K, V>, order: seq<K>): (r: seq<V>)
    requires forall i :: 0 <= i < |order| ==> order[i] in m
    ensures |r| == |order|
    ensures forall i :: 0 <= i < |order| ==> r[i] == m[order[i]]
  {
    if order == [] then [] else [m[order[0]]] + ValuesInOrder(m, order[1..])
  }

  /**
   * Collecting the values along an iteration order yields exactly the stored
   * values, one per key: as many as there are keys, and each key's value at the
   * position where the order visits that key.
   */
  lemma ValuesInOrderExact<K, V>(m: map<K, V>, order: seq<K>)
    requires IsIterationOrder(order, m.Keys)
    ensures |ValuesInOrder(m, order)| == |m|
    ensures forall k :: k in m ==>
      exists i :: 0 <= i < |order| && order[i] == k && ValuesInOrder(m, order)[i] == m[k]
    ensures forall v :: v in ValuesInOrder(m, order) ==> v in m.Values
  {
    IterationOrderLength(order, m.Keys);
    var r := ValuesInOrder(m, order);
    forall k | k in m
      ensures exists i :: 0 <= i < |order| && order[i] == k && r[i] == m[k]
    {
      assert k in order;
      var i :| 0 <= i < |order| && order[i] == k;
      assert r[i] == m[k];
    }
    forall v | v in r ensures v in m.Values {
      var i :| 0 <= i < |r| && r[i] == v;
      assert m[order[i]] == v;
    }
  }
}
