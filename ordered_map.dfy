/** The view of a persistent ordered map that the service relies on: point
    lookup (`get`) and iteration in ascending key order (`iter`). Keys are
    `u64` ids; the map itself is a Dafny `map`, and the order that the B-tree
    iteration provides is reconstructed from its key set. */
module OrderedMap {
  import opened Types

  /** `get(key)`: the value stored at `key`, if any. */
  function Get<V>(m: map<u64, V>, key: u64): (r: Option<V>)
    ensures r.Some? <==> key in m
    ensures r.Some? ==> r.value == m[key]
  {
    if key in m then Some(m[key]) else None
  }

  /** `k` is the least id of `keys`. */
  predicate IsLeast(k: u64, keys: set<u64>) {
    k in keys && forall j :: j in keys ==> k <= j
  }

  /** A non-empty finite set of ids has a least element. */
  lemma {:induction false} LeastExists(keys: set<u64>)
    requires keys != {}
    ensures exists k :: IsLeast(k, keys)
  {
    var x :| x in keys;
    if keys == {x} {
      assert IsLeast(x, keys);
    } else {
      LeastExists(keys - {x});
      var k :| IsLeast(k, keys - {x});
      assert forall j :: j in keys ==> j == x || j in keys - {x};
      if x < k {
        assert IsLeast(x, keys);
      } else {
        assert IsLeast(k, keys);
      }
    }
  }

  /** The least id of a non-empty set. */
  function Least(keys: set<u64>): (k: u64)
    requires keys != {}
    ensures IsLeast(k, keys)
  {
    LeastExists(keys);
    var k :| IsLeast(k, keys);
    k
  }

  /** The ids of `keys` listed once each, in strictly ascending order. */
  function SortedKeys(keys: set<u64>): (r: seq<u64>)
    ensures |r| == |keys|
    ensures forall k :: k in r <==> k in keys
    ensures forall i, j :: 0 <= i < j < |r| ==> r[i] < r[j]
    decreases |keys|
  {
    if keys == {} then []
    else
      var k := Least(keys);
      [k] + SortedKeys(keys - {k})
  }

  /** `iter()` followed by dropping the keys: every stored value, in ascending
      key order. */
  function ValuesInKeyOrder<V>(m: map<u64, V>): (r: seq<V>)
    ensures |r| == |m|
    ensures forall i :: 0 <= i < |r| ==> SortedKeys(m.Keys)[i] in m && r[i] == m[SortedKeys(m.Keys)[i]]
  {
    var ks := SortedKeys(m.Keys);
    seq(|ks|, i requires 0 <= i < |ks| => m[ks[i]])
  }

  /** The listing holds exactly the stored values. */
  lemma ValuesInKeyOrderMembers<V>(m: map<u64, V>, v: V)
    ensures v in ValuesInKeyOrder(m) <==> v in m.Values
  {
    var r, ks := ValuesInKeyOrder(m), SortedKeys(m.Keys);
    if v in m.Values {
      var k :| k in m && m[k] == v;
      var i :| 0 <= i < |ks| && ks[i] == k;
      assert r[i] == v;
    }
  }
}
