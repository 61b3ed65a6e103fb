/** The abstract contents of a chained hash table: a sequence of bucket
    maps, flattened into one map. */
module BucketMaps {
  /** No key is stored in two buckets. */
  ghost predicate Disjoint<K, V>(bs: seq<map<K, V>>) {
    forall i, j, k :: 0 <= i < j < |bs| && k in bs[i] ==> k !in bs[j]
  }

  /** The union of all buckets. */
  ghost function Flatten<K, V>(bs: seq<map<K, V>>): map<K, V> {
    if bs == [] then map[] else Flatten(bs[..|bs| - 1]) + bs[|bs| - 1]
  }

  /** The number of pairs summed over all buckets. */
  ghost function TotalSize<K, V>(bs: seq<map<K, V>>): nat {
    if bs == [] then 0 else TotalSize(bs[..|bs| - 1]) + |bs[|bs| - 1]|
  }

  /** A key is in the union exactly when some bucket holds it. */
  lemma {:induction false} FlattenKeys<K, V>(bs: seq<map<K, V>>, k: K)
    ensures k in Flatten(bs) <==> exists i :: 0 <= i < |bs| && k in bs[i]
  {
    if bs != [] {
      var n := |bs| - 1;
      FlattenKeys(bs[..n], k);
      if k in Flatten(bs[..n]) {
        var i :| 0 <= i < n && k in bs[..n][i];
        assert k in bs[i];
      }
    }
  }

  /** With disjoint buckets, the union gives a key the value of its bucket. */
  lemma {:induction false} FlattenValue<K, V>(bs: seq<map<K, V>>, i: nat, k: K)
    requires Disjoint(bs) && i < |bs| && k in bs[i]
    ensures k in Flatten(bs) && Flatten(bs)[k] == bs[i][k]
  {
    var n := |bs| - 1;
    if i < n {
      assert Disjoint(bs[..n]);
      FlattenValue(bs[..n], i, k);
      assert k !in bs[n];
    }
  }

  /** With disjoint buckets, the union has as many keys as all buckets together. */
  lemma {:induction false} FlattenSize<K, V>(bs: seq<map<K, V>>)
    requires Disjoint(bs)
    ensures |Flatten(bs)| == TotalSize(bs)
  {
    if bs != [] {
      var n := |bs| - 1;
      var front, last := Flatten(bs[..n]), bs[n];
      assert Disjoint(bs[..n]);
      FlattenSize(bs[..n]);
      forall k | k in last
        ensures k !in front
      {
        FlattenKeys(bs[..n], k);
      }
      assert (front + last).Keys == front.Keys + last.Keys;
      assert front.Keys * last.Keys == {};
    }
  }

  /** Only empty buckets: an empty union. */
  lemma {:induction false} FlattenEmpty<K, V>(bs: seq<map<K, V>>)
    requires forall i :: 0 <= i < |bs| ==> bs[i] == map[]
    ensures Flatten(bs) == map[] && TotalSize(bs) == 0
  {
    if bs != [] {
      FlattenEmpty(bs[..|bs| - 1]);
    }
  }

  /** Storing a pair in the only bucket that may hold its key stores it in
      the union. */
  lemma {:induction false} FlattenPut<K, V>(bs: seq<map<K, V>>, i: nat, k: K, v: V)
    requires i < |bs|
    requires forall j :: 0 <= j < |bs| && j != i ==> k !in bs[j]
    ensures Flatten(bs[i := bs[i][k := v]]) == Flatten(bs)[k := v]
  {
    var n := |bs| - 1;
    var cs := bs[i := bs[i][k := v]];
    if i < n {
      assert cs[..n] == bs[..n][i := bs[i][k := v]];
      FlattenPut(bs[..n], i, k, v);
      assert k !in bs[n];
    } else {
      assert cs[..n] == bs[..n];
    }
  }

  /** Removing a key from the only bucket that may hold it removes it from
      the union. */
  lemma {:induction false} FlattenRemove<K, V>(bs: seq<map<K, V>>, i: nat, k: K)
    requires i < |bs|
    requires forall j :: 0 <= j < |bs| && j != i ==> k !in bs[j]
    ensures Flatten(bs[i := bs[i] - {k}]) == Flatten(bs) - {k}
  {
    var n := |bs| - 1;
    var cs := bs[i := bs[i] - {k}];
    if i < n {
      assert cs[..n] == bs[..n][i := bs[i] - {k}];
      FlattenRemove(bs[..n], i, k);
      assert k !in bs[n];
    } else {
      assert cs[..n] == bs[..n];
      FlattenKeys(bs[..n], k);
    }
  }

  /** Replacing one bucket changes the total by the difference in its size. */
  lemma {:induction false} TotalSizeUpdate<K, V>(bs: seq<map<K, V>>, i: nat, b: map<K, V>)
    requires i < |bs|
    ensures TotalSize(bs[i := b]) == TotalSize(bs) - |bs[i]| + |b|
  {
    var n := |bs| - 1;
    if i < n {
      assert bs[i := b][..n] == bs[..n][i := b];
      TotalSizeUpdate(bs[..n], i, b);
    } else {
      assert bs[i := b][..n] == bs[..n];
    }
  }

  /** Updating a union updates its right operand. */
  lemma UnionUpdate<K, V>(a: map<K, V>, b: map<K, V>, k: K, v: V)
    ensures (a + b)[k := v] == a + b[k := v]
  {
  }

  /** The union of the first `i + 1` buckets adds bucket `i` to the union
      of the first `i`. */
  lemma FlattenPrefix<K, V>(bs: seq<map<K, V>>, i: nat)
    requires i < |bs|
    ensures Flatten(bs[..i + 1]) == Flatten(bs[..i]) + bs[i]
    ensures bs[i] == map[] ==> Flatten(bs[..i + 1]) == Flatten(bs[..i])
  {
    assert bs[..i + 1][..i] == bs[..i];
  }
}
