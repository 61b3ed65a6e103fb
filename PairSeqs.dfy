/** The live prefix of an array dictionary, read as a sequence of key/value
    pairs, and the map it stands for. Shared by both array dictionaries. */
module PairSeqs {

  datatype KVPair<K, V> = KVPair(key: K, value: V)

  /** No key occurs twice. */
  ghost predicate DistinctKeys<K, V>(ps: seq<KVPair<K, V>>)
  {
    forall i, j :: 0 <= i < j < |ps| ==> ps[i].key != ps[j].key
  }

  /** The map that the pairs stand for. */
  ghost function ToMap<K, V>(ps: seq<KVPair<K, V>>): map<K, V>
  {
    if ps == [] then map[] else ToMap(ps[..|ps| - 1])[ps[|ps| - 1].key := ps[|ps| - 1].value]
  }

  /** Each key of the map comes from some pair, and with distinct keys
      each pair's value is the value the map holds. */
  lemma {:induction false} ToMapAt<K, V>(ps: seq<KVPair<K, V>>, k: K)
    requires DistinctKeys(ps)
    ensures k in ToMap(ps) <==> exists i :: 0 <= i < |ps| && ps[i].key == k
    ensures forall i :: 0 <= i < |ps| && ps[i].key == k ==> ToMap(ps)[k] == ps[i].value
  {
    if ps != [] {
      var n := |ps| - 1;
      ToMapAt(ps[..n], k);
      if k in ToMap(ps[..n]) {
        var i :| 0 <= i < n && ps[..n][i].key == k;
        assert ps[i].key == k;
      }
    }
  }

  /** The number of entries of the map is the number of pairs. */
  lemma {:induction false} ToMapSize<K, V>(ps: seq<KVPair<K, V>>)
    requires DistinctKeys(ps)
    ensures |ToMap(ps)| == |ps|
  {
    if ps != [] {
      var n := |ps| - 1;
      ToMapSize(ps[..n]);
      ToMapAt(ps[..n], ps[n].key);
    }
  }

  /** Appending a pair with a new key extends the map by that key. */
  lemma AppendNew<K, V>(ps: seq<KVPair<K, V>>, k: K, v: V)
    requires DistinctKeys(ps) && k !in ToMap(ps)
    ensures DistinctKeys(ps + [KVPair(k, v)])
    ensures ToMap(ps + [KVPair(k, v)]) == ToMap(ps)[k := v]
  {
    ToMapAt(ps, k);
    assert (ps + [KVPair(k, v)])[..|ps|] == ps;
  }

  /** Overwriting the value of the pair at `i` overwrites that key's entry. */
  lemma {:induction false} Overwrite<K, V>(ps: seq<KVPair<K, V>>, i: nat, v: V)
    requires DistinctKeys(ps) && i < |ps|
    ensures DistinctKeys(ps[i := KVPair(ps[i].key, v)])
    ensures ToMap(ps[i := KVPair(ps[i].key, v)]) == ToMap(ps)[ps[i].key := v]
  {
    var n := |ps| - 1;
    var qs := ps[i := KVPair(ps[i].key, v)];
    if i < n {
      Overwrite(ps[..n], i, v);
      assert qs[..n] == ps[..n][i := KVPair(ps[i].key, v)];
      assert ps[n].key != ps[i].key;
    } else {
      assert qs[..n] == ps[..n];
    }
  }

  /** Removing a pair keeps the remaining keys distinct. */
  lemma RemoveAtDistinct<K, V>(ps: seq<KVPair<K, V>>, i: nat)
    requires DistinctKeys(ps) && i < |ps|
    ensures DistinctKeys(ps[..i] + ps[i + 1..])
  {
    var qs := ps[..i] + ps[i + 1..];
    forall a, b | 0 <= a < b < |qs| ensures qs[a].key != qs[b].key {
      var a', b' := if a < i then a else a + 1, if b < i then b else b + 1;
      assert qs[a] == ps[a'] && qs[b] == ps[b'];
    }
  }

  /** Removing the pair at `i` (shifting the rest left) removes that key. */
  lemma {:induction false} RemoveAt<K, V>(ps: seq<KVPair<K, V>>, i: nat)
    requires DistinctKeys(ps) && i < |ps|
    ensures DistinctKeys(ps[..i] + ps[i + 1..])
    ensures ToMap(ps[..i] + ps[i + 1..]) == ToMap(ps) - {ps[i].key}
  {
    RemoveAtDistinct(ps, i);
    var n := |ps| - 1;
    var qs := ps[..i] + ps[i + 1..];
    if i < n {
      var init := ps[..n];
      RemoveAt(init, i);
      assert qs[..n - 1] == init[..i] + init[i + 1..];
      assert qs[n - 1] == ps[n];
      assert ps[n].key != ps[i].key;
      calc {
        ToMap(qs);
        ToMap(qs[..n - 1])[ps[n].key := ps[n].value];
        (ToMap(init) - {ps[i].key})[ps[n].key := ps[n].value];
        ToMap(ps) - {ps[i].key};
      }
    } else {
      assert qs == ps[..n];
      ToMapAt(ps[..n], ps[n].key);
    }
  }
}
