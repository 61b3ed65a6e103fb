/** The bucket array of the chained hash dictionary, described by the
    contents of its buckets: validity of the array and placement of keys. */
module ChainTables {
  import opened HashCodes
  import opened BucketMaps
  import opened PairSeqs
  import opened KVPairDictionary

  /** Every key sits in the bucket its hash value selects. */
  ghost predicate WellPlaced<K, V>(hashCode: K -> int32, bs: seq<map<K, V>>) {
    && 0 < |bs|
    && forall i, k :: 0 <= i < |bs| && k in bs[i] ==> HashValue(hashCode(k), |bs|) == i
  }

  /** `table` is a bucket array whose buckets stand for `bs`: a null slot
      is an empty bucket, every bucket is a valid dictionary whose objects
      lie in `repr` apart from those of the other buckets, and every key
      is well placed. */
  ghost predicate ChainsValid<K, V>(hashCode: K -> int32, table: array<ArrayDictionary?<K, V>>,
                                        bs: seq<map<K, V>>, repr: set<object>)
    reads table, repr
  {
    && table.Length == |bs| && table !in repr
    && (forall i :: 0 <= i < |bs| && table[i] == null ==> bs[i] == map[])
    && (forall i :: 0 <= i < |bs| && table[i] != null ==>
          && table[i] in repr && table[i].Repr <= repr && table !in table[i].Repr
          && table[i].Valid() && table[i].Contents() == bs[i])
    && (forall i, j :: 0 <= i < j < |bs| && table[i] != null && table[j] != null ==>
          table[i] != table[j] && table[i].pairs != table[j].pairs)
    && WellPlaced(hashCode, bs)
  }

  /** Well-placed buckets never share a key. */
  lemma PlacedDisjoint<K, V>(hashCode: K -> int32, bs: seq<map<K, V>>)
    requires WellPlaced(hashCode, bs)
    ensures Disjoint(bs)
  {
    forall i, j, k | 0 <= i < j < |bs| && k in bs[i]
      ensures k !in bs[j]
    {
      assert HashValue(hashCode(k), |bs|) == i;
    }
  }

  /** In well-placed buckets a key is stored exactly when its own bucket
      holds it, with that bucket's value. */
  lemma Placed<K, V>(hashCode: K -> int32, bs: seq<map<K, V>>, k: K)
    requires WellPlaced(hashCode, bs)
    ensures k in Flatten(bs) <==> k in bs[HashValue(hashCode(k), |bs|)]
    ensures k in Flatten(bs) ==> Flatten(bs)[k] == bs[HashValue(hashCode(k), |bs|)][k]
  {
    var h := HashValue(hashCode(k), |bs|);
    PlacedDisjoint(hashCode, bs);
    FlattenKeys(bs, k);
    if k in bs[h] {
      FlattenValue(bs, h, k);
    }
  }

  /** Removing a stored key from its own bucket removes it from the
      union, keeps every key well placed and takes one from the total. */
  lemma RemovePlaced<K, V>(hashCode: K -> int32, bs: seq<map<K, V>>, k: K)
    requires WellPlaced(hashCode, bs) && k in Flatten(bs)
    ensures var i := HashValue(hashCode(k), |bs|);
      && k in bs[i] && Flatten(bs)[k] == bs[i][k]
      && Flatten(bs[i := bs[i] - {k}]) == Flatten(bs) - {k}
      && TotalSize(bs[i := bs[i] - {k}]) == TotalSize(bs) - 1
      && WellPlaced(hashCode, bs[i := bs[i] - {k}])
  {
    var i := HashValue(hashCode(k), |bs|);
    Placed(hashCode, bs, k);
    FlattenRemove(bs, i, k);
    TotalSizeUpdate(bs, i, bs[i] - {k});
    ShrinkPlaced(hashCode, bs, i, bs[i] - {k});
  }

  /** A bucket that loses keys leaves every key well placed. */
  lemma ShrinkPlaced<K, V>(hashCode: K -> int32, bs: seq<map<K, V>>, i: nat, b: map<K, V>)
    requires WellPlaced(hashCode, bs) && i < |bs| && b.Keys <= bs[i].Keys
    ensures WellPlaced(hashCode, bs[i := b])
  {
    var bs' := bs[i := b];
    forall j, k | 0 <= j < |bs'| && k in bs'[j]
      ensures HashValue(hashCode(k), |bs'|) == j
    {
      if j == i {
        assert k in bs[i];
      }
    }
  }

  /** Storing a key in the bucket its hash selects leaves every key well
      placed. */
  lemma PutPlaced<K, V>(hashCode: K -> int32, bs: seq<map<K, V>>, k: K, v: V)
    requires WellPlaced(hashCode, bs)
    ensures var i := HashValue(hashCode(k), |bs|);
      WellPlaced(hashCode, bs[i := bs[i][k := v]])
  {
    var i := HashValue(hashCode(k), |bs|);
    var bs' := bs[i := bs[i][k := v]];
    forall j, k' | 0 <= j < |bs'| && k' in bs'[j]
      ensures HashValue(hashCode(k'), |bs'|) == j
    {
      if j == i && k' != k {
        assert k' in bs[i];
      }
    }
  }

  /** Well-placed bucket sequences standing for the same map hold the same
      number of pairs. */
  lemma SameTotal<K, V>(hashCode: K -> int32, bs: seq<map<K, V>>, bs': seq<map<K, V>>)
    requires WellPlaced(hashCode, bs) && WellPlaced(hashCode, bs')
    requires Flatten(bs) == Flatten(bs')
    ensures TotalSize(bs) == TotalSize(bs')
  {
    PlacedDisjoint(hashCode, bs);
    PlacedDisjoint(hashCode, bs');
    FlattenSize(bs);
    FlattenSize(bs');
  }
}
