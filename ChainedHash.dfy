/** The chained hash dictionary of project2: an array of lazily created
    `ArrayDictionary` buckets, a pair counter, and a full rehash into
    `2 * length + 1` buckets once the load exceeds 0.75. */
module ChainedHash {
  import opened Outcomes
  import opened HashCodes
  import opened BucketMaps
  import opened PairSeqs
  import opened KVPairDictionary
  import opened ChainTables

  /** Number of buckets a new dictionary starts with. */
  const InitialChains: nat := 11
  /** The load above which `put` rehashes first. */
  const LoadFactor: real := 0.75

  class ChainedHashDictionary<K(==), V> {
    /** `key.hashCode()`. */
    const hashCode: K -> int32
    var chains: array<ArrayDictionary?<K, V>>
    /** Total number of stored pairs. */
    var size: nat

    /** The contents of each bucket. */
    ghost var Buckets: seq<map<K, V>>
    ghost var Repr: set<object>
    /** The objects of the bucket dictionaries. */
    ghost var BucketRepr: set<object>

    ghost predicate Valid()
      reads this, Repr
      ensures Valid() ==> this in Repr
    {
      && Repr == {this, chains} + BucketRepr && this !in BucketRepr
      && ChainsValid(hashCode, chains, Buckets, BucketRepr)
      && size == TotalSize(Buckets)
    }

    /** The map the dictionary stands for. */
    ghost function Contents(): map<K, V>
      reads this
    {
      Flatten(Buckets)
    }

    constructor (hashCode: K -> int32)
      ensures Valid() && fresh(Repr)
      ensures Contents() == map[] && size == 0
      ensures chains.Length == InitialChains
    {
      this.hashCode := hashCode;
      var table, bs := EmptyTable(hashCode, InitialChains);
      chains, size := table, 0;
      Buckets, BucketRepr := bs, {};
      Repr := {this, chains};
    }

    /** A new array of `length` null buckets. */
    static method EmptyTable(hashCode: K -> int32, length: nat)
      returns (table: array<ArrayDictionary?<K, V>>, ghost bs: seq<map<K, V>>)
      requires 0 < length
      ensures fresh(table) && table.Length == length
      ensures ChainsValid(hashCode, table, bs, {})
      ensures Flatten(bs) == map[] && TotalSize(bs) == 0
    {
      table := new ArrayDictionary?<K, V>[length](_ => null);
      bs := seq(length, _ => map[]);
      FlattenEmpty(bs);
    }

    /** The value stored for `key`; NoSuchKeyException from an empty bucket
        or from the bucket dictionary. */
    method Get(key: K) returns (r: Result<V>)
      requires Valid()
      ensures key in Contents() ==> r == Ok(Contents()[key])
      ensures key !in Contents() ==> r == Err(NoSuchKey)
    {
      var index := HashValue(hashCode(key), chains.Length);
      Placed(hashCode, Buckets, key);
      var dict := chains[index];
      if dict == null {
        return Err(NoSuchKey);
      }
      r := dict.Get(key);
    }

    /** Rehashes when the load is too high, then stores the pair; a new key
        increments `size` (the maintenance `putPairIn` does on `chains`). */
    method Put(key: K, value: V)
      requires Valid()
      modifies Repr
      ensures Valid() && fresh(Repr - old(Repr))
      ensures Contents() == old(Contents())[key := value]
      ensures size == if key in old(Contents()) then old(size) else old(size) + 1
      ensures chains.Length ==
                if (old(size) as real) / (old(chains.Length) as real) > LoadFactor
                then 2 * old(chains.Length) + 1 else old(chains.Length)
    {
      Grow();
      PutPair(key, value);
    }

    /** `putPairIn(key, value, this.chains)`, with the size maintenance it
        does on `chains`. */
    method PutPair(key: K, value: V)
      requires Valid()
      modifies Repr
      ensures Valid() && fresh(Repr - old(Repr))
      ensures Contents() == old(Contents())[key := value]
      ensures size == if key in old(Contents()) then old(size) else old(size) + 1
      ensures chains == old(chains)
    {
      var added, bs, repr := PutPairIn(key, value, chains, Buckets, BucketRepr);
      Install(chains, bs, repr, if added then size + 1 else size);
    }

    /** Makes `table`, whose buckets stand for `bs`, this dictionary's
        bucket array, with `n` pairs. */
    method Install(table: array<ArrayDictionary?<K, V>>, ghost bs: seq<map<K, V>>,
                   ghost repr: set<object>, n: nat)
      requires ChainsValid(hashCode, table, bs, repr) && this !in repr
      requires n == TotalSize(bs)
      modifies this
      ensures Valid() && chains == table && Buckets == bs && size == n
      ensures Repr == {this, table} + repr
    {
      SetState(table, bs, repr, n);
    }

    /** The field assignments of `Install`. */
    method SetState(table: array<ArrayDictionary?<K, V>>, ghost bs: seq<map<K, V>>,
                    ghost repr: set<object>, n: nat)
      modifies this
      ensures chains == table && size == n && Buckets == bs && BucketRepr == repr
      ensures Repr == {this, table} + repr
    {
      chains, size, Buckets, BucketRepr := table, n, bs, repr;
      Repr := {this, chains} + repr;
    }

    /** Stores the pair in `table`'s bucket for `key`: `put` into the
        existing bucket, or into a new `ArrayDictionary` stored in the null
        slot. `added` tells whether the bucket grew, that is whether the
        key was new; the caller owning `table` updates its size. */
    method PutPairIn(key: K, value: V, table: array<ArrayDictionary?<K, V>>,
                     ghost bs: seq<map<K, V>>, ghost repr: set<object>)
      returns (added: bool, ghost bs': seq<map<K, V>>, ghost repr': set<object>)
      requires ChainsValid(hashCode, table, bs, repr)
      modifies table, repr
      ensures ChainsValid(hashCode, table, bs', repr') && fresh(repr' - repr)
      ensures Flatten(bs') == Flatten(bs)[key := value]
      ensures added <==> key !in Flatten(bs)
      ensures TotalSize(bs') == if added then TotalSize(bs) + 1 else TotalSize(bs)
    {
      var index := HashValue(hashCode(key), table.Length);
      Placed(hashCode, bs, key);
      FlattenPut(bs, index, key, value);
      TotalSizeUpdate(bs, index, bs[index][key := value]);
      bs' := bs[index := bs[index][key := value]];
      PutPlaced(hashCode, bs, key, value);
      if table[index] == null {
        repr' := NewBucket(key, value, table, index, bs, repr);
        added := true;
      } else {
        added, repr' := PutInBucket(key, value, table, index, bs, repr);
      }
    }

    /** `putPairIn` on a null slot: a new `ArrayDictionary` holding the pair. */
    method NewBucket(key: K, value: V, table: array<ArrayDictionary?<K, V>>, index: nat,
                     ghost bs: seq<map<K, V>>, ghost repr: set<object>)
      returns (ghost repr': set<object>)
      requires ChainsValid(hashCode, table, bs, repr)
      requires index < table.Length && table[index] == null
      requires WellPlaced(hashCode, bs[index := bs[index][key := value]])
      modifies table
      ensures ChainsValid(hashCode, table, bs[index := bs[index][key := value]], repr')
      ensures fresh(repr' - repr)
    {
      var data := SingletonBucket(key, value);
      table[index] := data;
      repr' := repr + data.Repr;
      forall j | 0 <= j < |bs| && j != index && table[j] != null
        ensures table[j].Valid() && table[j].Contents() == bs[j]
      {
        assert old(table[j].Valid());
        assert unchanged(old(table[j].Repr));
      }
    }

    /** The new bucket of `putPairIn`: an empty `ArrayDictionary` given the pair. */
    static method SingletonBucket(key: K, value: V) returns (data: ArrayDictionary<K, V>)
      ensures data.Valid() && fresh(data.Repr)
      ensures data.Contents() == map[key := value]
    {
      data := new ArrayDictionary<K, V>();
      data.Put(key, value);
    }

    /** `putPairIn` on an existing bucket: `put` into it, comparing its size
        before and after. */
    method PutInBucket(key: K, value: V, table: array<ArrayDictionary?<K, V>>, index: nat,
                       ghost bs: seq<map<K, V>>, ghost repr: set<object>)
      returns (added: bool, ghost repr': set<object>)
      requires ChainsValid(hashCode, table, bs, repr)
      requires index < table.Length && table[index] != null
      requires WellPlaced(hashCode, bs[index := bs[index][key := value]])
      modifies repr
      ensures ChainsValid(hashCode, table, bs[index := bs[index][key := value]], repr')
      ensures fresh(repr' - repr)
      ensures added <==> key !in bs[index]
    {
      var dict := table[index];
      added := BucketPut(dict, key, value);
      repr' := repr + dict.Repr;
      forall j | 0 <= j < |bs| && j != index && table[j] != null
        ensures table[j].Valid() && table[j].Contents() == bs[j]
        ensures table[j].Repr == old(table[j].Repr) && table[j].pairs == old(table[j].pairs)
      {
        assert old(table[j].Valid());
        assert old(table[index] != table[j] && table[index].pairs != table[j].pairs);
        assert unchanged(old(table[j].Repr));
      }
    }

    /** `put` into an existing bucket, telling by its size before and after
        whether the key was new. */
    static method BucketPut(dict: ArrayDictionary<K, V>, key: K, value: V) returns (added: bool)
      requires dict.Valid()
      modifies dict.Repr
      ensures dict.Valid() && fresh(dict.Repr - old(dict.Repr))
      ensures dict.Contents() == old(dict.Contents())[key := value]
      ensures added <==> key !in old(dict.Contents())
    {
      var sizeBefore := dict.Size();
      dict.Put(key, value);
      var sizeAfter := dict.Size();
      added := sizeBefore < sizeAfter;
    }

    /** When `size / length > 0.75`, moves every pair into a fresh array of
        `2 * length + 1` buckets, each to the bucket its hash selects under
        the new length. */
    method Grow()
      requires Valid()
      modifies this
      ensures Valid() && fresh(Repr - old(Repr))
      ensures Contents() == old(Contents()) && size == old(size)
      ensures chains.Length ==
                if (old(size) as real) / (old(chains.Length) as real) > LoadFactor
                then 2 * old(chains.Length) + 1 else old(chains.Length)
    {
      if (size as real) / (chains.Length as real) > LoadFactor {
        var temp, tb, tr := Rehashed(chains, Buckets, BucketRepr, chains.Length * 2 + 1);
        Install(temp, tb, tr, size);
      }
    }

    /** The new bucket array of `grow`: every pair of every bucket of
        `table`, in bucket order, put into a fresh array of `length`
        buckets. */
    method Rehashed(table: array<ArrayDictionary?<K, V>>, ghost bs: seq<map<K, V>>,
                    ghost repr: set<object>, length: nat)
      returns (temp: array<ArrayDictionary?<K, V>>, ghost tb: seq<map<K, V>>, ghost tr: set<object>)
      requires ChainsValid(hashCode, table, bs, repr) && 0 < length
      ensures fresh(temp) && fresh(tr) && temp.Length == length
      ensures ChainsValid(hashCode, temp, tb, tr)
      ensures Flatten(tb) == Flatten(bs) && TotalSize(tb) == TotalSize(bs)
    {
      temp, tb := EmptyTable(hashCode, length);
      tb, tr := MoveChains(table, bs, repr, temp, tb, {});
      assert tr - {} == tr;
      SameTotal(hashCode, bs, tb);
    }

    /** The outer loop of `grow`: the pairs of every bucket of `table`, in
        bucket order, put into the empty buckets of `temp`. */
    method MoveChains(table: array<ArrayDictionary?<K, V>>, ghost bs: seq<map<K, V>>,
                      ghost repr: set<object>, temp: array<ArrayDictionary?<K, V>>,
                      ghost tb: seq<map<K, V>>, ghost tr: set<object>)
      returns (ghost tb': seq<map<K, V>>, ghost tr': set<object>)
      requires ChainsValid(hashCode, table, bs, repr)
      requires ChainsValid(hashCode, temp, tb, tr) && Flatten(tb) == map[]
      requires repr !! tr && table !in tr && temp !in repr && temp != table
      modifies temp, tr
      ensures ChainsValid(hashCode, temp, tb', tr') && fresh(tr' - tr)
      ensures Flatten(tb') == Flatten(bs)
    {
      tb', tr' := tb, tr;
      FlattenEmpty(bs[..0]);
      for i := 0 to table.Length
        invariant ChainsValid(hashCode, table, bs, repr) && repr !! tr' && table !in tr'
        invariant ChainsValid(hashCode, temp, tb', tr') && fresh(tr' - tr)
        invariant Flatten(tb') == Flatten(bs[..i])
      {
        tb', tr' := MoveChain(table, bs, repr, i, temp, tb', tr');
      }
      assert bs[..table.Length] == bs;
    }

    /** One step of the outer loop of `grow`: the pairs of bucket `i` of
        `table`, if it is not null, put into `temp`. */
    method MoveChain(table: array<ArrayDictionary?<K, V>>, ghost bs: seq<map<K, V>>,
                     ghost repr: set<object>, i: nat, temp: array<ArrayDictionary?<K, V>>,
                     ghost tb: seq<map<K, V>>, ghost tr: set<object>)
      returns (ghost tb': seq<map<K, V>>, ghost tr': set<object>)
      requires ChainsValid(hashCode, table, bs, repr) && i < table.Length
      requires ChainsValid(hashCode, temp, tb, tr) && repr !! tr && temp !in repr
      requires Flatten(tb) == Flatten(bs[..i])
      modifies temp, tr
      ensures ChainsValid(hashCode, temp, tb', tr') && fresh(tr' - tr)
      ensures Flatten(tb') == Flatten(bs[..i + 1])
    {
      FlattenPrefix(bs, i);
      var data := table[i];
      if data != null {
        tb', tr' := MoveBucket(data, temp, tb, tr);
      } else {
        tb', tr' := tb, tr;
      }
    }

    /** The inner loop of `grow`: `putPairIn` of each pair of `data`, in
        array order, into `temp`. */
    method MoveBucket(data: ArrayDictionary<K, V>, temp: array<ArrayDictionary?<K, V>>,
                      ghost tb: seq<map<K, V>>, ghost tr: set<object>)
      returns (ghost tb': seq<map<K, V>>, ghost tr': set<object>)
      requires data.Valid() && ChainsValid(hashCode, temp, tb, tr)
      requires data.Repr !! tr && temp !in data.Repr
      modifies temp, tr
      ensures ChainsValid(hashCode, temp, tb', tr') && fresh(tr' - tr)
      ensures Flatten(tb') == Flatten(tb) + data.Contents()
    {
      tb', tr' := tb, tr;
      for j := 0 to data.size
        invariant ChainsValid(hashCode, temp, tb', tr') && fresh(tr' - tr)
        invariant Flatten(tb') == Flatten(tb) + ToMap(data.Pairs[..j])
      {
        tb', tr' := MovePair(data, j, temp, Flatten(tb), tb', tr');
      }
      assert data.Pairs[..data.size] == data.Pairs;
    }

    /** One step of the inner loop of `grow`: `putPairIn` of the pair at
        index `j` of `data`, after those before it. */
    method MovePair(data: ArrayDictionary<K, V>, j: nat, temp: array<ArrayDictionary?<K, V>>,
                    ghost base: map<K, V>, ghost tb: seq<map<K, V>>, ghost tr: set<object>)
      returns (ghost tb': seq<map<K, V>>, ghost tr': set<object>)
      requires data.Valid() && j < data.size && ChainsValid(hashCode, temp, tb, tr)
      requires data.Repr !! tr && temp !in data.Repr
      requires Flatten(tb) == base + ToMap(data.Pairs[..j])
      modifies temp, tr
      ensures ChainsValid(hashCode, temp, tb', tr') && fresh(tr' - tr)
      ensures Flatten(tb') == base + ToMap(data.Pairs[..j + 1])
    {
      var pair := data.pairs[j].value;
      assert data.Pairs[..j + 1][..j] == data.Pairs[..j];
      UnionUpdate(base, ToMap(data.Pairs[..j]), pair.key, pair.value);
      var added;
      added, tb', tr' := PutPairIn(pair.key, pair.value, temp, tb, tr);
    }

    /** Removes `key` and returns its value; NoSuchKeyException when
        `containsKey` is false. */
    method Remove(key: K) returns (r: Result<V>)
      requires Valid()
      modifies Repr
      ensures Valid() && Repr == old(Repr)
      ensures key !in old(Contents()) ==> r == Err(NoSuchKey)
      ensures key in old(Contents()) ==> r == Ok(old(Contents())[key])
      ensures Contents() == old(Contents()) - {key}
      ensures size == if key in old(Contents()) then old(size) - 1 else old(size)
    {
      var present := ContainsKey(key);
      if !present {
        return Err(NoSuchKey);
      }
      r := RemovePresent(key);
    }

    /** `remove` once `containsKey` holds: `size` goes down by one and the
        pair leaves its bucket. */
    method RemovePresent(key: K) returns (r: Result<V>)
      requires Valid() && key in Contents()
      modifies Repr
      ensures Valid() && Repr == old(Repr)
      ensures r == Ok(old(Contents())[key])
      ensures Contents() == old(Contents()) - {key}
      ensures size == old(size) - 1
    {
      ghost var bs;
      r, bs := RemovePairFrom(key, chains, Buckets, BucketRepr);
      Install(chains, bs, BucketRepr, size - 1);
    }

    /** The steps of `remove` after the `containsKey` test: `remove` on
        the bucket `key` hashes to. */
    method RemovePairFrom(key: K, table: array<ArrayDictionary?<K, V>>,
                          ghost bs: seq<map<K, V>>, ghost repr: set<object>)
      returns (r: Result<V>, ghost bs': seq<map<K, V>>)
      requires ChainsValid(hashCode, table, bs, repr) && key in Flatten(bs)
      modifies repr
      ensures ChainsValid(hashCode, table, bs', repr)
      ensures r == Ok(Flatten(bs)[key]) && Flatten(bs') == Flatten(bs) - {key}
      ensures TotalSize(bs') == TotalSize(bs) - 1
    {
      var index := HashValue(hashCode(key), table.Length);
      RemovePlaced(hashCode, bs, key);
      r, bs' := RemoveFromBucket(key, table, index, bs, repr);
    }

    /** The bucket step of `remove`: `remove` on the bucket holding `key`. */
    method RemoveFromBucket(key: K, table: array<ArrayDictionary?<K, V>>, index: nat,
                            ghost bs: seq<map<K, V>>, ghost repr: set<object>)
      returns (r: Result<V>, ghost bs': seq<map<K, V>>)
      requires ChainsValid(hashCode, table, bs, repr)
      requires index < |bs| && key in bs[index]
      modifies repr
      ensures ChainsValid(hashCode, table, bs', repr)
      ensures r == Ok(bs[index][key]) && bs' == bs[index := bs[index] - {key}]
    {
      var dict := table[index];
      r := BucketRemove(dict, key);
      bs' := bs[index := bs[index] - {key}];
      ShrinkPlaced(hashCode, bs, index, bs[index] - {key});
      forall j | 0 <= j < |bs| && j != index && table[j] != null
        ensures table[j].Valid() && table[j].Contents() == bs[j]
        ensures table[j].Repr == old(table[j].Repr) && table[j].pairs == old(table[j].pairs)
      {
        assert old(table[j].Valid());
        assert old(table[index] != table[j] && table[index].pairs != table[j].pairs);
        assert unchanged(old(table[j].Repr));
      }
    }

    /** `remove` on the bucket holding `key`. */
    static method BucketRemove(dict: ArrayDictionary<K, V>, key: K) returns (r: Result<V>)
      requires dict.Valid() && key in dict.Contents()
      modifies dict.Repr
      ensures dict.Valid() && dict.Repr == old(dict.Repr) && dict.pairs == old(dict.pairs)
      ensures dict.Contents() == old(dict.Contents()) - {key}
      ensures r == Ok(old(dict.Contents())[key])
    {
      r := dict.Remove(key);
    }

    /** Whether `key` is stored: false when `size` is 0 or the key's bucket
        is null, otherwise the bucket's answer. */
    method ContainsKey(key: K) returns (b: bool)
      requires Valid()
      ensures b <==> key in Contents()
    {
      PlacedDisjoint(hashCode, Buckets);
      FlattenSize(Buckets);
      if size != 0 {
        var index := HashValue(hashCode(key), chains.Length);
        Placed(hashCode, Buckets, key);
        var temp := chains[index];
        if temp == null {
          return false;
        }
        b := temp.ContainsKey(key);
        return;
      }
      return false;
    }

    /** The number of stored pairs. */
    method Size() returns (n: nat)
      requires Valid()
      ensures n == |Contents()|
    {
      PlacedDisjoint(hashCode, Buckets);
      FlattenSize(Buckets);
      n := size;
    }
  }
}
