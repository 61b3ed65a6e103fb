/** The array dictionary of project1: like the project2 one, but its pairs
    are mutable objects, so overwriting a key assigns the `value` field of
    the pair already in the array, and growing copies every pair. */
module MutablePairDictionary {
  import opened Outcomes
  import opened PairSeqs

  /** Length of the pair array a new dictionary starts with. */
  const InitialCapacity: nat := 10

  /** A key/value pair whose value is updated in place. */
  class Pair<K, V> {
    var key: K
    var value: V

    constructor (key: K, value: V)
      ensures this.key == key && this.value == value
    {
      this.key := key;
      this.value := value;
    }

    /** The copy constructor used by `grow`. */
    constructor Copy(other: Pair<K, V>)
      ensures key == other.key && value == other.value
    {
      key := other.key;
      value := other.value;
    }
  }

  class ArrayDictionary<K(==), V> {
    var pairs: array<Pair?<K, V>>
    var size: nat

    /** The live pairs, in array order, as values. */
    ghost var Pairs: seq<KVPair<K, V>>
    ghost var Repr: set<object>

    ghost predicate Valid()
      reads this, Repr
      ensures Valid() ==> this in Repr
    {
      && this in Repr && pairs in Repr
      && InitialCapacity <= pairs.Length
      && size <= pairs.Length
      && |Pairs| == size
      && (forall i :: 0 <= i < size ==>
            pairs[i] != null && pairs[i] in Repr && Pairs[i] == KVPair(pairs[i].key, pairs[i].value))
      && (forall i, j :: 0 <= i < j < size ==> pairs[i] != pairs[j])
      && DistinctKeys(Pairs)
    }

    /** The map the dictionary stands for. */
    ghost function Contents(): map<K, V>
      reads this
    {
      ToMap(Pairs)
    }

    constructor ()
      ensures Valid() && fresh(Repr)
      ensures Pairs == [] && Contents() == map[]
      ensures pairs.Length == InitialCapacity
    {
      pairs := new Pair?<K, V>[InitialCapacity];
      size := 0;
      Pairs := [];
      Repr := {this, pairs};
    }

    /** Position of `key` among the live pairs, or -1 when it is absent. */
    method GetIndexOf(key: K) returns (index: int)
      requires Valid()
      ensures -1 <= index < size
      ensures index == -1 <==> key !in Contents()
      ensures index >= 0 ==> Pairs[index].key == key
    {
      ToMapAt(Pairs, key);
      var i := 0;
      while i < size
        invariant 0 <= i <= size
        invariant forall j :: 0 <= j < i ==> Pairs[j].key != key
      {
        if pairs[i].key == key {
          return i;
        }
        i := i + 1;
      }
      return -1;
    }

    /** The value stored for `key`; throws NoSuchKeyException when absent. */
    method Get(key: K) returns (r: Result<V>)
      requires Valid()
      ensures key in Contents() ==> r == Ok(Contents()[key])
      ensures key !in Contents() ==> r == Err(NoSuchKey)
    {
      var index := GetIndexOf(key);
      ToMapAt(Pairs, key);
      if index < 0 {
        return Err(NoSuchKey);
      }
      return Ok(pairs[index].value);
    }

    /** Stores `value` for `key`: a new key gets a new pair at index `size`;
        for an existing key the pair object itself is updated. */
    method Put(key: K, value: V)
      requires Valid()
      modifies Repr
      ensures Valid() && fresh(Repr - old(Repr))
      ensures key !in old(Contents()) ==> Pairs == old(Pairs) + [KVPair(key, value)]
      ensures forall i :: 0 <= i < |old(Pairs)| && old(Pairs)[i].key == key ==>
                Pairs == old(Pairs)[i := KVPair(key, value)]
      ensures Contents() == old(Contents())[key := value]
      ensures pairs.Length == if old(size) == old(pairs.Length) then 2 * old(pairs.Length) else old(pairs.Length)
    {
      if size == pairs.Length {
        Grow();
      }
      var index := GetIndexOf(key);
      if index == -1 {
        AppendPair(key, value);
      } else {
        ghost var before := Pairs;
        SetValue(index, value);
        assert forall i :: 0 <= i < |before| && before[i].key == key ==> i == index;
      }
    }

    /** The new-key branch of `put`: a new pair object at index `size`. */
    method AppendPair(key: K, value: V)
      requires Valid() && size < pairs.Length && key !in Contents()
      modifies this, pairs
      ensures Valid() && fresh(Repr - old(Repr)) && pairs == old(pairs)
      ensures Pairs == old(Pairs) + [KVPair(key, value)]
      ensures Contents() == old(Contents())[key := value]
    {
      AppendNew(Pairs, key, value);
      var p := new Pair(key, value);
      pairs[size] := p;
      size, Pairs, Repr := size + 1, Pairs + [KVPair(key, value)], Repr + {p};
    }

    /** The existing-key branch of `put`: the pair object at `index` gets
        the new value; no other pair, and not the array, changes. */
    method SetValue(index: nat, value: V)
      requires Valid() && index < size
      modifies this, pairs[index]
      ensures Valid() && Repr == old(Repr) && pairs == old(pairs)
      ensures Pairs == old(Pairs)[index := KVPair(old(Pairs)[index].key, value)]
      ensures Contents() == old(Contents())[old(Pairs)[index].key := value]
    {
      Overwrite(Pairs, index, value);
      var target := pairs[index];
      target.value := value;
      Pairs := Pairs[index := KVPair(target.key, value)];
    }

    /** Replaces the pair array by one twice as long, holding a fresh copy
        of every pair at the same index. Called only on a full array. */
    method Grow()
      requires Valid() && size == pairs.Length
      modifies this
      ensures Valid() && fresh(Repr - {this})
      ensures pairs.Length == 2 * old(pairs.Length)
      ensures size == old(size) && Pairs == old(Pairs)
    {
      var length := pairs.Length;
      var copy := new Pair?<K, V>[length * 2];
      ghost var copies: set<object> := {};
      for i := 0 to length
        modifies copy
        invariant fresh(copies)
        invariant forall j :: 0 <= j < i ==>
                    copy[j] != null && copy[j] in copies && Pairs[j] == KVPair(copy[j].key, copy[j].value)
        invariant forall j, k :: 0 <= j < k < i ==> copy[j] != copy[k]
      {
        var p := new Pair.Copy(pairs[i]);
        copy[i] := p;
        copies := copies + {p};
      }
      pairs := copy;
      Repr := {this, pairs} + copies;
    }

    /** Removes `key` and returns its value, shifting the later pairs left;
        throws NoSuchKeyException when the key is absent. */
    method Remove(key: K) returns (r: Result<V>)
      requires Valid()
      modifies Repr
      ensures Valid() && Repr == old(Repr) && pairs == old(pairs)
      ensures key !in old(Contents()) ==> r == Err(NoSuchKey) && Pairs == old(Pairs)
      ensures key in old(Contents()) ==> r == Ok(old(Contents())[key])
      ensures forall i :: 0 <= i < |old(Pairs)| && old(Pairs)[i].key == key ==>
                Pairs == old(Pairs)[..i] + old(Pairs)[i + 1..]
      ensures Contents() == old(Contents()) - {key}
    {
      var index := GetIndexOf(key);
      ToMapAt(Pairs, key);
      if index < 0 {
        return Err(NoSuchKey);
      }
      var value := pairs[index].value;
      ghost var before := Pairs;
      DeleteAt(index);
      assert forall i :: 0 <= i < |before| && before[i].key == key ==> i == index;
      return Ok(value);
    }

    /** The removal step of `remove`: the pair at `index` leaves the live
        prefix and the later pairs move one slot left. */
    method DeleteAt(index: nat)
      requires Valid() && index < size
      modifies this, pairs
      ensures Valid() && Repr == old(Repr) && pairs == old(pairs)
      ensures Pairs == old(Pairs)[..index] + old(Pairs)[index + 1..]
      ensures Contents() == old(Contents()) - {old(Pairs)[index].key}
    {
      RemoveAt(Pairs, index);
      ghost var before := Pairs;
      Shift(index);
      size := size - 1;
      Pairs := Pairs[..index] + Pairs[index + 1..];
      assert forall t :: index <= t < size ==> Pairs[t] == before[t + 1];
    }

    /** Moves the pairs after `index` one slot to the left, overwriting the
        pair at `index`; the slot `size - 1` keeps its old pair. */
    method Shift(index: nat)
      requires Valid() && index < size
      modifies pairs
      ensures forall t :: 0 <= t < index ==> pairs[t] == old(pairs[t])
      ensures forall t :: index <= t < size - 1 ==> pairs[t] == old(pairs[t + 1])
      ensures forall t :: size - 1 <= t < pairs.Length ==> pairs[t] == old(pairs[t])
    {
      if size > 0 {
        var j := index;
        while j < size - 1
          invariant index <= j <= size - 1
          invariant forall t :: 0 <= t < index ==> pairs[t] == old(pairs[t])
          invariant forall t :: index <= t < j ==> pairs[t] == old(pairs[t + 1])
          invariant forall t :: j <= t < pairs.Length ==> pairs[t] == old(pairs[t])
        {
          pairs[j] := pairs[j + 1];
          j := j + 1;
        }
      }
    }

    /** Whether `key` is stored: exactly when `GetIndexOf` finds it. */
    method ContainsKey(key: K) returns (b: bool)
      requires Valid()
      ensures b <==> key in Contents()
    {
      var index := GetIndexOf(key);
      b := index >= 0;
    }

    /** The number of stored keys. */
    method Size() returns (n: nat)
      requires Valid()
      ensures n == |Contents()|
    {
      ToMapSize(Pairs);
      n := size;
    }
  }
}
