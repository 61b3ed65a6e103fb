/** The array dictionary of project2: key/value pairs kept in a growable
    array, looked up by linear scan. Overwriting a key stores a fresh
    immutable pair in its slot. */
module KVPairDictionary {
  import opened Outcomes
  import opened PairSeqs

  /** Length of the pair array a new dictionary starts with. */
  const InitialCapacity: nat := 10

  class ArrayDictionary<K(==), V> {
    /** The pair array; `None` is a slot Java leaves `null`. */
    var pairs: array<Option<KVPair<K, V>>>
    /** Number of live pairs, which sit in `pairs[0..size)`. */
    var size: nat

    /** The live pairs, in array order. */
    ghost var Pairs: seq<KVPair<K, V>>
    ghost var Repr: set<object>

    ghost predicate Valid()
      reads this, Repr
      ensures Valid() ==> this in Repr
    {
      && Repr == {this, pairs}
      && InitialCapacity <= pairs.Length
      && size <= pairs.Length
      && |Pairs| == size
      && (forall i :: 0 <= i < size ==> pairs[i] == Some(Pairs[i]))
      && DistinctKeys(Pairs)
    }

    /** The map the dictionary stands for. */
    ghost function Contents(): map<K, V>
      reads this
    {
      ToMap(Pairs)
    }

    constructor ()
      ensures Valid() && fresh(Repr)
      ensures Pairs == [] && Contents() == map[]
      ensures pairs.Length == InitialCapacity
    {
      pairs := new Option<KVPair<K, V>>[InitialCapacity];
      size := 0;
      Pairs := [];
      Repr := {this, pairs};
    }

    /** Position of `key` among the live pairs, or -1 when it is absent. */
    method GetIndexOf(key: K) returns (index: int)
      requires Valid()
      ensures -1 <= index < size
      ensures index == -1 <==> key !in Contents()
      ensures index >= 0 ==> Pairs[index].key == key
    {
      ToMapAt(Pairs, key);
      var i := 0;
      while i < size
        invariant 0 <= i <= size
        invariant forall j :: 0 <= j < i ==> Pairs[j].key != key
      {
        if pairs[i].value.key == key {
          return i;
        }
        i := i + 1;
      }
      return -1;
    }

    /** The value stored for `key`; throws NoSuchKeyException when absent. */
    method Get(key: K) returns (r: Result<V>)
      requires Valid()
      ensures key in Contents() ==> r == Ok(Contents()[key])
      ensures key !in Contents() ==> r == Err(NoSuchKey)
    {
      var index := GetIndexOf(key);
      ToMapAt(Pairs, key);
      if index < 0 {
        return Err(NoSuchKey);
      }
      return Ok(pairs[index].value.value);
    }

    /** Stores `value` for `key`: a new key is appended at index `size`, an
        existing key keeps its slot. A full array is doubled first. */
    method Put(key: K, value: V)
      requires Valid()
      modifies Repr
      ensures Valid() && fresh(Repr - old(Repr))
      ensures key !in old(Contents()) ==> Pairs == old(Pairs) + [KVPair(key, value)]
      ensures forall i :: 0 <= i < |old(Pairs)| && old(Pairs)[i].key == key ==>
                Pairs == old(Pairs)[i := KVPair(key, value)]
      ensures Contents() == old(Contents())[key := value]
      ensures pairs.Length == if old(size) == old(pairs.Length) then 2 * old(pairs.Length) else old(pairs.Length)
    {
      if size == pairs.Length {
        Grow();
      }
      var index := GetIndexOf(key);
      if index == -1 {
        AppendPair(key, value);
      } else {
        ghost var before := Pairs;
        SetValue(index, value);
        assert forall i :: 0 <= i < |before| && before[i].key == key ==> i == index;
      }
    }

    /** The new-key branch of `put`: the pair goes to index `size`. */
    method AppendPair(key: K, value: V)
      requires Valid() && size < pairs.Length && key !in Contents()
      modifies this, pairs
      ensures Valid() && Repr == old(Repr) && pairs == old(pairs)
      ensures Pairs == old(Pairs) + [KVPair(key, value)]
      ensures Contents() == old(Contents())[key := value]
    {
      AppendNew(Pairs, key, value);
      pairs[size] := Some(KVPair(key, value));
      size := size + 1;
      Pairs := Pairs + [KVPair(key, value)];
    }

    /** The existing-key branch of `put`: slot `index` gets a new pair with
        the same key and the new value. */
    method SetValue(index: nat, value: V)
      requires Valid() && index < size
      modifies this, pairs
      ensures Valid() && Repr == old(Repr) && pairs == old(pairs)
      ensures Pairs == old(Pairs)[index := KVPair(old(Pairs)[index].key, value)]
      ensures Contents() == old(Contents())[old(Pairs)[index].key := value]
    {
      Overwrite(Pairs, index, value);
      var temp := pairs[index].value;
      pairs[index] := Some(KVPair(temp.key, value));
      Pairs := Pairs[index := KVPair(temp.key, value)];
    }

    /** Replaces the pair array by one twice as long holding the same live
        pairs at the same indices. */
    method Grow()
      requires Valid()
      modifies this
      ensures Valid() && fresh(pairs) && Repr == {this, pairs}
      ensures pairs.Length == 2 * old(pairs.Length)
      ensures size == old(size) && Pairs == old(Pairs)
    {
      var length := pairs.Length;
      var copy := new Option<KVPair<K, V>>[length * 2];
      forall i | 0 <= i < size {
        copy[i] := pairs[i];
      }
      pairs := copy;
      Repr := {this, pairs};
    }

    /** Removes `key` and returns its value, shifting the later pairs left;
        throws NoSuchKeyException when the key is absent. */
    method Remove(key: K) returns (r: Result<V>)
      requires Valid()
      modifies Repr
      ensures Valid() && Repr == old(Repr) && pairs == old(pairs)
      ensures key !in old(Contents()) ==> r == Err(NoSuchKey) && Pairs == old(Pairs)
      ensures key in old(Contents()) ==> r == Ok(old(Contents())[key])
      ensures forall i :: 0 <= i < |old(Pairs)| && old(Pairs)[i].key == key ==>
                Pairs == old(Pairs)[..i] + old(Pairs)[i + 1..]
      ensures Contents() == old(Contents()) - {key}
    {
      var index := GetIndexOf(key);
      ToMapAt(Pairs, key);
      if index < 0 {
        return Err(NoSuchKey);
      }
      RemoveAt(Pairs, index);
      var value := pairs[index].value.value;
      assert forall i :: 0 <= i < |Pairs| && Pairs[i].key == key ==> i == index;
      RemoveIndex(index);
      return Ok(value);
    }

    /** The steps of `remove` once the key is found at `index`: the shift,
        then `size` goes down by one. */
    method RemoveIndex(index: nat)
      requires Valid() && index < size
      modifies Repr
      ensures Valid() && Repr == old(Repr) && pairs == old(pairs)
      ensures Pairs == old(Pairs)[..index] + old(Pairs)[index + 1..]
    {
      RemoveAtDistinct(Pairs, index);
      Shift(index);
      size := size - 1;
      Pairs := Pairs[..index] + Pairs[index + 1..];
    }

    /** Moves the pairs after `index` one slot to the left, overwriting the
        pair at `index`; the slot `size - 1` keeps its old pair. */
    method Shift(index: nat)
      requires Valid() && index < size
      modifies pairs
      ensures forall t :: 0 <= t < index ==> pairs[t] == old(pairs[t])
      ensures forall t :: index <= t < size - 1 ==> pairs[t] == old(pairs[t + 1])
      ensures forall t :: size - 1 <= t < pairs.Length ==> pairs[t] == old(pairs[t])
    {
      if size > 0 {
        var j := index;
        while j < size - 1
          invariant index <= j <= size - 1
          invariant forall t :: 0 <= t < index ==> pairs[t] == old(pairs[t])
          invariant forall t :: index <= t < j ==> pairs[t] == old(pairs[t + 1])
          invariant forall t :: j <= t < pairs.Length ==> pairs[t] == old(pairs[t])
        {
          pairs[j] := pairs[j + 1];
          j := j + 1;
        }
      }
    }

    /** Whether `key` is stored: exactly when `GetIndexOf` finds it. */
    method ContainsKey(key: K) returns (b: bool)
      requires Valid()
      ensures b <==> key in Contents()
    {
      var index := GetIndexOf(key);
      ToMapAt(Pairs, key);
      b := index >= 0;
    }

    /** The number of stored keys. */
    method Size() returns (n: nat)
      requires Valid()
      ensures n == |Contents()|
    {
      ToMapSize(Pairs);
      n := size;
    }
  }
}
