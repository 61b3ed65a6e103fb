/** The chained hash set of project2: a `ChainedHashDictionary` from the
    elements to `true`. */
module ChainedHashSets {
  import opened Outcomes
  import opened HashCodes
  import opened ChainedHash

  class ChainedHashSet<T(==)> {
    /** The backing dictionary; every stored value is `true`. */
    const dict: ChainedHashDictionary<T, bool>

    /** The objects of the set: itself and those of the dictionary. */
    ghost function Repr(): set<object>
      reads this, dict
    {
      {this} + dict.Repr
    }

    ghost predicate Valid()
      reads this, dict, Repr()
      ensures Valid() ==> this in Repr()
    {
      && this !in dict.Repr
      && dict.Valid()
      && forall t :: t in dict.Contents() ==> dict.Contents()[t]
    }

    /** The set the object stands for: the keys of the dictionary. */
    ghost function Elements(): set<T>
      reads this, dict
    {
      dict.Contents().Keys
    }

    constructor (hashCode: T -> int32)
      ensures Valid() && fresh(Repr())
      ensures Elements() == {}
    {
      dict := new ChainedHashDictionary<T, bool>(hashCode);
    }

    /** `map.put(item, true)`. */
    method Add(item: T)
      requires Valid()
      modifies Repr()
      ensures Valid() && fresh(Repr() - old(Repr()))
      ensures Elements() == old(Elements()) + {item}
    {
      dict.Put(item, true);
    }

    /** `map.remove(item)`, with NoSuchKeyException turned into
        NoSuchElementException. */
    method Remove(item: T) returns (s: Status)
      requires Valid()
      modifies Repr()
      ensures Valid() && Repr() == old(Repr())
      ensures s == if item in old(Elements()) then Done else Failed(NoSuchElement)
      ensures Elements() == old(Elements()) - {item}
    {
      var r := dict.Remove(item);
      if r.Err? {
        return Failed(NoSuchElement);
      }
      return Done;
    }

    /** `map.containsKey(item)`. */
    method Contains(item: T) returns (b: bool)
      requires Valid()
      ensures b <==> item in Elements()
    {
      b := dict.ContainsKey(item);
    }

    /** `map.size()`. */
    method Size() returns (n: nat)
      requires Valid()
      ensures n == |Elements()|
    {
      n := dict.Size();
    }
  }
}
