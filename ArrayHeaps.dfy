/** The 4-ary array min-heap of project3. Elements are integers; the
    array doubles when full before an insert and halves after a removal
    that leaves it less than a third full. */
module ArrayHeaps {
  import opened Outcomes

  const NumChildren: nat := 4
  /** Room for a root, its children and its grandchildren: 21. */
  const DefaultCapacity: nat := 1 + NumChildren + NumChildren * NumChildren

  /** Index of the parent of slot `i`. */
  function Parent(i: nat): (p: nat)
    requires 0 < i
    ensures p < i
    ensures NumChildren * p + 1 <= i <= NumChildren * p + NumChildren
  {
    (i - 1) / NumChildren
  }

  /** Every element is at least its parent. */
  ghost predicate HeapOrdered(s: seq<int>) {
    forall i :: 0 < i < |s| ==> s[Parent(i)] <= s[i]
  }

  /** The root of a heap-ordered sequence is its least element. */
  lemma {:induction false} RootIsMin(s: seq<int>, j: nat)
    requires HeapOrdered(s) && j < |s|
    ensures s[0] <= s[j]
    decreases j
  {
    if j > 0 {
      RootIsMin(s, Parent(j));
    }
  }

  /** `RootIsMin` for every element of the multiset. */
  lemma RootIsLeast(s: seq<int>)
    requires HeapOrdered(s) && 0 < |s|
    ensures s[0] in multiset(s)
    ensures forall x :: x in multiset(s) ==> s[0] <= x
  {
    forall x | x in multiset(s)
      ensures s[0] <= x
    {
      var j :| 0 <= j < |s| && s[j] == x;
      RootIsMin(s, j);
    }
  }

  /** Moving the last element to the root and dropping the last slot removes
      one copy of the root from the multiset. */
  lemma LastToRoot(s: seq<int>)
    requires 0 < |s|
    ensures multiset(s[0 := s[|s| - 1]][..|s| - 1]) == multiset(s) - multiset{s[0]}
    ensures HeapOrdered(s) ==> OrderedBelow(s[0 := s[|s| - 1]][..|s| - 1], 0)
  {
    var n := |s| - 1;
    if n > 0 {
      assert s[0 := s[n]][..n] == s[..n][0 := s[n]];
      assert s == s[..n] + [s[n]];
    }
  }

  /** Exchanging two slots keeps the multiset of a prefix that holds both. */
  lemma SwapPrefix(s: seq<int>, t: seq<int>, i: nat, j: nat, n: nat)
    requires i < n && j < n && n <= |s| == |t|
    requires t == s[i := s[j]][j := s[i]]
    ensures t[..n] == s[..n][i := s[j]][j := s[i]]
    ensures multiset(t[..n]) == multiset(s[..n])
  {
    assert t[..n] == s[..n][i := s[j]][j := s[i]];
  }

  /** The sift-up invariant: `s` is heap-ordered except perhaps between
      slot `i` and its parent, and the parent of `i` is at most every child
      of `i`. */
  ghost predicate OrderedAbove(s: seq<int>, i: nat) {
    && i < |s|
    && (forall k :: 0 < k < |s| && k != i ==> s[Parent(k)] <= s[k])
    && (0 < i ==> forall k {:trigger Parent(k)} :: 0 < k < |s| && Parent(k) == i ==> s[Parent(i)] <= s[k])
  }

  /** `s` with slots `i` and `j` exchanged. */
  function Swapped(s: seq<int>, i: nat, j: nat): (t: seq<int>)
    requires i < |s| && j < |s|
    ensures |t| == |s| && t[i] == s[j] && t[j] == s[i]
    ensures forall k :: 0 <= k < |s| && k != i && k != j ==> t[k] == s[k]
  {
    s[i := s[j]][j := s[i]]
  }

  /** One step of `percolateUp`: swapping a slot with a greater parent moves
      the possible disorder one level up. */
  lemma SiftUpStep(s: seq<int>, i: nat)
    requires OrderedAbove(s, i) && 0 < i && s[i] < s[Parent(i)]
    ensures OrderedAbove(Swapped(s, i, Parent(i)), Parent(i))
  {
    var p := Parent(i);
    var t := Swapped(s, i, p);
    forall k | 0 < k < |t| && k != p
      ensures t[Parent(k)] <= t[k]
    {
      if k != i && Parent(k) == p {
        assert s[Parent(k)] <= s[k];
      }
    }
    if 0 < p {
      forall k | 0 < k < |t| && Parent(k) == p
        ensures t[Parent(p)] <= t[k]
      {
        assert s[Parent(p)] <= s[p];
        if k != i {
          assert s[p] <= s[k];
        }
      }
    }
  }

  /** A heap-ordered sequence with one element appended is ordered except
      perhaps above the new last slot. */
  lemma AppendOrderedAbove(s: seq<int>, x: int)
    requires HeapOrdered(s)
    ensures OrderedAbove(s + [x], |s|)
  {
    var t := s + [x];
    forall k | 0 < k < |t| && k != |s|
      ensures t[Parent(k)] <= t[k]
    {
      assert t[Parent(k)] == s[Parent(k)] && t[k] == s[k];
    }
  }

  /** `percolateUp` stops at the root or below a parent that is not greater;
      either way the sequence is heap-ordered. */
  lemma SiftUpDone(s: seq<int>, i: nat)
    requires OrderedAbove(s, i) && (i == 0 || s[Parent(i)] <= s[i])
    ensures HeapOrdered(s)
  {
  }

  /** The sift-down invariant: `s` is heap-ordered except perhaps between
      slot `i` and its children, and the parent of `i` is at most every child
      of `i`. */
  ghost predicate OrderedBelow(s: seq<int>, i: nat) {
    && (i < |s| || |s| == 0)
    && (forall k :: 0 < k < |s| && Parent(k) != i ==> s[Parent(k)] <= s[k])
    && (0 < i ==> forall k {:trigger Parent(k)} :: 0 < k < |s| && Parent(k) == i ==> s[Parent(i)] <= s[k])
  }

  /** One step of `percolateDown`: swapping a slot with its least child when
      that child is smaller moves the possible disorder one level down. */
  lemma SiftDownStep(s: seq<int>, i: nat, m: nat)
    requires OrderedBelow(s, i) && 0 < m < |s| && Parent(m) == i && s[m] < s[i]
    requires forall k {:trigger Parent(k)} :: 0 < k < |s| && Parent(k) == i ==> s[m] <= s[k]
    ensures OrderedBelow(Swapped(s, i, m), m)
  {
    var t := Swapped(s, i, m);
    forall k | 0 < k < |t| && Parent(k) != m
      ensures t[Parent(k)] <= t[k]
    {
      if k == m {
      } else if Parent(k) == i {
      } else if k == i {
      }
    }
    forall k | 0 < k < |t| && Parent(k) == m
      ensures t[Parent(m)] <= t[k]
    {
      assert s[m] <= s[k];
    }
  }

  /** `percolateDown` stops at a slot whose children are all at least its
      element (or that has none); then the sequence is heap-ordered. */
  lemma SiftDownDone(s: seq<int>, i: nat)
    requires OrderedBelow(s, i)
    requires forall k {:trigger Parent(k)} :: 0 < k < |s| && Parent(k) == i ==> s[i] <= s[k]
    ensures HeapOrdered(s)
  {
  }

  function Pow2(d: nat): (r: nat)
    ensures 1 <= r
  {
    if d == 0 then 1 else 2 * Pow2(d - 1)
  }

  class ArrayHeap {
    /** The heap array; slots `size..` hold nothing of interest. */
    var heap: array<int>
    var size: nat

    /** How many more doublings than halvings the array has seen. */
    ghost var Doublings: nat
    ghost var Repr: set<object>

    ghost predicate Valid()
      reads this, Repr
      ensures Valid() ==> this in Repr
    {
      && Repr == {this, heap}
      && heap.Length == DefaultCapacity * Pow2(Doublings)
      && size <= heap.Length
      && HeapOrdered(heap[..size])
    }

    /** The multiset the heap stands for. */
    ghost function Contents(): multiset<int>
      reads this, heap
      requires size <= heap.Length
    {
      multiset(heap[..size])
    }

    constructor ()
      ensures Valid() && fresh(Repr)
      ensures Contents() == multiset{} && heap.Length == DefaultCapacity
    {
      heap := new int[DefaultCapacity];
      size := 0;
      Doublings := 0;
      Repr := {this, heap};
    }

    /** The least element, or EmptyContainerException when empty. */
    method PeekMin() returns (r: Result<int>)
      requires Valid()
      ensures r.Err? <==> size == 0
      ensures r.Err? ==> r.error == EmptyContainer
      ensures r.Ok? ==> r.value in Contents() && forall x :: x in Contents() ==> r.value <= x
    {
      if size == 0 {
        return Err(EmptyContainer);
      }
      RootIsLeast(heap[..size]);
      return Ok(heap[0]);
    }

    /** Adds `item`; a missing item (Java `null`) is an
        IllegalArgumentException and changes nothing. */
    method Insert(item: Option<int>) returns (s: Status)
      requires Valid()
      modifies Repr
      ensures Valid() && fresh(Repr - old(Repr))
      ensures item.None? ==> s == Failed(IllegalArgument) && Contents() == old(Contents())
      ensures item.None? ==> size == old(size) && heap == old(heap)
      ensures item.Some? ==> s == Done && Contents() == old(Contents()) + multiset{item.value}
      ensures item.Some? ==> size == old(size) + 1
      ensures item.Some? ==> heap.Length == if old(size) >= old(heap.Length) then 2 * old(heap.Length) else old(heap.Length)
    {
      if item.None? {
        return Failed(IllegalArgument);
      }
      Grow();
      PercolateUp(item.value);
      size := size + 1;
      return Done;
    }

    /** Doubles the array when it is full, keeping the first `size` slots. */
    method Grow()
      requires Valid()
      modifies this
      ensures Valid() && fresh(Repr - old(Repr)) && size < heap.Length
      ensures size == old(size) && heap[..size] == old(heap[..size])
      ensures heap.Length == if size >= old(heap.Length) then 2 * old(heap.Length) else old(heap.Length)
    {
      if size >= heap.Length {
        var temp := new int[heap.Length * 2];
        forall k | 0 <= k < size {
          temp[k] := heap[k];
        }
        heap := temp;
        Doublings := Doublings + 1;
        Repr := {this, heap};
      }
    }

    /** Puts `item` in slot `size` and swaps it up past every greater
        parent. */
    method PercolateUp(item: int)
      requires size < heap.Length && HeapOrdered(heap[..size])
      modifies heap
      ensures HeapOrdered(heap[..size + 1])
      ensures multiset(heap[..size + 1]) == multiset(old(heap[..size])) + multiset{item}
    {
      heap[size] := item;
      assert heap[..size + 1] == old(heap[..size]) + [item];
      AppendOrderedAbove(old(heap[..size]), item);
      SiftUp(size, size + 1);
    }

    /** The loop of `percolateUp`, from slot `start` among the first `n`. */
    method SiftUp(start: nat, ghost n: nat)
      requires n <= heap.Length && OrderedAbove(heap[..n], start)
      modifies heap
      ensures HeapOrdered(heap[..n])
      ensures multiset(heap[..n]) == multiset(old(heap[..n]))
    {
      var i: nat := start;
      var parent := 0;
      while i > 0 && parent >= 0
        invariant multiset(heap[..n]) == multiset(old(heap[..n]))
        invariant OrderedAbove(heap[..n], i)
      {
        parent := Parent(i);
        if heap[i] < heap[parent] {
          SwapUp(i, n);
          i := parent;
        } else {
          break;
        }
      }
      SiftUpDone(heap[..n], i);
    }

    /** The swap step of `percolateUp`: slot `i` and its greater parent
        trade places. */
    method SwapUp(i: nat, ghost n: nat)
      requires 0 < i < n <= heap.Length && OrderedAbove(heap[..n], i) && heap[i] < heap[Parent(i)]
      modifies heap
      ensures OrderedAbove(heap[..n], Parent(i))
      ensures multiset(heap[..n]) == multiset(old(heap[..n]))
    {
      SiftUpStep(heap[..n], i);
      Swap(i, Parent(i), n);
    }

    /** Exchanges slots `index1` and `index2`, both below `n`. */
    method Swap(index1: nat, index2: nat, ghost n: nat)
      requires index1 < n && index2 < n && n <= heap.Length
      modifies heap
      ensures heap[..n] == Swapped(old(heap[..n]), index1, index2)
      ensures multiset(heap[..n]) == multiset(old(heap[..n]))
    {
      var temp := heap[index1];
      heap[index1] := heap[index2];
      heap[index2] := temp;
      SwapPrefix(old(heap[..]), heap[..], index1, index2, n);
    }

    /** Removes and returns the least element; EmptyContainerException when
        empty. The array is halved afterwards when it has grown past the
        default and is less than a third full. */
    method RemoveMin() returns (r: Result<int>)
      requires Valid()
      modifies Repr
      ensures Valid() && fresh(Repr - old(Repr))
      ensures r.Err? <==> old(size) == 0
      ensures r.Err? ==> r.error == EmptyContainer && Contents() == old(Contents()) && heap == old(heap)
      ensures r.Ok? ==> r.value in old(Contents()) && forall x :: x in old(Contents()) ==> r.value <= x
      ensures r.Ok? ==> Contents() == old(Contents()) - multiset{r.value} && size == old(size) - 1
      ensures r.Ok? ==>
                heap.Length == if old(heap.Length) > DefaultCapacity && size < old(heap.Length) / 3
                               then old(heap.Length) / 2 else old(heap.Length)
    {
      if size == 0 {
        return Err(EmptyContainer);
      }
      var min := TakeRoot();
      Shrink();
      return Ok(min);
    }

    /** The body of `removeMin` before the shrink: the root is read, the
        last element takes its place and sifts down. */
    method TakeRoot() returns (min: int)
      requires 0 < size <= heap.Length && HeapOrdered(heap[..size])
      modifies this, heap
      ensures heap == old(heap) && Repr == old(Repr) && Doublings == old(Doublings)
      ensures size == old(size) - 1 && HeapOrdered(heap[..size])
      ensures min in old(multiset(heap[..size])) && forall x :: x in old(multiset(heap[..size])) ==> min <= x
      ensures multiset(heap[..size]) == old(multiset(heap[..size])) - multiset{min}
    {
      RootIsLeast(heap[..size]);
      min := heap[0];
      ghost var s := heap[..size];
      heap[0] := heap[size - 1];
      assert heap[..size] == s[0 := s[size - 1]];
      LastToRoot(s);
      PercolateDown();
    }

    /** Takes the last slot off and sifts the element now at the root down
        past every smaller least child. */
    method PercolateDown()
      requires 0 < size <= heap.Length && heap[0] == heap[size - 1]
      requires OrderedBelow(heap[..size][..size - 1], 0)
      modifies this, heap
      ensures heap == old(heap) && size == old(size) - 1
      ensures Repr == old(Repr) && Doublings == old(Doublings)
      ensures HeapOrdered(heap[..size])
      ensures multiset(heap[..size]) == multiset(old(heap[..size][..size - 1]))
    {
      var lastElement := heap[size - 1];
      size := size - 1;
      assert heap[..size] == old(heap[..size][..size - 1]);
      ghost var m := multiset(heap[..size]);
      var i := 0;
      var minChildIndex;
      while i * NumChildren + 1 < size
        invariant i < heap.Length && heap[i] == lastElement
        invariant multiset(heap[..size]) == m
        invariant OrderedBelow(heap[..size], i)
        decreases size - i
        modifies heap
      {
        minChildIndex := i * NumChildren + 1;
        if minChildIndex > size {
          break;
        }
        minChildIndex := MinChild(i);
        if lastElement > heap[minChildIndex] {
          SiftDownStep(heap[..size], i, minChildIndex);
          Swap(i, minChildIndex, size);
          i := minChildIndex;
        } else {
          break;
        }
      }
      SiftDownDone(heap[..size], i);
    }

    /** The inner loop of `percolateDown`: the first least child of `i`. */
    method MinChild(i: nat) returns (minIndex: nat)
      requires i * NumChildren + 1 < size <= heap.Length
      ensures i < minIndex < size && Parent(minIndex) == i
      ensures forall k {:trigger Parent(k)} :: 0 < k < size && Parent(k) == i ==> heap[minIndex] <= heap[k]
      ensures forall t :: i * NumChildren + 1 <= t < minIndex ==> heap[t] > heap[minIndex]
    {
      var minChildIndex := i * NumChildren + 1;
      minIndex := minChildIndex;
      var j := 1;
      while j < NumChildren
        invariant 1 <= j <= NumChildren
        invariant minChildIndex <= minIndex < minChildIndex + j && minIndex < size
        invariant forall t :: minChildIndex <= t < minChildIndex + j && t < size ==> heap[minIndex] <= heap[t]
        invariant forall t :: minChildIndex <= t < minIndex ==> heap[t] > heap[minIndex]
      {
        if minChildIndex + j >= size {
          break;
        }
        if heap[minIndex] > heap[minChildIndex + j] {
          minIndex := minChildIndex + j;
        }
        j := j + 1;
      }
    }

    /** Halves the array when it is past the default and less than a third
        full, keeping the first `size` slots. */
    method Shrink()
      requires size <= heap.Length && HeapOrdered(heap[..size])
      requires Repr == {this, heap} && heap.Length == DefaultCapacity * Pow2(Doublings)
      modifies this
      ensures Valid() && fresh(Repr - old(Repr))
      ensures size == old(size) && heap[..size] == old(heap[..size])
      ensures heap.Length ==
                if old(heap.Length) > DefaultCapacity && size < old(heap.Length) / 3 then old(heap.Length) / 2
                else old(heap.Length)
    {
      if heap.Length > DefaultCapacity && size < heap.Length / 3 {
        var temp := new int[heap.Length / 2];
        forall k | 0 <= k < size {
          temp[k] := heap[k];
        }
        assert Doublings > 0;
        heap := temp;
        Doublings := Doublings - 1;
        Repr := {this, heap};
      }
    }

    method Size() returns (n: nat)
      requires Valid()
      ensures n == |Contents()|
    {
      n := size;
    }
  }
}
