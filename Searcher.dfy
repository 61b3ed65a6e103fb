/** What `topKSort` promises, on values: the elements kept are a largest
    `k` of those seen, and the output is sorted. */
module TopK {
  ghost predicate Sorted(s: seq<int>) {
    forall i, j :: 0 <= i < j < |s| ==> s[i] <= s[j]
  }

  /** `kept` is taken from `all`, and nothing left out of it is greater than
      anything in it: `kept` is a largest `|kept|` elements of `all`. */
  ghost predicate LargestOf(kept: multiset<int>, all: multiset<int>) {
    && kept <= all
    && forall x, y :: x in all - kept && y in kept ==> x <= y
  }

  /** While fewer than `k` elements have been seen, the heap keeps them all. */
  lemma KeepNext(kept: multiset<int>, all: multiset<int>, x: int)
    requires kept == all
    ensures kept + multiset{x} == all + multiset{x}
    ensures LargestOf(kept + multiset{x}, all + multiset{x})
  {
    assert (all + multiset{x}) - (kept + multiset{x}) == multiset{};
  }

  /** A new element greater than the least kept one replaces it. */
  lemma ReplaceLeast(kept: multiset<int>, all: multiset<int>, least: int, x: int)
    requires LargestOf(kept, all)
    requires least in kept && forall y :: y in kept ==> least <= y
    requires least < x
    ensures LargestOf(kept - multiset{least} + multiset{x}, all + multiset{x})
  {
    var kept' := kept - multiset{least} + multiset{x};
    var all' := all + multiset{x};
    forall a, b | a in all' - kept' && b in kept'
      ensures a <= b
    {
      if a == least {
        assert b == x || b in kept;
      } else {
        assert a in all - kept;
        assert b == x || b in kept;
      }
    }
  }

  /** A new element no greater than the least kept one is left out. */
  lemma SkipNext(kept: multiset<int>, all: multiset<int>, least: int, x: int)
    requires LargestOf(kept, all)
    requires least in kept && forall y :: y in kept ==> least <= y
    requires x <= least
    ensures LargestOf(kept, all + multiset{x})
  {
    forall a, b | a in all + multiset{x} - kept && b in kept
      ensures a <= b
    {
      if a != x {
        assert a in all - kept;
      }
    }
  }

  /** The state of the pass after the first `count` elements of `all`,
      with room for `k`: the kept elements are all of those seen while
      fewer than `k` were, and a largest `k` of them after that. */
  ghost predicate Selection(kept: multiset<int>, all: seq<int>, count: nat, k: nat) {
    && count <= |all|
    && |kept| == (if count < k then count else k)
    && (count <= k ==> kept == multiset(all[..count]))
    && LargestOf(kept, multiset(all[..count]))
  }

  /** Once every element has been seen, a largest `k` of them are kept. */
  lemma SelectionDone(kept: multiset<int>, all: seq<int>, k: nat)
    requires Selection(kept, all, |all|, k) && k <= |all|
    ensures |kept| == k && LargestOf(kept, multiset(all))
  {
    assert all[..|all|] == all;
  }
}

/** `Searcher.topKSort` of project3: one pass over the input keeps the `k`
    largest elements seen so far in a min-heap bounded by `k`; the heap is
    then drained, least first, into a new list. */
module Searcher {
  import opened TopK
  import opened Outcomes
  import opened ArrayHeaps
  import opened DoubleLinkedLists

  /** Returns the `k` largest elements of `input` in ascending order;
      IllegalArgumentException when `k < 0`. The input is only read. */
  method TopKSort(k: int, input: DoubleLinkedList<int>) returns (r: Result<DoubleLinkedList<int>>)
    requires input.Valid()
    ensures r.Ok? <==> 0 <= k
    ensures r.Err? ==> r.error == IllegalArgument
    ensures r.Ok? ==> fresh(r.value.Repr) && r.value.Valid()
    ensures r.Ok? ==> |r.value.Contents()| == if k < |input.Contents()| then k else |input.Contents()|
    ensures r.Ok? ==> Sorted(r.value.Contents())
    ensures r.Ok? ==> LargestOf(multiset(r.value.Contents()), multiset(input.Contents()))
    ensures input.Contents() == old(input.Contents())
  {
    var k := k;
    if k < 0 {
      return Err(IllegalArgument);
    } else if k == 0 {
      var empty := new DoubleLinkedList<int>();
      return Ok(empty);
    } else if k > input.size {
      k := input.size;
    }
    var list := Largest(k, input);
    return Ok(list);
  }

  /** The heap pass and the drain of `topKSort`, once `k` is at most the
      input's size. */
  method Largest(k: nat, input: DoubleLinkedList<int>) returns (list: DoubleLinkedList<int>)
    requires input.Valid() && k <= input.size && (input.size > 0 ==> k > 0)
    ensures fresh(list.Repr) && list.Valid()
    ensures |list.Contents()| == k
    ensures Sorted(list.Contents())
    ensures LargestOf(multiset(list.Contents()), multiset(input.Contents()))
  {
    var minHeap := new ArrayHeap();
    list := new DoubleLinkedList<int>();
    Select(k, input, minHeap);
    Drain(minHeap, list);
  }

  /** The pass over `input` (its iterator walks the nodes from `front`):
      the first `k` elements go into the heap; each later one replaces the
      heap's least element when it is strictly greater. */
  method Select(k: nat, input: DoubleLinkedList<int>, h: ArrayHeap)
    requires input.Valid() && h.Valid() && h.Contents() == multiset{}
    requires k <= input.size && (input.size > 0 ==> k > 0)
    requires h.Repr !! input.Repr
    modifies h.Repr
    ensures h.Valid() && fresh(h.Repr - old(h.Repr))
    ensures |h.Contents()| == k
    ensures LargestOf(h.Contents(), multiset(input.Contents()))
  {
    var count := 0;
    var node := input.front;
    ghost var all := input.Contents();
    assert all[..0] == [];
    while node != null
      invariant count <= input.size
      invariant count < input.size ==> node == input.Nodes[count]
      invariant node == null <==> count == input.size
      invariant h.Valid() && fresh(h.Repr - old(h.Repr)) && h.Repr !! input.Repr
      invariant input.Contents() == all && |all| == input.size
      invariant Selection(h.Contents(), all, count, k)
      decreases input.size - count
    {
      assert input.Valid();
      node := SelectStep(k, input, h, node, count);
      count := count + 1;
    }
    SelectionDone(h.Contents(), all, k);
  }

  /** One turn of the pass: the element of the node at position `count`
      is visited and the walk moves on to the next node. */
  method SelectStep(k: nat, input: DoubleLinkedList<int>, h: ArrayHeap, node: Node<int>, count: nat)
    returns (next: Node?<int>)
    requires input.Valid() && h.Valid() && h.Repr !! input.Repr
    requires count < input.size && node == input.Nodes[count] && 0 < k
    requires Selection(h.Contents(), input.Contents(), count, k)
    modifies h.Repr
    ensures h.Valid() && fresh(h.Repr - old(h.Repr)) && h.Repr !! input.Repr
    ensures count + 1 < input.size ==> next == input.Nodes[count + 1]
    ensures next == null <==> count + 1 == input.size
    ensures Selection(h.Contents(), input.Contents(), count + 1, k)
  {
    var ele := node.data;
    input.Successor(count);
    next := node.next;
    assert input.Contents()[..count + 1] == input.Contents()[..count] + [ele];
    Visit(h, ele, count < k, multiset(input.Contents()[..count]));
  }

  /** The body of the pass for one element `ele`; `fill` says whether fewer
      than `k` elements have been seen. */
  method Visit(h: ArrayHeap, ele: int, fill: bool, ghost seen: multiset<int>)
    requires h.Valid() && LargestOf(h.Contents(), seen)
    requires fill ==> h.Contents() == seen
    requires !fill ==> 0 < |h.Contents()|
    modifies h.Repr
    ensures h.Valid() && fresh(h.Repr - old(h.Repr))
    ensures |h.Contents()| == if fill then old(|h.Contents()|) + 1 else old(|h.Contents()|)
    ensures fill ==> h.Contents() == seen + multiset{ele}
    ensures LargestOf(h.Contents(), seen + multiset{ele})
  {
    if fill {
      KeepNext(h.Contents(), seen, ele);
      var _ := h.Insert(Some(ele));
    } else {
      var minVal := h.PeekMin();
      if ele > minVal.value {
        Evict(h, minVal.value, ele, seen);
      } else {
        SkipNext(h.Contents(), seen, minVal.value, ele);
      }
    }
  }

  /** `removeMin` then `insert(ele)`, for an `ele` greater than the least
      element `least`. */
  method Evict(h: ArrayHeap, least: int, ele: int, ghost seen: multiset<int>)
    requires h.Valid() && LargestOf(h.Contents(), seen)
    requires least in h.Contents() && forall y :: y in h.Contents() ==> least <= y
    requires least < ele
    modifies h.Repr
    ensures h.Valid() && fresh(h.Repr - old(h.Repr))
    ensures |h.Contents()| == old(|h.Contents()|)
    ensures LargestOf(h.Contents(), seen + multiset{ele})
  {
    ReplaceLeast(h.Contents(), seen, least, ele);
    var _ := h.RemoveMin();
    var _ := h.Insert(Some(ele));
  }

  /** The drain loop's invariant: `out` is sorted, no element of `out`
      exceeds one still in `rest`, and together they make up `total`. */
  ghost predicate Drained(out: seq<int>, rest: multiset<int>, total: multiset<int>) {
    && Sorted(out)
    && (forall x, y :: x in out && y in rest ==> x <= y)
    && multiset(out) + rest == total
  }

  /** Appending the least remaining element keeps `Drained`. */
  lemma DrainStep(out: seq<int>, rest: multiset<int>, total: multiset<int>, m: int)
    requires Drained(out, rest, total)
    requires m in rest && forall y :: y in rest ==> m <= y
    ensures Drained(out + [m], rest - multiset{m}, total)
  {
    var out' := out + [m];
    forall i, j | 0 <= i < j < |out'|
      ensures out'[i] <= out'[j]
    {
      if j == |out| {
        assert out[i] in out;
      }
    }
    forall x, y | x in out' && y in rest - multiset{m}
      ensures x <= y
    {
      if x != m {
        assert x in out;
      }
    }
    assert multiset(out') == multiset(out) + multiset{m};
  }

  /** Moves the heap's elements into `list`, least first. */
  method Drain(minHeap: ArrayHeap, list: DoubleLinkedList<int>)
    requires minHeap.Valid() && list.Valid() && list.Contents() == []
    requires minHeap.Repr !! list.Repr
    modifies minHeap.Repr, list.Repr
    ensures list.Valid() && fresh(list.Repr - old(list.Repr))
    ensures Sorted(list.Contents())
    ensures multiset(list.Contents()) == old(minHeap.Contents())
  {
    while minHeap.size > 0
      invariant minHeap.Valid() && list.Valid() && minHeap.Repr !! list.Repr
      invariant fresh(minHeap.Repr - old(minHeap.Repr)) && fresh(list.Repr - old(list.Repr))
      invariant Drained(list.Contents(), minHeap.Contents(), old(minHeap.Contents()))
      decreases minHeap.size
    {
      MoveLeast(minHeap, list, old(minHeap.Contents()));
    }
  }

  /** One turn of the drain loop: `list.add(minHeap.removeMin())`. */
  method MoveLeast(minHeap: ArrayHeap, list: DoubleLinkedList<int>, ghost total: multiset<int>)
    requires minHeap.Valid() && list.Valid() && minHeap.Repr !! list.Repr && minHeap.size > 0
    requires Drained(list.Contents(), minHeap.Contents(), total)
    modifies minHeap.Repr, list.Repr
    ensures minHeap.Valid() && list.Valid() && minHeap.Repr !! list.Repr
    ensures fresh(minHeap.Repr - old(minHeap.Repr)) && fresh(list.Repr - old(list.Repr))
    ensures minHeap.size == old(minHeap.size) - 1
    ensures Drained(list.Contents(), minHeap.Contents(), total)
  {
    var min := minHeap.RemoveMin();
    DrainStep(list.Contents(), old(minHeap.Contents()), total, min.value);
    list.Add(min.value);
  }
}
