/** The doubly linked list of project2: `front`, `back` and `size`, over
    nodes whose `data` never changes and whose `prev`/`next` links are
    rewired in place. */
module DoubleLinkedLists {
  import opened Outcomes

  class Node<T> {
    const data: T
    var prev: Node?<T>
    var next: Node?<T>

    constructor (prev: Node?<T>, data: T, next: Node?<T>)
      ensures this.prev == prev && this.data == data && this.next == next
    {
      this.prev := prev;
      this.data := data;
      this.next := next;
    }
  }

  /** The data of a sequence of nodes, in order. */
  ghost function Values<T>(ns: seq<Node<T>>): (s: seq<T>)
    ensures |s| == |ns|
    ensures forall i :: 0 <= i < |ns| ==> s[i] == ns[i].data
  {
    seq(|ns|, i requires 0 <= i < |ns| => ns[i].data)
  }

  /** Splicing a node in at position `i` splices its data in at `i`. */
  lemma ValuesInsert<T>(ns: seq<Node<T>>, i: nat, n: Node<T>)
    requires i <= |ns|
    ensures Values(ns[..i] + [n] + ns[i..]) == Values(ns)[..i] + [n.data] + Values(ns)[i..]
  {
  }

  /** Cutting out the node at position `i` cuts out its data. */
  lemma ValuesDelete<T>(ns: seq<Node<T>>, i: nat)
    requires i < |ns|
    ensures Values(ns[..i] + ns[i + 1..]) == Values(ns)[..i] + Values(ns)[i + 1..]
  {
  }

  /** Replacing the node at position `i` replaces its data. */
  lemma ValuesUpdate<T>(ns: seq<Node<T>>, i: nat, n: Node<T>)
    requires i < |ns|
    ensures Values(ns[i := n]) == Values(ns)[i := n.data]
  {
  }

  class DoubleLinkedList<T(==)> {
    var front: Node?<T>
    var back: Node?<T>
    var size: nat

    /** The nodes from `front` to `back`. */
    ghost var Nodes: seq<Node<T>>
    ghost var Repr: set<object>

    ghost predicate Valid()
      reads this, Repr
      ensures Valid() ==> this in Repr
    {
      && this in Repr
      && |Nodes| == size
      && (forall i :: 0 <= i < size ==> Nodes[i] in Repr)
      && (forall i, j :: 0 <= i < j < size ==> Nodes[i] != Nodes[j])
      && (size == 0 ==> front == null && back == null)
      && (size > 0 ==> front == Nodes[0] && back == Nodes[size - 1])
      && (size > 0 ==> front.prev == null && back.next == null)
      && (forall i :: 0 <= i < size - 1 ==> Nodes[i].next == Nodes[i + 1] && Nodes[i + 1].prev == Nodes[i])
    }

    /** The list the object stands for: the data of its nodes, in order. */
    ghost function Contents(): seq<T>
      reads this
    {
      Values(Nodes)
    }

    /** Following `next` from the node at position `i` reaches the node at
        position `i + 1`, or null past the back. */
    lemma Successor(i: nat)
      requires Valid() && i < size
      ensures i + 1 < size ==> Nodes[i].next == Nodes[i + 1]
      ensures Nodes[i].next == null <==> i + 1 == size
    {
    }

    constructor ()
      ensures Valid() && fresh(Repr)
      ensures Contents() == []
    {
      front, back, size := null, null, 0;
      Nodes, Repr := [], {this};
    }

    /** Appends `item` at the back. */
    method Add(item: T)
      requires Valid()
      modifies Repr
      ensures Valid() && fresh(Repr - old(Repr))
      ensures Contents() == old(Contents()) + [item]
    {
      var node;
      if size == 0 {
        node := new Node<T>(null, item, null);
        front := node;
        back := front;
      } else {
        node := new Node<T>(back, item, null);
        back := node;
        back.prev.next := back;
      }
      size := size + 1;
      ghost var before := Nodes;
      Nodes, Repr := Nodes + [node], Repr + {node};
      assert forall i :: 0 <= i < |before| ==> Nodes[i] == before[i];
    }

    /** Removes and returns the last element; EmptyContainerException on an
        empty list. */
    method Remove() returns (r: Result<T>)
      requires Valid()
      modifies Repr
      ensures Valid() && Repr == old(Repr)
      ensures old(size) == 0 ==> r == Err(EmptyContainer) && Contents() == old(Contents())
      ensures old(size) > 0 ==> r == Ok(old(Contents())[old(size) - 1])
      ensures old(size) > 0 ==> Contents() == old(Contents())[..old(size) - 1]
    {
      if size == 0 {
        return Err(EmptyContainer);
      }
      var data;
      if size == 1 {
        data := front.data;
        front, back := null, null;
      } else {
        data := back.data;
        assert Nodes[size - 2].next == back && back.prev == Nodes[size - 2];
        back := back.prev;
        back.next := null;
      }
      size := size - 1;
      Nodes := Nodes[..size];
      return Ok(data);
    }

    /** IndexOutOfBoundsException unless `0 <= index < size`. */
    method IndexBoundCheck(index: int) returns (s: Status)
      requires Valid()
      ensures s == if 0 <= index < |Contents()| then Done else Failed(IndexOutOfBounds)
    {
      if index < 0 || index >= size {
        return Failed(IndexOutOfBounds);
      }
      return Done;
    }

    /** The element at `index`; IndexOutOfBoundsException outside the list. */
    method Get(index: int) returns (r: Result<T>)
      requires Valid()
      ensures 0 <= index < |Contents()| ==> r == Ok(Contents()[index])
      ensures !(0 <= index < |Contents()|) ==> r == Err(IndexOutOfBounds)
    {
      var s := IndexBoundCheck(index);
      if s.Failed? {
        return Err(s.error);
      }
      var node := GetNode(index);
      return Ok(node.data);
    }

    /** Replaces the element at `index` by a new node holding `item`;
        IndexOutOfBoundsException outside the list. */
    method Set(index: int, item: T) returns (s: Status)
      requires Valid()
      modifies Repr
      ensures Valid() && fresh(Repr - old(Repr))
      ensures s == if 0 <= index < |old(Contents())| then Done else Failed(IndexOutOfBounds)
      ensures 0 <= index < |old(Contents())| ==> Contents() == old(Contents())[index := item]
      ensures !(0 <= index < |old(Contents())|) ==> Contents() == old(Contents())
    {
      s := IndexBoundCheck(index);
      if s.Failed? {
        return;
      }
      var node;
      if index == 0 {
        node := SetFront(item);
      } else {
        node := SetInner(index, item);
      }
      ValuesUpdate(old(Nodes), index, node);
    }

    /** The `index == 0` branch of `set`: a new front node. */
    method SetFront(item: T) returns (temp: Node<T>)
      requires Valid() && 0 < size
      modifies Repr
      ensures Valid() && fresh(Repr - old(Repr))
      ensures Nodes == old(Nodes)[0 := temp] && temp.data == item
    {
      assert front.next == if size == 1 then null else Nodes[1];
      temp := new Node<T>(null, item, front.next);
      if front.next != null {
        front.next.prev := temp;
      }
      front := temp;
      if size == 1 {
        back := front;
      }
      ghost var before := Nodes;
      Nodes, Repr := Nodes[0 := temp], Repr + {temp};
      forall i | 0 <= i < size - 1
        ensures Nodes[i].next == Nodes[i + 1] && Nodes[i + 1].prev == Nodes[i]
      {
        if i > 0 {
          assert Nodes[i] == before[i] && Nodes[i + 1] == before[i + 1] != before[1];
          assert old(before[i].next == before[i + 1] && before[i + 1].prev == before[i]);
        }
      }
    }

    /** The `index > 0` branch of `set`: the node at `index` is replaced by
        a new one between the same neighbours. */
    method SetInner(index: nat, item: T) returns (temp: Node<T>)
      requires Valid() && 0 < index < size
      modifies Repr
      ensures Valid() && fresh(Repr - old(Repr))
      ensures Nodes == old(Nodes)[index := temp] && temp.data == item
    {
      temp := GetNode(index);
      assert temp.prev == Nodes[index - 1];
      assert temp.next == if index == size - 1 then null else Nodes[index + 1];
      temp := new Node<T>(temp.prev, item, temp.next);
      temp.prev.next := temp;
      if temp.next != null {
        temp.next.prev := temp;
      } else {
        back := temp;
      }
      ghost var before := Nodes;
      Nodes, Repr := Nodes[index := temp], Repr + {temp};
      forall i | 0 <= i < size - 1
        ensures Nodes[i].next == Nodes[i + 1] && Nodes[i + 1].prev == Nodes[i]
      {
        if i != index - 1 && i != index {
          assert Nodes[i] == before[i] != before[index - 1];
          assert Nodes[i + 1] == before[i + 1];
          assert index + 1 < size ==> before[i + 1] != before[index + 1];
          assert old(before[i].next == before[i + 1] && before[i + 1].prev == before[i]);
        }
      }
    }

    /** Puts `item` at position `index`, `0 <= index <= size`, shifting the
        later elements right; IndexOutOfBoundsException otherwise. */
    method Insert(index: int, item: T) returns (s: Status)
      requires Valid()
      modifies Repr
      ensures Valid() && fresh(Repr - old(Repr))
      ensures s == if 0 <= index <= |old(Contents())| then Done else Failed(IndexOutOfBounds)
      ensures 0 <= index <= |old(Contents())| ==>
                Contents() == old(Contents())[..index] + [item] + old(Contents())[index..]
      ensures !(0 <= index <= |old(Contents())|) ==> Contents() == old(Contents())
    {
      if index < 0 || index >= size + 1 {
        return Failed(IndexOutOfBounds);
      }
      if index == size {
        Add(item);
        assert old(Contents())[index..] == [];
      } else {
        var node;
        if index == 0 {
          node := InsertFront(item);
          assert Nodes == old(Nodes)[..0] + [node] + old(Nodes)[0..];
        } else {
          node := InsertInner(index, item);
        }
        ValuesInsert(old(Nodes), index, node);
      }
      return Done;
    }

    /** The `index == 0` branch of `insert` on a non-empty list. */
    method InsertFront(item: T) returns (temp: Node<T>)
      requires Valid() && 0 < size
      modifies Repr
      ensures Valid() && fresh(Repr - old(Repr))
      ensures Nodes == [temp] + old(Nodes) && temp.data == item
    {
      temp := new Node<T>(null, item, front);
      front.prev := temp;
      front := temp;
      size := size + 1;
      ghost var before := Nodes;
      Nodes, Repr := [temp] + Nodes, Repr + {temp};
      assert forall i :: 0 < i < size ==> Nodes[i] == before[i - 1];
    }

    /** The `0 < index < size` branch of `insert`: a new node just before
        the node at `index`. */
    method InsertInner(index: nat, item: T) returns (temp: Node<T>)
      requires Valid() && 0 < index < size
      modifies Repr
      ensures Valid() && fresh(Repr - old(Repr))
      ensures Nodes == old(Nodes)[..index] + [temp] + old(Nodes)[index..] && temp.data == item
    {
      temp := GetNode(index);
      assert temp.prev == Nodes[index - 1];
      temp := new Node<T>(temp.prev, item, temp);
      temp.prev.next := temp;
      temp.next.prev := temp;
      size := size + 1;
      ghost var before := Nodes;
      Nodes, Repr := Nodes[..index] + [temp] + Nodes[index..], Repr + {temp};
      forall i | 0 <= i < size - 1
        ensures Nodes[i].next == Nodes[i + 1] && Nodes[i + 1].prev == Nodes[i]
      {
        if i < index - 1 {
          assert Nodes[i] == before[i] != before[index - 1];
          assert Nodes[i + 1] == before[i + 1] != before[index];
          assert old(before[i].next == before[i + 1] && before[i + 1].prev == before[i]);
        } else if index < i {
          assert Nodes[i] == before[i - 1] != before[index - 1];
          assert Nodes[i + 1] == before[i] != before[index];
          assert old(before[i - 1].next == before[i] && before[i].prev == before[i - 1]);
        }
      }
    }

    /** Removes and returns the element at `index`, keeping the order of the
        rest; IndexOutOfBoundsException outside the list. */
    method Delete(index: int) returns (r: Result<T>)
      requires Valid()
      modifies Repr
      ensures Valid() && Repr == old(Repr)
      ensures 0 <= index < |old(Contents())| ==> r == Ok(old(Contents())[index])
      ensures 0 <= index < |old(Contents())| ==>
                Contents() == old(Contents())[..index] + old(Contents())[index + 1..]
      ensures !(0 <= index < |old(Contents())|) ==> r == Err(IndexOutOfBounds) && Contents() == old(Contents())
    {
      var s := IndexBoundCheck(index);
      if s.Failed? {
        return Err(s.error);
      }
      if size == 1 && index == 0 {
        r := Remove();
        return;
      }
      if index == 0 {
        r := DeleteFront();
        assert Nodes == old(Nodes)[..0] + old(Nodes)[1..];
      } else {
        r := DeleteInner(index);
      }
      ValuesDelete(old(Nodes), index);
    }

    /** The `index == 0` branch of `delete` on a list of two or more. */
    method DeleteFront() returns (r: Result<T>)
      requires Valid() && 1 < size
      modifies Repr
      ensures Valid() && Repr == old(Repr)
      ensures r == Ok(old(Nodes)[0].data) && Nodes == old(Nodes)[1..]
    {
      var data := front.data;
      assert front.next == Nodes[1];
      front := front.next;
      front.prev := null;
      size := size - 1;
      Nodes := Nodes[1..];
      return Ok(data);
    }

    /** The `0 < index < size` branch of `delete`: the neighbours of the node
        at `index` are linked to each other, or its predecessor becomes the
        back. */
    method DeleteInner(index: nat) returns (r: Result<T>)
      requires Valid() && 0 < index < size
      modifies Repr
      ensures Valid() && Repr == old(Repr)
      ensures r == Ok(old(Nodes)[index].data)
      ensures Nodes == old(Nodes)[..index] + old(Nodes)[index + 1..]
    {
      var temp := GetNode(index);
      var data := temp.data;
      assert temp.prev == Nodes[index - 1];
      assert temp.next == if index == size - 1 then null else Nodes[index + 1];
      if temp.next == null {
        back := temp.prev;
        back.next := null;
      } else {
        assert temp.next == Nodes[index + 1];
        temp.prev.next := temp.next;
        temp.next.prev := temp.prev;
      }
      size := size - 1;
      ghost var before := Nodes;
      Nodes := Nodes[..index] + Nodes[index + 1..];
      forall i | 0 <= i < size - 1
        ensures Nodes[i].next == Nodes[i + 1] && Nodes[i + 1].prev == Nodes[i]
      {
        if i < index - 1 {
          assert Nodes[i] == before[i] != before[index - 1];
          assert Nodes[i + 1] == before[i + 1];
          assert old(before[i].next == before[i + 1] && before[i + 1].prev == before[i]);
        } else if index <= i {
          assert Nodes[i] == before[i + 1] != before[index - 1];
          assert Nodes[i + 1] == before[i + 2] != before[index + 1];
          assert old(before[i + 1].next == before[i + 2] && before[i + 2].prev == before[i + 1]);
        }
      }
      return Ok(data);
    }

    /** The node at `index`, walking from the front when `index` lies in the
        first half and from the back otherwise. */
    method GetNode(index: nat) returns (node: Node<T>)
      requires Valid() && index < size
      ensures node == Nodes[index]
    {
      var temp := front;
      if size - index > size / 2 {
        var counter := 0;
        while counter != index && temp != null
          invariant 0 <= counter <= index
          invariant temp == Nodes[counter]
          decreases index - counter
        {
          temp := temp.next;
          counter := counter + 1;
        }
      } else {
        temp := back;
        var counter := size - 1;
        while counter != index && temp != null
          invariant index <= counter < size
          invariant temp == Nodes[counter]
          decreases counter - index
        {
          temp := temp.prev;
          counter := counter - 1;
        }
      }
      node := temp;
    }

    /** Whether `item` occurs in the list: `indexOf(item) > -1`. */
    method Contains(item: T) returns (b: bool)
      requires Valid()
      ensures b <==> item in Contents()
    {
      var index := IndexOf(item);
      b := index > -1;
    }

    /** The position of the first element equal to `item`, or -1. */
    method IndexOf(item: T) returns (index: int)
      requires Valid()
      ensures -1 <= index < |Contents()|
      ensures index == -1 <==> item !in Contents()
      ensures 0 <= index ==> Contents()[index] == item
      ensures forall j :: 0 <= j < index ==> Contents()[j] != item
    {
      var temp := front;
      index := 0;
      while temp != null
        invariant 0 <= index <= size
        invariant temp == if index == size then null else Nodes[index]
        invariant forall j :: 0 <= j < index ==> Nodes[j].data != item
        decreases size - index
      {
        if temp.data == item {
          return index;
        }
        temp := temp.next;
        index := index + 1;
      }
      return -1;
    }

    /** The number of elements. */
    method Size() returns (n: nat)
      requires Valid()
      ensures n == |Contents()|
    {
      n := size;
    }
  }
}
