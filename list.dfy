/**
 * custom::list<T>: a doubly-linked list whose operations rewire the
 * next/prev links of heap nodes by hand and keep a separate element count.
 *
 * The abstract value of a list is the ghost sequence Contents; the ghost
 * sequence Nodes lists the chain's nodes from head to tail, and Valid() ties
 * every node's links to its neighbours in Nodes. A list iterator is a
 * Node? (null is end()); Position maps it to an index in Nodes.
 */
module LinkedList {

  /** What the list reports (by throwing a message) instead of a value. */
  datatype Failure = EmptyList | NullDereference

  datatype Result<T> = Ok(value: T) | Err(failure: Failure)

  /** list<T>::Node: one element and its two links. */
  class Node<T> {
    var data: T
    var next: Node?<T>
    var prev: Node?<T>

    constructor (data: T)
      ensures this.data == data && next == null && prev == null
    {
      this.data := data;
      next := null;
      prev := null;
    }
  }

  class List<T> {
    var numElements: nat
    var head: Node?<T>
    var tail: Node?<T>

    ghost var Contents: seq<T>
    ghost var Nodes: seq<Node<T>>
    ghost var Repr: set<object>

    /** The chain of nodes: distinct, owned, holding Contents, linked both ways. */
    ghost predicate Linked()
      reads this`Repr, this`Nodes, this`Contents, Repr - {this}
    {
      && this in Repr
      && (forall i :: 0 <= i < |Nodes| ==> Nodes[i] in Repr)
      && |Nodes| == |Contents|
      && (forall i, j :: 0 <= i < j < |Nodes| ==> Nodes[i] != Nodes[j])
      && (forall i :: 0 <= i < |Nodes| ==> Nodes[i].data == Contents[i])
      && (forall i :: 0 <= i < |Nodes| - 1 ==> Nodes[i].next == Nodes[i + 1])
      && (forall i :: 0 < i < |Nodes| ==> Nodes[i].prev == Nodes[i - 1])
      && (|Nodes| > 0 ==> Nodes[0].prev == null && Nodes[|Nodes| - 1].next == null)
    }

    /** The list invariant: the chain, the count and the two end pointers agree. */
    ghost predicate Valid()
      reads this, Repr
      ensures Valid() ==> this in Repr
    {
      && Linked()
      && numElements == |Nodes|
      && head == (if |Nodes| == 0 then null else Nodes[0])
      && tail == (if |Nodes| == 0 then null else Nodes[|Nodes| - 1])
    }

    /** The index an iterator denotes: its node's place in the chain, or |Nodes| for end(). */
    ghost function Position(it: Node?<T>): (k: nat)
      reads this
      requires it == null || it in Nodes
      ensures k <= |Nodes|
      ensures it == null ==> k == |Nodes|
      ensures it != null ==> k < |Nodes| && Nodes[k] == it
    {
      if it == null then |Nodes| else var k :| 0 <= k < |Nodes| && Nodes[k] == it; k
    }

    /** In a valid list, the node at index k denotes position k. */
    lemma PositionAt(k: nat)
      requires Valid() && k < |Nodes|
      ensures Position(Nodes[k]) == k
    {
    }

    /** The shape facts the source asserts: empty exactly when both ends are
        null, a single element exactly when head == tail, and the open ends. */
    lemma Shape()
      requires Valid()
      ensures numElements == 0 <==> head == null && tail == null
      ensures numElements == 1 <==> head != null && head == tail
      ensures head != null ==> head.prev == null && tail != null && tail.next == null
      ensures forall i :: 0 <= i < |Nodes| - 1 ==> Nodes[i].next != null && Nodes[i].next.prev == Nodes[i]
      ensures forall i :: 0 < i < |Nodes| ==> Nodes[i].prev != null && Nodes[i].prev.next == Nodes[i]
    {
      if |Nodes| > 1 {
        assert Nodes[0] != Nodes[|Nodes| - 1];
      }
      forall i | 0 <= i < |Nodes| - 1
        ensures Nodes[i].next != null && Nodes[i].next.prev == Nodes[i]
      {
        assert Nodes[i + 1].prev == Nodes[i];
      }
      forall i | 0 < i < |Nodes|
        ensures Nodes[i].prev != null && Nodes[i].prev.next == Nodes[i]
      {
        assert Nodes[i - 1].next == Nodes[i];
      }
    }

    /** Two iterators into a valid list are equal exactly when they denote the same position. */
    lemma IteratorEquality(a: Node?<T>, b: Node?<T>)
      requires Valid()
      requires a == null || a in Nodes
      requires b == null || b in Nodes
      ensures a == b <==> Position(a) == Position(b)
    {
    }

    /** list() */
    constructor ()
      ensures Valid() && fresh(Repr) && Repr == {this}
      ensures Contents == [] && Nodes == []
    {
      numElements := 0;
      head := null;
      tail := null;
      Contents := [];
      Nodes := [];
      Repr := {this};
    }

    /** list(num, t): num fresh nodes, each holding t. */
    constructor Fill(num: nat, t: T)
      ensures Valid() && fresh(Repr)
      ensures |Contents| == num && forall k :: 0 <= k < num ==> Contents[k] == t
    {
      numElements := 0;
      head := null;
      tail := null;
      Contents := [];
      Nodes := [];
      new;
      Repr := {this};
      Build(num, t);
    }

    /** The body of list(num, t): a head node, then num - 1 nodes linked after it,
        then the tail and the count. */
    method Build(num: nat, t: T)
      requires Valid() && Nodes == []
      modifies Repr
      ensures Valid() && fresh(Repr - old(Repr))
      ensures |Contents| == num && forall k :: 0 <= k < num ==> Contents[k] == t
    {
      if num > 0 {
        var pNew := new Node(t);
        var pPrevious := pNew;
        head := pNew;
        pNew.prev := null;
        Nodes, Contents, Repr := [pNew], [t], Repr + {pNew};
        for i := 1 to num
          invariant Linked() && fresh(Repr - old(Repr))
          invariant |Nodes| == i && forall k :: 0 <= k < i ==> Contents[k] == t
          invariant head == Nodes[0] && pNew == pPrevious == Nodes[i - 1]
        {
          pNew := LinkAfter(pPrevious, t);
          pPrevious := pNew;
        }
        pNew.next := null;
        tail := pNew;
        numElements := num;
      }
    }

    /** The body of list(num, t)'s loop: a fresh node holding t is linked after
        the last node of the chain; head, tail and the count are left alone. */
    method LinkAfter(pPrevious: Node<T>, t: T) returns (pNew: Node<T>)
      requires Linked() && Nodes != [] && pPrevious == Nodes[|Nodes| - 1]
      modifies Repr
      ensures Linked() && fresh(pNew)
      ensures Nodes == old(Nodes) + [pNew] && Contents == old(Contents) + [t]
      ensures Repr == old(Repr) + {pNew}
      ensures head == old(head) && tail == old(tail) && numElements == old(numElements)
    {
      pNew := new Node(t);
      pNew.prev := pPrevious;
      pNew.prev.next := pNew;
      Nodes, Contents, Repr := Nodes + [pNew], Contents + [t], Repr + {pNew};
    }

    /** A list that has taken over src's chain, with no node changed since, is valid. */
    twostate lemma Adopted(new src: List<T>)
      requires old(allocated(src))
      requires old(src.Valid())
      requires head == old(src.head) && tail == old(src.tail) && numElements == old(src.numElements)
      requires Nodes == old(src.Nodes) && Contents == old(src.Contents) && Repr == {this} + (old(src.Repr) - {src})
      requires unchanged(old(src.Repr) - {src})
      ensures Valid()
    {
    }

    /** list(list&& rhs): takes rhs's chain without copying a node; rhs becomes empty. */
    constructor Move(rhs: List<T>)
      requires rhs.Valid()
      modifies rhs
      ensures Valid() && rhs.Valid()
      ensures Contents == old(rhs.Contents) && Nodes == old(rhs.Nodes)
      ensures rhs.Contents == [] && rhs.numElements == 0 && rhs.head == null && rhs.tail == null
      ensures Repr == {this} + (old(rhs.Repr) - {rhs}) && rhs.Repr == {rhs} && Repr !! rhs.Repr
    {
      numElements := rhs.numElements;
      head := rhs.head;
      tail := rhs.tail;
      Contents := rhs.Contents;
      Nodes := rhs.Nodes;
      new;
      label Built:
      Repr := {this} + (rhs.Repr - {rhs});
      Adopted@Built(rhs);
      rhs.head := null;
      rhs.tail := null;
      rhs.numElements := 0;
      rhs.Contents, rhs.Nodes, rhs.Repr := [], [], {rhs};
    }

    /** size(): read from the count, which equals the chain length. */
    function Size(): (n: nat)
      reads this, Repr
      requires Valid()
      ensures n == |Contents|
    {
      numElements
    }

    /** empty() */
    function Empty(): (b: bool)
      reads this, Repr
      requires Valid()
      ensures b <==> Contents == []
    {
      Size() == 0
    }

    /** begin(): the iterator at position 0 (end() when the list is empty). */
    function Begin(): (it: Node?<T>)
      reads this, Repr
      requires Valid()
      ensures it == null || it in Nodes
      ensures Position(it) == 0
    {
      head
    }

    /** rbegin(): the iterator at the last position (end() when the list is empty). */
    function RBegin(): (it: Node?<T>)
      reads this, Repr
      requires Valid()
      ensures it == null || it in Nodes
      ensures Position(it) == if Contents == [] then 0 else |Contents| - 1
    {
      tail
    }

    /** front(): the first element, or the empty-list error. */
    function Front(): (r: Result<T>)
      reads this, Repr
      requires Valid()
      ensures r.Err? <==> Contents == []
      ensures r.Err? ==> r.failure == EmptyList
      ensures r.Ok? ==> r.value == Contents[0]
    {
      if !Empty() then Ok(head.data) else Err(EmptyList)
    }

    /** back(): the last element, or the empty-list error. */
    function Back(): (r: Result<T>)
      reads this, Repr
      requires Valid()
      ensures r.Err? <==> Contents == []
      ensures r.Err? ==> r.failure == EmptyList
      ensures r.Ok? ==> r.value == Contents[|Contents| - 1]
    {
      if !Empty() then Ok(tail.data) else Err(EmptyList)
    }

    /** iterator::operator*: the element at the iterator, or the null-dereference error at end(). */
    function Get(it: Node?<T>): (r: Result<T>)
      reads this, Repr
      requires Valid()
      requires it == null || it in Nodes
      ensures r.Err? <==> it == null
      ensures r.Err? ==> r.failure == NullDereference
      ensures r.Ok? ==> r.value == Contents[Position(it)]
    {
      if it != null then Ok(it.data) else Err(NullDereference)
    }

    /** iterator::operator++: one position on; end() stays end(). */
    method Next(it: Node?<T>) returns (r: Node?<T>)
      requires Valid()
      requires it == null || it in Nodes
      ensures r == null || r in Nodes
      ensures Position(r) == if it == null then |Nodes| else Position(it) + 1
    {
      r := it;
      if r != null {
        ghost var k := Position(it);
        if k + 1 < |Nodes| {
          assert Nodes[k].next == Nodes[k + 1];
        }
        r := r.next;
      }
    }

    /** iterator::operator--: one position back; stepping back from the first
        element gives end(), and end() stays end(). */
    method Prev(it: Node?<T>) returns (r: Node?<T>)
      requires Valid()
      requires it == null || it in Nodes
      ensures r == null || r in Nodes
      ensures Position(r) == if it == null || Position(it) == 0 then |Nodes| else Position(it) - 1
    {
      r := it;
      if r != null {
        ghost var k := Position(it);
        if k > 0 {
          assert Nodes[k].prev == Nodes[k - 1];
        }
        r := r.prev;
      }
    }

    /** push_back(data) */
    method PushBack(x: T)
      requires Valid()
      modifies Repr
      ensures Valid() && fresh(Repr - old(Repr))
      ensures Contents == old(Contents) + [x]
      ensures numElements == old(numElements) + 1
      ensures Nodes[..|old(Nodes)|] == old(Nodes) && fresh(tail)
      ensures Back() == Ok(x)
      ensures old(Contents) == [] ==> head == tail
    {
      var pNew := new Node(x);
      pNew.prev := tail;
      if tail != null {
        tail.next := pNew;
      } else {
        head := pNew;
      }
      tail := pNew;
      numElements := numElements + 1;
      Nodes, Contents, Repr := Nodes + [pNew], Contents + [x], Repr + {pNew};
    }

    /** push_front(data) */
    method PushFront(x: T)
      requires Valid()
      modifies Repr
      ensures Valid() && fresh(Repr - old(Repr))
      ensures Contents == [x] + old(Contents)
      ensures numElements == old(numElements) + 1
      ensures Nodes[1..] == old(Nodes) && fresh(head)
      ensures Front() == Ok(x)
      ensures old(Contents) == [] ==> head == tail
    {
      var pNew := new Node(x);
      pNew.next := head;
      if head != null {
        head.prev := pNew;
      } else {
        tail := pNew;
      }
      head := pNew;
      numElements := numElements + 1;
      Nodes, Contents, Repr := [pNew] + Nodes, [x] + Contents, Repr + {pNew};
    }

    /** pop_back(): drops the last element; nothing happens on an empty list. */
    method PopBack()
      requires Valid()
      modifies Repr
      ensures Valid() && Repr <= old(Repr)
      ensures old(Contents) == [] ==> Contents == [] && numElements == 0
      ensures old(Contents) != [] ==> Contents == old(Contents[..|Contents| - 1]) && Nodes == old(Nodes[..|Nodes| - 1])
      ensures old(Contents) != [] ==> numElements == old(numElements) - 1 && old(tail) !in Repr
    {
      if numElements > 1 {
        ghost var last := tail;
        assert tail.prev == Nodes[|Nodes| - 2];
        tail := tail.prev;
        tail.next := null;
        numElements := numElements - 1;
        Nodes, Contents, Repr := Nodes[..|Nodes| - 1], Contents[..|Contents| - 1], Repr - {last};
      } else if numElements == 1 {
        ghost var last := tail;
        head := null;
        tail := null;
        numElements := 0;
        Nodes, Contents, Repr := [], [], Repr - {last};
      }
    }

    /** pop_front(): drops the first element; nothing happens on an empty list. */
    method PopFront()
      requires Valid()
      modifies Repr
      ensures Valid() && Repr <= old(Repr)
      ensures old(Contents) == [] ==> Contents == [] && numElements == 0
      ensures old(Contents) != [] ==> Contents == old(Contents[1..]) && Nodes == old(Nodes[1..])
      ensures old(Contents) != [] ==> numElements == old(numElements) - 1 && old(head) !in Repr
    {
      if numElements > 1 {
        ghost var first := head;
        assert head.next == Nodes[1];
        head := head.next;
        head.prev := null;
        numElements := numElements - 1;
        Nodes, Contents, Repr := Nodes[1..], Contents[1..], Repr - {first};
      } else if numElements == 1 {
        ghost var first := head;
        head := null;
        tail := null;
        numElements := 0;
        Nodes, Contents, Repr := [], [], Repr - {first};
      }
    }

    /** erase(it): unlinks the node at it and returns the iterator to the
        element that followed it; erasing at end() changes nothing. The
        source's two fix-ups (the successor's back link or the tail, then the
        predecessor's forward link or the head) leave a first node exactly as
        pop_front does and a last node exactly as pop_back does, so those two
        cases go through PopFront and PopBack. */
    method Erase(it: Node?<T>) returns (r: Node?<T>)
      requires Valid()
      requires it == null || it in Nodes
      modifies Repr
      ensures Valid() && Repr <= old(Repr)
      ensures r == null || r in Nodes
      ensures it == null ==> r == null && Contents == old(Contents) && Nodes == old(Nodes)
      ensures it != null ==> it !in Repr && numElements == old(numElements) - 1
      ensures it != null ==> Contents == old(Contents[..Position(it)] + Contents[Position(it) + 1..])
      ensures it != null ==> Nodes == old(Nodes[..Position(it)] + Nodes[Position(it) + 1..])
      ensures it != null ==> Position(r) == old(Position(it))
    {
      if it == null {
        return it;
      }
      ghost var k, N, C := Position(it), Nodes, Contents;
      if k + 1 < |N| {
        assert it.next == N[k + 1];
      }
      if k > 0 {
        assert it.prev == N[k - 1];
      }
      r := it.next;
      if it.prev == null {
        assert k == 0 && N[1..] == N[..0] + N[1..] && C[1..] == C[..0] + C[1..];
        PopFront();
        if r != null {
          PositionAt(0);
        }
      } else if it.next == null {
        assert k == |N| - 1 && N[..k] == N[..k] + N[k + 1..] && C[..k] == C[..k] + C[k + 1..];
        PopBack();
      } else {
        Unlink(it, k);
        PositionAt(k);
      }
      assert Nodes == N[..k] + N[k + 1..] && Contents == C[..k] + C[k + 1..];
      assert it !in Repr && Position(r) == k;
    }

    /** The middle case of erase(it), the node at index k: its neighbours are
        linked to each other. */
    method Unlink(it: Node<T>, ghost k: nat)
      requires Valid() && 0 < k < |Nodes| - 1 && Nodes[k] == it
      modifies Repr
      ensures Valid() && Repr == old(Repr) - {it}
      ensures numElements == old(numElements) - 1
      ensures Contents == old(Contents[..k] + Contents[k + 1..])
      ensures Nodes == old(Nodes[..k] + Nodes[k + 1..])
    {
      ghost var N, C := Nodes, Contents;
      assert it.next == N[k + 1] && it.prev == N[k - 1];
      it.next.prev := it.prev;
      it.prev.next := it.next;
      numElements := numElements - 1;
      Nodes, Contents, Repr := N[..k] + N[k + 1..], C[..k] + C[k + 1..], Repr - {it};
      SplicedOut(N, C, k);
    }

    /** The chain N holding C without its node at index k is linked, given
        that the neighbours of that node now point at each other. */
    lemma SplicedOut(N: seq<Node<T>>, C: seq<T>, k: nat)
      requires 0 < k < |N| - 1 && |N| == |C|
      requires Nodes == N[..k] + N[k + 1..] && Contents == C[..k] + C[k + 1..]
      requires this in Repr && forall i :: 0 <= i < |N| && i != k ==> N[i] in Repr
      requires forall i, j :: 0 <= i < j < |N| ==> N[i] != N[j]
      requires forall i :: 0 <= i < |N| ==> N[i].data == C[i]
      requires forall i :: 0 <= i < |N| - 1 && i != k - 1 && i != k ==> N[i].next == N[i + 1]
      requires forall i :: 0 < i < |N| && i != k && i != k + 1 ==> N[i].prev == N[i - 1]
      requires N[k - 1].next == N[k + 1] && N[k + 1].prev == N[k - 1]
      requires N[0].prev == null && N[|N| - 1].next == null
      ensures Linked()
    {
    }

    /** insert(it, data): a new node holding x goes in front of it (at the back
        when it is end()), and the iterator to it is returned; on an empty list
        the new node is the whole list, wherever it points. The source's
        general case leaves a new first node exactly as push_front does and a
        new last node exactly as push_back does, so those cases go through
        PushFront and PushBack. */
    method Insert(it: Node?<T>, x: T) returns (r: Node<T>)
      requires Valid()
      requires Nodes == [] || it == null || it in Nodes
      modifies Repr
      ensures Valid() && fresh(Repr - old(Repr))
      ensures r in Nodes && fresh(r) && numElements == old(numElements) + 1
      ensures var k := if it == null || old(Nodes) == [] then old(|Nodes|) else old(Position(it));
        Contents == old(Contents[..k]) + [x] + old(Contents[k..]) && Position(r) == k
      ensures var k := if it == null || old(Nodes) == [] then old(|Nodes|) else old(Position(it));
        Nodes == old(Nodes[..k]) + [r] + old(Nodes[k..])
    {
      ghost var N0, C0 := Nodes, Contents;
      ghost var K := if it == null || Nodes == [] then |Nodes| else Position(it);
      if numElements == 0 {
        var pNew := new Node(x);
        head, tail := pNew, pNew;
        numElements := 1;
        Nodes, Contents, Repr := [pNew], [x], Repr + {pNew};
        r := pNew;
      } else if it == null {
        PushBack(x);
        r := tail;
        assert Nodes == N0 + [r] && N0[|N0|..] == [] && C0[|C0|..] == [];
      } else {
        if K > 0 {
          assert it.prev == Nodes[K - 1];
        }
        if it.prev == null {
          PushFront(x);
          r := head;
          assert K == 0 && Nodes == [r] + Nodes[1..] && N0[..0] == [] && N0[0..] == N0 && C0[..0] == [] && C0[0..] == C0;
        } else {
          r := LinkBefore(it, K, x);
        }
      }
      assert Nodes == N0[..K] + [r] + N0[K..] && Contents == C0[..K] + [x] + C0[K..];
      PositionAt(K);
    }

    /** The middle case of insert(it, data), it at index k: a new node is linked
        between it and its predecessor. */
    method LinkBefore(it: Node<T>, ghost k: nat, x: T) returns (pNew: Node<T>)
      requires Valid() && 0 < k < |Nodes| && Nodes[k] == it
      modifies Repr
      ensures Valid() && fresh(pNew) && Repr == old(Repr) + {pNew}
      ensures numElements == old(numElements) + 1
      ensures Nodes == old(Nodes[..k]) + [pNew] + old(Nodes[k..])
      ensures Contents == old(Contents[..k]) + [x] + old(Contents[k..])
    {
      ghost var N, C := Nodes, Contents;
      assert it.prev == N[k - 1];
      pNew := new Node(x);
      pNew.prev := it.prev;
      pNew.next := it;
      pNew.prev.next := pNew;
      pNew.next.prev := pNew;
      numElements := numElements + 1;
      Nodes, Contents, Repr := N[..k] + [pNew] + N[k..], C[..k] + [x] + C[k..], Repr + {pNew};
      SplicedIn(N, C, k, pNew, x);
    }

    /** The chain N holding C with pNew spliced in before index k is linked,
        given the links around the splice point. */
    lemma SplicedIn(N: seq<Node<T>>, C: seq<T>, k: nat, pNew: Node<T>, x: T)
      requires 0 < k < |N| == |C|
      requires Nodes == N[..k] + [pNew] + N[k..] && Contents == C[..k] + [x] + C[k..]
      requires this in Repr && pNew in Repr && forall i :: 0 <= i < |N| ==> N[i] in Repr
      requires forall i, j :: 0 <= i < j < |N| ==> N[i] != N[j]
      requires pNew !in N && pNew.data == x
      requires forall i :: 0 <= i < |N| ==> N[i].data == C[i]
      requires forall i :: 0 <= i < |N| - 1 && i != k - 1 ==> N[i].next == N[i + 1]
      requires forall i :: 0 < i < |N| && i != k ==> N[i].prev == N[i - 1]
      requires N[k - 1].next == pNew && pNew.prev == N[k - 1] && pNew.next == N[k] && N[k].prev == pNew
      requires N[0].prev == null && N[|N| - 1].next == null
      ensures Linked()
    {
    }

    /** *it = x through a list iterator: the element at it is replaced. */
    method SetAt(it: Node<T>, ghost k: nat, x: T)
      requires Valid() && k < |Nodes| && Nodes[k] == it
      modifies this, it
      ensures Valid() && Repr == old(Repr) && Nodes == old(Nodes)
      ensures numElements == old(numElements) && head == old(head) && tail == old(tail)
      ensures Contents == old(Contents[k := x])
    {
      it.data := x;
      Contents := Contents[k := x];
    }

    /** clear(): walks the chain from the head, releasing every node, and
        leaves the list empty. The released nodes are recorded in order. */
    method Clear() returns (ghost released: seq<Node<T>>)
      requires Valid()
      modifies this
      ensures Valid() && Contents == [] && Nodes == [] && Repr == {this}
      ensures numElements == 0 && head == null && tail == null
      ensures released == old(Nodes)
    {
      released := [];
      var p := head;
      ghost var i := 0;
      while p != null
        invariant i <= |Nodes| && p == (if i < |Nodes| then Nodes[i] else null)
        invariant released == Nodes[..i]
        decreases |Nodes| - i
      {
        if i + 1 < |Nodes| {
          assert p.next == Nodes[i + 1];
        }
        var pNext := p.next;
        released := released + [p];
        p := pNext;
        i := i + 1;
      }
      head, tail := null, null;
      numElements := 0;
      Contents, Nodes, Repr := [], [], {this};
    }

    /** The excess-removal step of both assignment operators: the node p at
        index k > 0 and every node after it are released, the count drops
        once per released node, and the node before p becomes the tail. */
    method TrimFrom(p: Node<T>, ghost k: nat)
      requires Valid() && 0 < k < |Nodes| && Nodes[k] == p
      modifies Repr
      ensures Valid() && Repr <= old(Repr)
      ensures Contents == old(Contents[..k]) && Nodes == old(Nodes[..k]) && numElements == k
    {
      assert p.prev == Nodes[k - 1];
      tail := p.prev;
      var q: Node?<T> := p;
      ghost var j := k;
      while q != null
        modifies this
        invariant k <= j <= |Nodes| && q == (if j < |Nodes| then Nodes[j] else null)
        invariant numElements == |Nodes| - (j - k)
        invariant Nodes == old(Nodes) && Contents == old(Contents) && Repr == old(Repr)
        invariant head == old(head) && tail == Nodes[k - 1]
        decreases |Nodes| - j
      {
        if j + 1 < |Nodes| {
          assert q.next == Nodes[j + 1];
        }
        var pNext := q.next;
        numElements := numElements - 1;
        q := pNext;
        j := j + 1;
      }
      tail.next := null;
      Repr := Repr - (set n | n in Nodes[k..]);
      Nodes, Contents := Nodes[..k], Contents[..k];
    }

    /** operator=(list& rhs): overwrites the elements both lists have, then
        appends the rest of rhs, clears the list when rhs is empty, or
        releases the excess nodes. */
    method Assign(rhs: List<T>)
      requires Valid() && rhs.Valid() && Repr !! rhs.Repr
      modifies Repr
      ensures Valid() && fresh(Repr - old(Repr)) && Repr !! rhs.Repr
      ensures Contents == old(rhs.Contents)
      ensures var m := if |old(Nodes)| < |old(rhs.Nodes)| then |old(Nodes)| else |old(rhs.Nodes)|;
        m <= |Nodes| && Nodes[..m] == old(Nodes)[..m]
      ensures rhs.Valid() && rhs.Contents == old(rhs.Contents) && rhs.Nodes == old(rhs.Nodes) && rhs.Repr == old(rhs.Repr)
    {
      var itLHS, itRHS, i := Overwrite(rhs);
      if itRHS != null {
        AppendFrom(rhs, itRHS, i);
      } else if rhs.Empty() {
        ghost var released := Clear();
      } else if itLHS != null {
        TrimFrom(itLHS, i);
      }
    }

    /** The first loop of operator=(list& rhs): both lists are walked together
        and each element of this list is overwritten with rhs's element, until
        either walk reaches end(). */
    method Overwrite(rhs: List<T>) returns (itLHS: Node?<T>, itRHS: Node?<T>, ghost i: nat)
      requires Valid() && rhs.Valid() && Repr !! rhs.Repr
      modifies Repr
      ensures Valid() && Repr == old(Repr) && Nodes == old(Nodes) && numElements == old(numElements)
      ensures rhs.Valid() && rhs.Contents == old(rhs.Contents) && rhs.Nodes == old(rhs.Nodes) && rhs.Repr == old(rhs.Repr)
      ensures i == if |Nodes| < |rhs.Nodes| then |Nodes| else |rhs.Nodes|
      ensures itLHS == (if i < |Nodes| then Nodes[i] else null)
      ensures itRHS == (if i < |rhs.Nodes| then rhs.Nodes[i] else null)
      ensures |Contents| == |old(Contents)| && Contents[..i] == rhs.Contents[..i]
      ensures Contents[i..] == old(Contents)[i..]
    {
      itRHS := rhs.head;
      itLHS := head;
      i := 0;
      while itRHS != null && itLHS != null
        invariant Valid() && Repr == old(Repr) && Nodes == old(Nodes) && numElements == old(numElements)
        invariant rhs.Valid() && rhs.Contents == old(rhs.Contents) && rhs.Nodes == old(rhs.Nodes) && rhs.Repr == old(rhs.Repr)
        invariant i <= |Nodes| && i <= |rhs.Nodes|
        invariant itLHS == (if i < |Nodes| then Nodes[i] else null)
        invariant itRHS == (if i < |rhs.Nodes| then rhs.Nodes[i] else null)
        invariant |Contents| == |old(Contents)|
        invariant forall j :: 0 <= j < i ==> Contents[j] == rhs.Contents[j]
        invariant forall j :: i <= j < |Contents| ==> Contents[j] == old(Contents)[j]
        decreases |Nodes| - i
      {
        if i + 1 < |Nodes| {
          assert itLHS.next == Nodes[i + 1];
        }
        if i + 1 < |rhs.Nodes| {
          assert itRHS.next == rhs.Nodes[i + 1];
        }
        SetAt(itLHS, i, itRHS.data);
        itLHS := itLHS.next;
        itRHS := itRHS.next;
        i := i + 1;
      }
    }

    /** The second loop of operator=(list& rhs): the elements of rhs from
        index i on are pushed to the back of this list, which holds rhs's first
        i elements. */
    method AppendFrom(rhs: List<T>, itRHS: Node<T>, ghost i: nat)
      requires Valid() && rhs.Valid() && Repr !! rhs.Repr
      requires i < |rhs.Nodes| && itRHS == rhs.Nodes[i] && Contents == rhs.Contents[..i]
      modifies Repr
      ensures Valid() && fresh(Repr - old(Repr)) && Repr !! rhs.Repr
      ensures Contents == rhs.Contents
      ensures |old(Nodes)| <= |Nodes| && Nodes[..|old(Nodes)|] == old(Nodes)
      ensures rhs.Valid() && rhs.Contents == old(rhs.Contents) && rhs.Nodes == old(rhs.Nodes) && rhs.Repr == old(rhs.Repr)
    {
      var it: Node?<T> := itRHS;
      ghost var j := i;
      while it != null
        invariant Valid() && fresh(Repr - old(Repr)) && Repr !! rhs.Repr
        invariant rhs.Valid() && rhs.Contents == old(rhs.Contents) && rhs.Nodes == old(rhs.Nodes) && rhs.Repr == old(rhs.Repr)
        invariant j <= |rhs.Nodes| && it == (if j < |rhs.Nodes| then rhs.Nodes[j] else null)
        invariant Contents == rhs.Contents[..j]
        invariant |old(Nodes)| <= |Nodes| && Nodes[..|old(Nodes)|] == old(Nodes)
        decreases |rhs.Nodes| - j
      {
        if j + 1 < |rhs.Nodes| {
          assert it.next == rhs.Nodes[j + 1];
        }
        PushBack(it.data);
        it := it.next;
        j := j + 1;
      }
    }

    /** operator=(initializer_list): the same three steps as operator=(list&)
        with the elements of il as the source. */
    method AssignSeq(il: seq<T>)
      requires Valid()
      modifies Repr
      ensures Valid() && fresh(Repr - old(Repr))
      ensures Contents == il
      ensures var m := if |old(Nodes)| < |il| then |old(Nodes)| else |il|;
        m <= |Nodes| && Nodes[..m] == old(Nodes)[..m]
    {
      var itRHS := 0;
      var itLHS := head;
      while itRHS < |il| && itLHS != null
        invariant Valid() && Repr == old(Repr) && Nodes == old(Nodes) && numElements == old(numElements)
        invariant itRHS <= |Nodes| && itRHS <= |il|
        invariant itLHS == (if itRHS < |Nodes| then Nodes[itRHS] else null)
        invariant |Contents| == |old(Contents)|
        invariant forall k :: 0 <= k < itRHS ==> Contents[k] == il[k]
        decreases |il| - itRHS
      {
        if itRHS + 1 < |Nodes| {
          assert itLHS.next == Nodes[itRHS + 1];
        }
        SetAt(itLHS, itRHS, il[itRHS]);
        itLHS := itLHS.next;
        itRHS := itRHS + 1;
      }
      assert Contents[..itRHS] == il[..itRHS];
      if itRHS < |il| {
        while itRHS < |il|
          invariant Valid() && fresh(Repr - old(Repr))
          invariant itRHS <= |il| && Contents == il[..itRHS]
          invariant |old(Nodes)| <= |Nodes| && Nodes[..|old(Nodes)|] == old(Nodes)
        {
          PushBack(il[itRHS]);
          itRHS := itRHS + 1;
        }
      } else if |il| == 0 {
        ghost var released := Clear();
      } else if itLHS != null {
        TrimFrom(itLHS, itRHS);
      }
    }

    /** list(list& rhs): an empty list, then operator=(rhs). */
    constructor Copy(rhs: List<T>)
      requires rhs.Valid()
      ensures Valid() && fresh(Repr) && Contents == rhs.Contents
      ensures rhs.Valid() && rhs.Contents == old(rhs.Contents) && rhs.Nodes == old(rhs.Nodes) && rhs.Repr == old(rhs.Repr)
    {
      numElements := 0;
      head := null;
      tail := null;
      Contents := [];
      Nodes := [];
      new;
      Repr := {this};
      Assign(rhs);
    }

    /** operator=(list&& rhs): clear(), then swap(*this, rhs). This list ends
        up with rhs's chain and rhs with the cleared one; moving a list onto
        itself leaves it empty. */
    method MoveAssign(rhs: List<T>)
      requires Valid() && rhs.Valid() && (rhs == this || Repr !! rhs.Repr)
      modifies this, rhs
      ensures Valid() && rhs.Valid()
      ensures rhs == this ==> Contents == [] && Repr == {this}
      ensures rhs != this ==> Contents == old(rhs.Contents) && Nodes == old(rhs.Nodes)
      ensures rhs != this ==> rhs.Contents == [] && rhs.Repr == {rhs}
      ensures rhs != this ==> Repr == {this} + (old(rhs.Repr) - {rhs}) && Repr !! rhs.Repr
    {
      ghost var released := Clear();
      Swap(this, rhs);
    }
  }

  /** swap(lhs, rhs): exchanges the two lists' heads, tails and counts; no
      node is touched. Swapping a list with itself changes nothing. */
  method Swap<T>(lhs: List<T>, rhs: List<T>)
    requires lhs.Valid() && rhs.Valid() && (lhs == rhs || lhs.Repr !! rhs.Repr)
    modifies lhs, rhs
    ensures lhs.Valid() && rhs.Valid()
    ensures lhs.Contents == old(rhs.Contents) && rhs.Contents == old(lhs.Contents)
    ensures lhs.Nodes == old(rhs.Nodes) && rhs.Nodes == old(lhs.Nodes)
    ensures lhs.Repr == {lhs} + (old(rhs.Repr) - {rhs}) && rhs.Repr == {rhs} + (old(lhs.Repr) - {lhs})
    ensures lhs == rhs || lhs.Repr !! rhs.Repr
  {
    var pTemp := lhs.head;
    lhs.head := rhs.head;
    rhs.head := pTemp;

    pTemp := lhs.tail;
    lhs.tail := rhs.tail;
    rhs.tail := pTemp;

    var numTemp := lhs.numElements;
    lhs.numElements := rhs.numElements;
    rhs.numElements := numTemp;

    ghost var contents, nodes, repr := lhs.Contents, lhs.Nodes, lhs.Repr;
    lhs.Contents, lhs.Nodes, lhs.Repr := rhs.Contents, rhs.Nodes, {lhs} + (rhs.Repr - {rhs});
    rhs.Contents, rhs.Nodes, rhs.Repr := contents, nodes, {rhs} + (repr - {lhs});
    lhs.Adopted(rhs);
    rhs.Adopted(lhs);
  }
}
