/** linkedlist/CircularLinkedList.java: a singly linked ring reached through
    its `tail`; the first element is `tail.next`. `order` records the nodes
    from first to tail and is the abstraction witness, never read by an
    operation. */
module CircularLinkedList {
  import opened Common

  datatype Node<E> = Node(element: E, next: Option<Ref>)

  /** `free` is an address above every node in use; `new Node` takes it. */
  datatype List<E> = List(heap: map<Ref, Node<E>>, tail: Option<Ref>, size: int,
                          order: seq<Ref>, free: Ref)

  /** The class invariant: `tail` is null exactly when the list is empty, and
      otherwise the `next` references run through the `size` nodes in order
      and from the tail back to the first node. */
  predicate Valid<E>(l: List<E>) {
    && l.size == |l.order|
    && Distinct(l.order)
    && (forall i :: 0 <= i < |l.order| ==> l.order[i] in l.heap && l.order[i] < l.free)
    && (l.order == [] ==> l.tail == None)
    && (l.order != [] ==>
          && l.tail == Some(l.order[|l.order| - 1])
          && l.heap[l.order[|l.order| - 1]].next == Some(l.order[0]))
    && (forall i :: 0 <= i < |l.order| - 1 ==> l.heap[l.order[i]].next == Some(l.order[i + 1]))
  }

  /** The list's contents, first element first. */
  function Elements<E>(l: List<E>): (s: seq<E>)
    requires Valid(l)
    ensures |s| == l.size
  {
    seq(|l.order|, i requires 0 <= i < |l.order| && l.order[i] in l.heap => l.heap[l.order[i]].element)
  }

  /** `new CircularLinkedList()`. */
  method New<E>() returns (l: List<E>)
    ensures Valid(l) && Elements(l) == []
  {
    l := List(map[], None, 0, [], 0);
  }

  function Size<E>(l: List<E>): (n: int)
    requires Valid(l)
    ensures n == |Elements(l)|
  {
    l.size
  }

  function IsEmpty<E>(l: List<E>): (b: bool)
    requires Valid(l)
    ensures b <==> Elements(l) == []
    ensures b <==> l.tail == None
  {
    l.size == 0
  }

  /** `first()`: the element of `tail.next`, or null when empty. */
  function First<E>(l: List<E>): (e: Option<E>)
    requires Valid(l)
    ensures Elements(l) == [] ==> e == None
    ensures Elements(l) != [] ==> e == Some(Elements(l)[0])
  {
    if IsEmpty(l) then None else Some(l.heap[l.heap[l.tail.value].next.value].element)
  }

  /** `last()`: the element of `tail`, or null when empty. */
  function Last<E>(l: List<E>): (e: Option<E>)
    requires Valid(l)
    ensures Elements(l) == [] ==> e == None
    ensures Elements(l) != [] ==> e == Some(Elements(l)[|Elements(l)| - 1])
  {
    if IsEmpty(l) then None else Some(l.heap[l.tail.value].element)
  }

  /** `rotate()`: `tail` advances one node, so the first element moves to the
      end; nothing happens on an empty list. */
  function Rotate<E>(l: List<E>): (r: List<E>)
    requires Valid(l)
    ensures Valid(r)
    ensures Elements(l) == [] ==> r == l
    ensures Elements(l) != [] ==> Elements(r) == Elements(l)[1..] + [Elements(l)[0]]
  {
    if l.tail == None then l
    else
      RotateValid(l);
      List(l.heap, l.heap[l.tail.value].next, l.size, l.order[1..] + [l.order[0]], l.free)
  }

  /** Moving the tail one step along a non-empty ring keeps the ring and
      turns the order by one. */
  lemma RotateValid<E>(l: List<E>)
    requires Valid(l) && l.tail != None
    ensures l.tail.value in l.heap
    ensures var r := List(l.heap, l.heap[l.tail.value].next, l.size, l.order[1..] + [l.order[0]], l.free);
      Valid(r) && Elements(l) != [] && Elements(r) == Elements(l)[1..] + [Elements(l)[0]]
  {
    var order := l.order[1..] + [l.order[0]];
    var r := List(l.heap, l.heap[l.tail.value].next, l.size, order, l.free);
    assert forall i :: 0 <= i < |order| - 1 ==> order[i] == l.order[i + 1];
    assert Valid(r);
    assert Elements(r) == Elements(l)[1..] + [Elements(l)[0]];
  }

  /** `addFirst(e)`: an empty list becomes a one-node ring; otherwise the new
      node is linked between the tail and the old first node. */
  function AddFirst<E>(l: List<E>, e: E): (r: List<E>)
    requires Valid(l)
    ensures Valid(r) && Elements(r) == [e] + Elements(l)
  {
    var node := l.free;
    if IsEmpty(l) then
      List(l.heap[node := Node(e, Some(node))], Some(node), 1, [node], node + 1)
    else
      var t := l.tail.value;
      var head := l.heap[t].next;
      AddFirstSound(l, e);
      List(l.heap[t := l.heap[t].(next := Some(node))][node := Node(e, head)], l.tail, l.size + 1,
           [node] + l.order, node + 1)
  }

  lemma AddFirstSound<E>(l: List<E>, e: E)
    requires Valid(l) && l.order != []
    ensures var t := l.order[|l.order| - 1];
            var r := List(l.heap[t := l.heap[t].(next := Some(l.free))][l.free := Node(e, Some(l.order[0]))],
                          l.tail, l.size + 1, [l.free] + l.order, l.free + 1);
            Valid(r) && Elements(r) == [e] + Elements(l)
  {
    GrownValid(l, e);
    GrownElements(l, e);
  }

  /** The ring `addFirst` builds on a non-empty list: the new node goes
      between the tail and the old first node. */
  function Grown<E>(l: List<E>, e: E): List<E>
    requires l.order != [] && l.order[|l.order| - 1] in l.heap
  {
    var t := l.order[|l.order| - 1];
    List(l.heap[t := l.heap[t].(next := Some(l.free))][l.free := Node(e, Some(l.order[0]))],
         l.tail, l.size + 1, [l.free] + l.order, l.free + 1)
  }

  lemma GrownValid<E>(l: List<E>, e: E)
    requires Valid(l) && l.order != []
    ensures Valid(Grown(l, e))
  {
    var node := l.free;
    var t := l.order[|l.order| - 1];
    var r := Grown(l, e);
    DistinctCons(node, l.order);
    forall i | 0 <= i < |r.order| ensures r.order[i] in r.heap && r.order[i] < r.free {
      if i > 0 { assert r.order[i] == l.order[i - 1]; }
    }
    forall i | 0 <= i < |r.order| - 1 ensures r.heap[r.order[i]].next == Some(r.order[i + 1]) {
      if i > 0 {
        assert r.order[i] == l.order[i - 1] != t && r.order[i] != node;
      }
    }
  }

  lemma GrownElements<E>(l: List<E>, e: E)
    requires Valid(l) && l.order != []
    ensures Valid(Grown(l, e)) && Elements(Grown(l, e)) == [e] + Elements(l)
  {
    var node := l.free;
    var r := Grown(l, e);
    GrownValid(l, e);
    forall i | 0 <= i < |r.order| ensures Elements(r)[i] == ([e] + Elements(l))[i] {
      if i > 0 {
        assert r.order[i] == l.order[i - 1] != node;
      }
    }
  }

  /** `addLast(e)`: `addFirst(e)` followed by advancing `tail`, so `e` ends up
      last. */
  function AddLast<E>(l: List<E>, e: E): (r: List<E>)
    requires Valid(l)
    ensures Valid(r) && Elements(r) == Elements(l) + [e]
  {
    Rotate(AddFirst(l, e))
  }

  /** `removeFirst()`: null when empty; a single node empties the list,
      otherwise the tail is linked past the first node. */
  function RemoveFirst<E>(l: List<E>): (r: (List<E>, Option<E>))
    requires Valid(l)
    ensures Valid(r.0)
    ensures Elements(l) == [] ==> r == (l, None)
    ensures Elements(l) != [] ==> r.1 == Some(Elements(l)[0]) && Elements(r.0) == Elements(l)[1..]
  {
    if IsEmpty(l) then (l, None)
    else
      var t := l.tail.value;
      var head := l.heap[t].next.value;
      if head == t then
        (List(l.heap, None, l.size - 1, [], l.free), Some(l.heap[head].element))
      else
        assert |l.order| > 1;
        var heap := l.heap[t := l.heap[t].(next := l.heap[head].next)];
        var r := List(heap, l.tail, l.size - 1, l.order[1..], l.free);
        assert Valid(r) by {
          assert forall i :: 0 <= i < |r.order| ==> r.order[i] == l.order[i + 1];
          assert forall i :: 0 <= i < |r.order| - 1 ==> r.order[i] != t;
        }
        assert Elements(r) == Elements(l)[1..] by {
          forall i | 0 <= i < |r.order| ensures Elements(r)[i] == Elements(l)[i + 1] {
            assert r.order[i] == l.order[i + 1];
          }
        }
        (r, Some(l.heap[head].element))
  }
}
