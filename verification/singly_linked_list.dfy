/** linkedlist/SinglyLinkedList.java: a singly linked list with `head` and
    `tail` references. Nodes live in an arena; `order` records the nodes from
    head to tail and is the abstraction witness, never read by an operation. */
module SinglyLinkedList {
  import opened Common

  datatype Node<E> = Node(element: E, next: Option<Ref>)

  /** `free` is an address above every node in use; `new Node` takes it. */
  datatype List<E> = List(heap: map<Ref, Node<E>>, head: Option<Ref>, tail: Option<Ref>,
                          size: int, order: seq<Ref>, free: Ref)

  /** The first node of `order`, or null. */
  function Front(order: seq<Ref>): Option<Ref> {
    if order == [] then None else Some(order[0])
  }

  /** The last node of `order`, or null. */
  function Back(order: seq<Ref>): Option<Ref> {
    if order == [] then None else Some(order[|order| - 1])
  }

  /** The class invariant: `head` and `tail` are the ends of a null-terminated
      `next` chain of `size` distinct nodes. */
  predicate Valid<E>(l: List<E>) {
    && l.size == |l.order|
    && Distinct(l.order)
    && (forall i :: 0 <= i < |l.order| ==> l.order[i] in l.heap && l.order[i] < l.free)
    && l.head == Front(l.order)
    && l.tail == Back(l.order)
    && (forall i :: 0 <= i < |l.order| - 1 ==> l.heap[l.order[i]].next == Some(l.order[i + 1]))
    && (l.order != [] ==> l.heap[l.order[|l.order| - 1]].next == None)
  }

  /** The list's contents, head first. */
  function Elements<E>(l: List<E>): (s: seq<E>)
    requires Valid(l)
    ensures |s| == l.size
  {
    seq(|l.order|, i requires 0 <= i < |l.order| && l.order[i] in l.heap => l.heap[l.order[i]].element)
  }

  /** `new SinglyLinkedList()`. */
  method New<E>() returns (l: List<E>)
    ensures Valid(l) && Elements(l) == []
  {
    l := List(map[], None, None, 0, [], 0);
  }

  function Size<E>(l: List<E>): (n: int)
    requires Valid(l)
    ensures n == |Elements(l)|
  {
    l.size
  }

  function IsEmpty<E>(l: List<E>): (b: bool)
    requires Valid(l)
    ensures b <==> Elements(l) == []
    ensures b <==> l.head == None
    ensures b <==> l.tail == None
  {
    l.size == 0
  }

  /** `first()`: the head element, or null when empty. */
  function First<E>(l: List<E>): (e: Option<E>)
    requires Valid(l)
    ensures Elements(l) == [] ==> e == None
    ensures Elements(l) != [] ==> e == Some(Elements(l)[0])
  {
    if IsEmpty(l) then None else Some(l.heap[l.head.value].element)
  }

  /** `last()`: the tail element, or null when empty. */
  function Last<E>(l: List<E>): (e: Option<E>)
    requires Valid(l)
    ensures Elements(l) == [] ==> e == None
    ensures Elements(l) != [] ==> e == Some(Elements(l)[|Elements(l)| - 1])
  {
    if IsEmpty(l) then None else Some(l.heap[l.tail.value].element)
  }

  /** `addFirst(e)`: a new node pointing at the old head becomes the head; in
      an empty list it is the tail too. */
  function AddFirst<E>(l: List<E>, e: E): (r: List<E>)
    requires Valid(l)
    ensures Valid(r) && Elements(r) == [e] + Elements(l)
  {
    var node := l.free;
    if l.head == None then
      List(l.heap[node := Node(e, None)], Some(node), Some(node), l.size + 1, [node], node + 1)
    else
      PrependedValid(l, e);
      PrependedElements(l, e);
      List(l.heap[node := Node(e, l.head)], Some(node), l.tail, l.size + 1, [node] + l.order, node + 1)
  }

  /** The list `addFirst` builds on a non-empty list. */
  function Prepended<E>(l: List<E>, e: E): List<E> {
    List(l.heap[l.free := Node(e, l.head)], Some(l.free), l.tail, l.size + 1, [l.free] + l.order, l.free + 1)
  }

  lemma PrependedValid<E>(l: List<E>, e: E)
    requires Valid(l) && l.order != []
    ensures Valid(Prepended(l, e))
  {
    var node := l.free;
    var r := Prepended(l, e);
    DistinctCons(node, l.order);
    assert forall i :: 1 <= i < |r.order| ==> r.order[i] == l.order[i - 1] && r.order[i] != node;
  }

  lemma PrependedElements<E>(l: List<E>, e: E)
    requires Valid(l) && l.order != []
    ensures Valid(Prepended(l, e)) && Elements(Prepended(l, e)) == [e] + Elements(l)
  {
    var node := l.free;
    var r := Prepended(l, e);
    PrependedValid(l, e);
    forall i | 0 <= i < |r.order| ensures Elements(r)[i] == ([e] + Elements(l))[i] {
      if i > 0 {
        assert r.order[i] == l.order[i - 1] != node;
      }
    }
  }

  /** `addLast(e)`: the old tail, if any, links to a new node, which becomes
      the tail (and the head of an empty list). */
  function AddLast<E>(l: List<E>, e: E): (r: List<E>)
    requires Valid(l)
    ensures Valid(r) && Elements(r) == Elements(l) + [e]
  {
    var node := l.free;
    if l.head == None then
      List(l.heap[node := Node(e, None)], Some(node), Some(node), l.size + 1, [node], node + 1)
    else
      var t := l.tail.value;
      AddLastSound(l, e);
      List(l.heap[t := l.heap[t].(next := Some(node))][node := Node(e, None)], l.head, Some(node),
           l.size + 1, l.order + [node], node + 1)
  }

  lemma AddLastSound<E>(l: List<E>, e: E)
    requires Valid(l) && l.order != []
    ensures var t := l.order[|l.order| - 1];
            var r := List(l.heap[t := l.heap[t].(next := Some(l.free))][l.free := Node(e, None)], l.head,
                          Some(l.free), l.size + 1, l.order + [l.free], l.free + 1);
            Valid(r) && Elements(r) == Elements(l) + [e]
  {
    AppendedValid(l, e);
    AppendedElements(l, e);
  }

  /** The list `addLast` builds on a non-empty list. */
  function Appended<E>(l: List<E>, e: E): List<E>
    requires l.order != [] && l.order[|l.order| - 1] in l.heap
  {
    var t := l.order[|l.order| - 1];
    List(l.heap[t := l.heap[t].(next := Some(l.free))][l.free := Node(e, None)], l.head,
         Some(l.free), l.size + 1, l.order + [l.free], l.free + 1)
  }

  lemma AppendedValid<E>(l: List<E>, e: E)
    requires Valid(l) && l.order != []
    ensures Valid(Appended(l, e))
  {
    var node := l.free;
    var r := Appended(l, e);
    DistinctCons(node, l.order);
    assert forall i :: 0 <= i < |l.order| ==> r.order[i] == l.order[i] && l.order[i] != node;
    assert forall i :: 0 <= i < |l.order| - 1 ==> r.heap[l.order[i]] == l.heap[l.order[i]];
  }

  lemma AppendedElements<E>(l: List<E>, e: E)
    requires Valid(l) && l.order != []
    ensures Valid(Appended(l, e)) && Elements(Appended(l, e)) == Elements(l) + [e]
  {
    var node := l.free;
    var r := Appended(l, e);
    AppendedValid(l, e);
    forall i | 0 <= i < |r.order| ensures Elements(r)[i] == (Elements(l) + [e])[i] {
      if i < |l.order| {
        assert r.order[i] == l.order[i] != node;
      }
    }
  }

  /** `removeFirst()`: null when empty; otherwise the head advances and its
      element is returned, and `tail` is cleared when the list becomes empty. */
  function RemoveFirst<E>(l: List<E>): (r: (List<E>, Option<E>))
    requires Valid(l)
    ensures Valid(r.0)
    ensures Elements(l) == [] ==> r == (l, None)
    ensures Elements(l) != [] ==> r.1 == Some(Elements(l)[0]) && Elements(r.0) == Elements(l)[1..]
  {
    if IsEmpty(l) then (l, None)
    else
      var h := l.heap[l.head.value];
      var size := l.size - 1;
      var r := List(l.heap, h.next, if size == 0 then None else l.tail, size, l.order[1..], l.free);
      assert h.next == Front(l.order[1..]);
      (r, Some(h.element))
  }
}
