/** linkedlist/DoublyLinkedList.java: a doubly linked list between a header
    and a trailer sentinel. `chain` records every node from header to trailer
    and is the abstraction witness, never read by an operation. */
module DoublyLinkedList {
  import opened Common
  import opened DoubleLinks

  /** `free` is an address above every node in use; `new Node` takes it. */
  datatype List<E> = List(heap: map<Ref, Node<E>>, header: Ref, trailer: Ref,
                          size: int, chain: seq<Ref>, free: Ref)

  /** The class invariant: header, the `size` element nodes and trailer form
      one chain, linked forwards by `next` and backwards by `prev`. */
  predicate Valid<E>(l: List<E>) {
    && 0 <= l.size && |l.chain| == l.size + 2
    && l.chain[0] == l.header
    && l.chain[|l.chain| - 1] == l.trailer
    && Distinct(l.chain)
    && Linked(l.heap, l.chain)
    && (forall k :: 0 <= k < |l.chain| ==> l.chain[k] < l.free)
    && (forall k :: 0 < k < |l.chain| - 1 ==> l.chain[k] in l.heap && l.heap[l.chain[k]].element.Some?)
  }

  /** The list's contents, front first. */
  function Elements<E>(l: List<E>): (s: seq<E>)
    requires Valid(l)
    ensures |s| == l.size
  {
    seq(l.size, i requires 0 <= i < l.size && 0 <= i + 1 < |l.chain| && l.chain[i + 1] in l.heap
                          && l.heap[l.chain[i + 1]].element.Some?
                  => l.heap[l.chain[i + 1]].element.value)
  }

  /** `new DoublyLinkedList()`: header and trailer point at each other. */
  method New<E>() returns (l: List<E>)
    ensures Valid(l) && Elements(l) == []
  {
    l := List(map[0 := Node(None, None, Some(1)), 1 := Node(None, Some(0), None)], 0, 1, 0, [0, 1], 2);
  }

  function Size<E>(l: List<E>): (n: int)
    requires Valid(l)
    ensures n == |Elements(l)|
  {
    l.size
  }

  function IsEmpty<E>(l: List<E>): (b: bool)
    requires Valid(l)
    ensures b <==> Elements(l) == []
  {
    l.size == 0
  }

  /** `first()`: the element after the header, or null when empty. */
  function First<E>(l: List<E>): (e: Option<E>)
    requires Valid(l)
    ensures Elements(l) == [] ==> e == None
    ensures Elements(l) != [] ==> e == Some(Elements(l)[0])
  {
    if IsEmpty(l) then None
    else
      LinkedAt(l.heap, l.chain, 0);
      l.heap[l.heap[l.header].next.value].element
  }

  /** `last()`: the element before the trailer, or null when empty. */
  function Last<E>(l: List<E>): (e: Option<E>)
    requires Valid(l)
    ensures Elements(l) == [] ==> e == None
    ensures Elements(l) != [] ==> e == Some(Elements(l)[|Elements(l)| - 1])
  {
    if IsEmpty(l) then None
    else
      LinkedAt(l.heap, l.chain, l.size + 1);
      l.heap[l.heap[l.trailer].prev.value].element
  }

  /** `addBetween(e, pred, succ)` for the neighbours at positions `p` and
      `p + 1` of the chain: a new node is spliced between them and `size`
      grows. */
  function AddBetween<E>(l: List<E>, e: E, p: int): (r: List<E>)
    requires Valid(l) && 0 <= p <= l.size
    ensures Valid(r) && Elements(r) == Elements(l)[..p] + [e] + Elements(l)[p..]
  {
    var c := l.chain;
    var x := l.free;
    var r := List(SpliceIn(l.heap, c[p], c[p + 1], x, e), l.header, l.trailer,
                  l.size + 1, c[..p + 1] + [x] + c[p + 1..], x + 1);
    AddBetweenValid(l, e, p);
    AddBetweenElements(l, e, p);
    r
  }

  lemma AddBetweenValid<E>(l: List<E>, e: E, p: int)
    requires Valid(l) && 0 <= p <= l.size
    ensures Valid(List(SpliceIn(l.heap, l.chain[p], l.chain[p + 1], l.free, e), l.header, l.trailer,
                       l.size + 1, l.chain[..p + 1] + [l.free] + l.chain[p + 1..], l.free + 1))
  {
    var c, x := l.chain, l.free;
    var c' := c[..p + 1] + [x] + c[p + 1..];
    var heap' := SpliceIn(l.heap, c[p], c[p + 1], x, e);
    assert x !in c;
    SpliceInLinked(l.heap, c, p, x, e);
    assert SpliceIn(l.heap, l.chain[p], l.chain[p + 1], l.free, e) == heap';
    forall k | 0 <= k < |c'| ensures c'[k] < x + 1 && (0 < k < |c'| - 1 ==> c'[k] in heap' && heap'[c'[k]].element.Some?) {
      AddBetweenSlot(l, e, p, k);
    }
  }

  /** Position `k` of the chain after `addBetween`: an old node, or the new
      node `free`, holding an element when it is not a sentinel. */
  lemma AddBetweenSlot<E>(l: List<E>, e: E, p: int, k: int)
    requires Valid(l) && 0 <= p <= l.size && l.free !in l.chain
    requires 0 <= k < |l.chain| + 1
    ensures var c': seq<Ref> := l.chain[..p + 1] + [l.free] + l.chain[p + 1..];
      var heap' := SpliceIn(l.heap, l.chain[p], l.chain[p + 1], l.free, e);
      c'[k] < l.free + 1 && (0 < k < |c'| - 1 ==> c'[k] in heap' && heap'[c'[k]].element.Some?)
  {
    var c, x := l.chain, l.free;
    var c' := c[..p + 1] + [x] + c[p + 1..];
    SpliceInLinked(l.heap, c, p, x, e);
    if k <= p {
      assert c'[k] == c[k];
    } else if k > p + 1 {
      assert c'[k] == c[k - 1];
    }
  }

  lemma AddBetweenElements<E>(l: List<E>, e: E, p: int)
    requires Valid(l) && 0 <= p <= l.size
    ensures var r := List(SpliceIn(l.heap, l.chain[p], l.chain[p + 1], l.free, e), l.header, l.trailer,
                          l.size + 1, l.chain[..p + 1] + [l.free] + l.chain[p + 1..], l.free + 1);
            Valid(r) && Elements(r) == Elements(l)[..p] + [e] + Elements(l)[p..]
  {
    AddBetweenValid(l, e, p);
    var c := l.chain;
    var r := List(SpliceIn(l.heap, l.chain[p], l.chain[p + 1], l.free, e), l.header, l.trailer,
                  l.size + 1, l.chain[..p + 1] + [l.free] + l.chain[p + 1..], l.free + 1);
    var want := Elements(l)[..p] + [e] + Elements(l)[p..];
    forall i | 0 <= i < r.size ensures Elements(r)[i] == want[i] {
      ElementAt(r, i);
      if i < p {
        assert r.chain[i + 1] == c[i + 1];
        ElementAt(l, i);
      } else if i > p {
        assert r.chain[i + 1] == c[i];
        ElementAt(l, i - 1);
      }
    }
  }

  /** Element `i` is the element of chain node `i + 1`. */
  lemma ElementAt<E>(l: List<E>, i: int)
    requires Valid(l) && 0 <= i < l.size
    ensures l.chain[i + 1] in l.heap && l.heap[l.chain[i + 1]].element == Some(Elements(l)[i])
  {
  }

  /** `addFirst(e)`: splice after the header. */
  function AddFirst<E>(l: List<E>, e: E): (r: List<E>)
    requires Valid(l)
    ensures Valid(r) && Elements(r) == [e] + Elements(l)
  {
    assert Elements(l)[..0] + [e] + Elements(l)[0..] == [e] + Elements(l);
    AddBetween(l, e, 0)
  }

  /** `addLast(e)`: splice before the trailer. */
  function AddLast<E>(l: List<E>, e: E): (r: List<E>)
    requires Valid(l)
    ensures Valid(r) && Elements(r) == Elements(l) + [e]
  {
    assert Elements(l)[..l.size] == Elements(l);
    AddBetween(l, e, l.size)
  }

  /** `remove(node)` for the element node at position `p` of the chain
      (`0 < p <= size`): its two neighbours are linked to each other and
      `size` shrinks. */
  function Remove<E>(l: List<E>, p: int): (r: (List<E>, E))
    requires Valid(l) && 0 < p <= l.size
    ensures Valid(r.0)
    ensures r.1 == Elements(l)[p - 1] && Elements(r.0) == Elements(l)[..p - 1] + Elements(l)[p..]
  {
    var c := l.chain;
    var node := c[p];
    LinkedAt(l.heap, c, p);
    var pred := l.heap[node].prev.value;
    var succ := l.heap[node].next.value;
    var r := List(SpliceOut(l.heap, pred, succ), l.header, l.trailer,
                  l.size - 1, c[..p] + c[p + 1..], l.free);
    RemoveSpliced(l, p);
    assert r == Unspliced(l, p);
    ElementAt(l, p - 1);
    (r, l.heap[node].element.value)
  }

  /** The list `remove` leaves when the neighbours of chain position `p`
      are linked to each other. */
  function Unspliced<E>(l: List<E>, p: int): List<E>
    requires Valid(l) && 0 < p <= l.size
  {
    var c := l.chain;
    List(SpliceOut(l.heap, c[p - 1], c[p + 1]), l.header, l.trailer,
         l.size - 1, c[..p] + c[p + 1..], l.free)
  }

  /** Unsplicing keeps the list valid and drops exactly element `p - 1`. */
  lemma RemoveSpliced<E>(l: List<E>, p: int)
    requires Valid(l) && 0 < p <= l.size
    ensures Valid(Unspliced(l, p)) && Elements(Unspliced(l, p)) == Elements(l)[..p - 1] + Elements(l)[p..]
  {
    UnsplicedValid(l, p);
    UnsplicedElements(l, p);
  }

  lemma UnsplicedValid<E>(l: List<E>, p: int)
    requires Valid(l) && 0 < p <= l.size
    ensures Valid(Unspliced(l, p))
    ensures forall k :: 0 <= k < p ==> Unspliced(l, p).chain[k] == l.chain[k]
    ensures forall k :: p <= k < |Unspliced(l, p).chain| ==> Unspliced(l, p).chain[k] == l.chain[k + 1]
  {
    var c := l.chain;
    var r := Unspliced(l, p);
    SpliceOutLinked(l.heap, c, p);
    assert forall k :: 0 <= k < p ==> r.chain[k] == c[k];
    assert forall k :: p <= k < |r.chain| ==> r.chain[k] == c[k + 1];
  }

  lemma UnsplicedElements<E>(l: List<E>, p: int)
    requires Valid(l) && 0 < p <= l.size
    ensures Valid(Unspliced(l, p)) && Elements(Unspliced(l, p)) == Elements(l)[..p - 1] + Elements(l)[p..]
  {
    var c := l.chain;
    var r := Unspliced(l, p);
    UnsplicedValid(l, p);
    SpliceOutLinked(l.heap, c, p);
    var want := Elements(l)[..p - 1] + Elements(l)[p..];
    forall i | 0 <= i < r.size ensures Elements(r)[i] == want[i] {
      ElementAt(r, i);
      if i < p - 1 {
        ElementAt(l, i);
      } else {
        ElementAt(l, i + 1);
      }
    }
  }

  /** `removeFirst()`: null when empty, else the element after the header is
      unlinked and returned. */
  function RemoveFirst<E>(l: List<E>): (r: (List<E>, Option<E>))
    requires Valid(l)
    ensures Valid(r.0)
    ensures Elements(l) == [] ==> r == (l, None)
    ensures Elements(l) != [] ==> r.1 == Some(Elements(l)[0]) && Elements(r.0) == Elements(l)[1..]
  {
    if IsEmpty(l) then (l, None)
    else
      var (l', e) := Remove(l, 1);
      (l', Some(e))
  }

  /** `removeLast()`: null when empty, else the element before the trailer is
      unlinked and returned. */
  function RemoveLast<E>(l: List<E>): (r: (List<E>, Option<E>))
    requires Valid(l)
    ensures Valid(r.0)
    ensures Elements(l) == [] ==> r == (l, None)
    ensures Elements(l) != [] ==>
              && r.1 == Some(Elements(l)[|Elements(l)| - 1])
              && Elements(r.0) == Elements(l)[..|Elements(l)| - 1]
  {
    if IsEmpty(l) then (l, None)
    else
      var (l', e) := Remove(l, l.size);
      assert Elements(l)[l.size..] == [];
      (l', Some(e))
  }
}
