/** The node arena shared by the two doubly linked lists
    (linkedlist/DoublyLinkedList.java and list/LinkedList.java): nodes with an
    element and `prev`/`next` references, and the two splices both lists use. */
module DoubleLinks {
  import opened Common

  /** A node; the header and trailer sentinels hold a null element. */
  datatype Node<E> = Node(element: Option<E>, prev: Option<Ref>, next: Option<Ref>)

  /** `c` is a chain of allocated nodes in which `next` leads from each node to
      the following one and `prev` back from each node to the preceding one. */
  predicate Linked<E>(heap: map<Ref, Node<E>>, c: seq<Ref>) {
    && (forall k :: 0 <= k < |c| ==> c[k] in heap)
    && (forall k :: 0 <= k < |c| - 1 ==> heap[c[k]].next == Some(c[k + 1]))
    && (forall k :: 1 <= k < |c| ==> heap[c[k]].prev == Some(c[k - 1]))
  }

  /** The links of the node at position `k` of a linked chain. */
  lemma LinkedAt<E>(heap: map<Ref, Node<E>>, c: seq<Ref>, k: int)
    requires Linked(heap, c) && 0 <= k < |c|
    ensures c[k] in heap
    ensures k + 1 < |c| ==> heap[c[k]].next == Some(c[k + 1])
    ensures 0 < k ==> heap[c[k]].prev == Some(c[k - 1])
  {
  }

  /** The splice of `addBetween(e, pred, succ)`: a new node `x` with links to
      both neighbours, which now point at it. */
  function SpliceIn<E>(heap: map<Ref, Node<E>>, pred: Ref, succ: Ref, x: Ref, e: E): map<Ref, Node<E>>
    requires pred in heap && succ in heap
  {
    heap[pred := heap[pred].(next := Some(x))][succ := heap[succ].(prev := Some(x))]
        [x := Node(Some(e), Some(pred), Some(succ))]
  }

  /** The splice of `remove(node)`: the neighbours of `node` are linked to each
      other; `node` itself is left untouched. */
  function SpliceOut<E>(heap: map<Ref, Node<E>>, pred: Ref, succ: Ref): map<Ref, Node<E>>
    requires pred in heap && succ in heap
  {
    heap[pred := heap[pred].(next := Some(succ))][succ := heap[succ].(prev := Some(pred))]
  }

  /** Splicing a fresh node between positions `p` and `p + 1` of a linked chain
      yields the chain with the node inserted there; no other element changes. */
  lemma SpliceInLinked<E>(heap: map<Ref, Node<E>>, c: seq<Ref>, p: int, x: Ref, e: E)
    requires Linked(heap, c) && Distinct(c) && 0 <= p < |c| - 1 && x !in c
    ensures var c' := c[..p + 1] + [x] + c[p + 1..];
            var heap' := SpliceIn(heap, c[p], c[p + 1], x, e);
            && Linked(heap', c') && Distinct(c')
            && heap'[x].element == Some(e)
            && (forall k :: 0 <= k < |c| ==> heap'[c[k]].element == heap[c[k]].element)
  {
    var c' := c[..p + 1] + [x] + c[p + 1..];
    var heap' := SpliceIn(heap, c[p], c[p + 1], x, e);
    assert forall k :: 0 <= k <= p ==> c'[k] == c[k];
    assert c'[p + 1] == x;
    assert forall k :: p + 2 <= k < |c'| ==> c'[k] == c[k - 1];
    forall k | 0 <= k < |c'| - 1 ensures heap'[c'[k]].next == Some(c'[k + 1]) {
      if k < p {
        assert c[k] != c[p] && c[k] != c[p + 1];
      } else if k > p + 1 {
        assert c[k - 1] != c[p];
      }
    }
    forall k | 1 <= k < |c'| ensures heap'[c'[k]].prev == Some(c'[k - 1]) {
      if k < p + 1 {
        assert c[k] != c[p + 1];
      } else if k > p + 2 {
        assert c[k - 1] != c[p] && c[k - 1] != c[p + 1];
      }
    }
  }

  /** Unlinking the node at inner position `p` of a linked chain yields the
      chain without it; no other element changes. */
  lemma SpliceOutLinked<E>(heap: map<Ref, Node<E>>, c: seq<Ref>, p: int)
    requires Linked(heap, c) && Distinct(c) && 0 < p < |c| - 1
    ensures var c' := c[..p] + c[p + 1..];
            var heap' := SpliceOut(heap, c[p - 1], c[p + 1]);
            && Linked(heap', c') && Distinct(c')
            && (forall k :: 0 <= k < |c| ==> heap'[c[k]].element == heap[c[k]].element)
  {
    var c' := c[..p] + c[p + 1..];
    var heap' := SpliceOut(heap, c[p - 1], c[p + 1]);
    assert forall k :: 0 <= k < p ==> c'[k] == c[k];
    assert forall k :: p <= k < |c'| ==> c'[k] == c[k + 1];
    forall k | 0 <= k < |c'| - 1 ensures heap'[c'[k]].next == Some(c'[k + 1]) {
      if k < p - 1 {
        assert c[k] != c[p - 1] && c[k] != c[p + 1];
      } else if k >= p {
        assert c[k + 1] != c[p - 1];
      }
    }
    forall k | 1 <= k < |c'| ensures heap'[c'[k]].prev == Some(c'[k - 1]) {
      if k < p {
        assert c[k] != c[p + 1];
      } else if k > p {
        assert c[k + 1] != c[p - 1] && c[k + 1] != c[p + 1];
      }
    }
  }
}
