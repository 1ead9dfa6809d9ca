/** list/LinkedList.java: an index-based list over a doubly linked chain
    between a header and a trailer sentinel.

    The Node constructor stores `prev` but not `next`, so a spliced-in node
    keeps a null `next` until another node is spliced in after it. The `prev`
    references therefore always thread the whole chain, while a `next`
    reference is either the right one or null. `chain` records every node from
    header to trailer, in `prev` order, and is the abstraction witness; no
    operation reads it. Results that depend on the broken `next` references
    are stated as they are, and the corrected splice (`AddBetweenLinked`) is
    modelled beside the original. */
module LinkedList {
  import opened Common
  import opened DoubleLinks

  /** `free` is an address above every node in use; `new Node` takes it. */
  datatype List<E> = List(heap: map<Ref, Node<E>>, header: Ref, trailer: Ref,
                          size: int, chain: seq<Ref>, free: Ref)

  /** `prev` leads back through `c` from each node to the one before it, and
      each `next` is either the following node or null. */
  predicate Threaded<E>(heap: map<Ref, Node<E>>, c: seq<Ref>) {
    && (forall k :: 0 <= k < |c| ==> c[k] in heap)
    && (forall k :: 1 <= k < |c| ==> heap[c[k]].prev == Some(c[k - 1]))
    && (forall k :: 0 <= k < |c| - 1 ==> heap[c[k]].next == Some(c[k + 1]) || heap[c[k]].next == None)
  }

  /** The invariant the code keeps: the chain runs from header to trailer, is
      threaded by `prev`, and header's `next` is the first node. `size` is not
      tied to the chain, because `add(i, e)` breaks that relation. */
  predicate Valid<E>(l: List<E>) {
    && 0 <= l.size
    && 2 <= |l.chain|
    && l.chain[0] == l.header
    && l.chain[|l.chain| - 1] == l.trailer
    && Distinct(l.chain)
    && Threaded(l.heap, l.chain)
    && (forall k :: 0 <= k < |l.chain| ==> l.chain[k] < l.free)
    && (forall k :: 0 < k < |l.chain| - 1 ==> l.heap[l.chain[k]].element.Some?)
    && l.heap[l.header].next == Some(l.chain[1])
    && l.heap[l.header].prev == None
    && l.heap[l.trailer].next == None
  }

  /** `size` counts the element nodes of the chain. */
  predicate Counted<E>(l: List<E>) {
    l.size == |l.chain| - 2
  }

  /** The invariant of a correct doubly linked list: also every `next`
      reference is the right one, and `size` counts the elements. */
  predicate Sound<E>(l: List<E>) {
    Valid(l) && Counted(l) && Linked(l.heap, l.chain)
  }

  /** The `next` references of the first `k` element nodes are intact, so a
      forward walk of `k` steps from header's successor ends on chain node
      `k + 1`. */
  predicate ForwardIntact<E>(l: List<E>, k: int)
    requires Valid(l)
  {
    && 0 <= k
    && k + 1 < |l.chain|
    && forall j :: 1 <= j <= k ==> l.heap[l.chain[j]].next == Some(l.chain[j + 1])
  }

  /** `nodeAt(i)` reaches node `i`: from the back it always does, from the
      front only over intact `next` references. */
  predicate Reaches<E>(l: List<E>, i: int)
    requires Valid(l)
  {
    i >= l.size / 2 || ForwardIntact(l, i)
  }

  /** The list's contents, front first: the elements of the chain's inner
      nodes. */
  function Elements<E>(l: List<E>): (s: seq<E>)
    requires Valid(l)
    ensures |s| == |l.chain| - 2
  {
    seq(|l.chain| - 2, i requires 0 <= i < |l.chain| - 2 && l.chain[i + 1] in l.heap
                                  && l.heap[l.chain[i + 1]].element.Some?
                         => l.heap[l.chain[i + 1]].element.value)
  }

  /** `new LinkedList()`: header and trailer point at each other. */
  method New<E>() returns (l: List<E>)
    ensures Sound(l) && Elements(l) == []
  {
    l := List(map[0 := Node(None, None, Some(1)), 1 := Node(None, Some(0), None)], 0, 1, 0, [0, 1], 2);
  }

  function Size<E>(l: List<E>): (n: int)
    requires Valid(l)
    ensures Counted(l) ==> n == |Elements(l)|
  {
    l.size
  }

  function IsEmpty<E>(l: List<E>): (b: bool)
    requires Valid(l)
    ensures Counted(l) ==> (b <==> Elements(l) == [])
  {
    l.size == 0
  }

  /** `first()`: null when `size` is 0, else the element after the header. */
  function First<E>(l: List<E>): (e: Option<E>)
    requires Valid(l)
    ensures Counted(l) && Elements(l) == [] ==> e == None
    ensures Counted(l) && Elements(l) != [] ==> e == Some(Elements(l)[0])
  {
    if IsEmpty(l) then None
    else l.heap[l.heap[l.header].next.value].element
  }

  /** `last()`: null when `size` is 0, else the element before the trailer. */
  function Last<E>(l: List<E>): (e: Option<E>)
    requires Valid(l)
    ensures Counted(l) && Elements(l) == [] ==> e == None
    ensures Counted(l) && Elements(l) != [] ==> e == Some(Elements(l)[|Elements(l)| - 1])
  {
    if IsEmpty(l) then None
    else
      assert l.heap[l.chain[|l.chain| - 1]].prev == Some(l.chain[|l.chain| - 2]);
      l.heap[l.heap[l.trailer].prev.value].element
  }

  /** `isElementIndex(i)`. */
  predicate IsElementIndex<E>(l: List<E>, i: int) {
    0 <= i < l.size
  }

  /** `isPositionIndex(i)`. */
  predicate IsPositionIndex<E>(l: List<E>, i: int) {
    0 <= i <= l.size
  }

  /** `nodeAt(i)`: IndexOutOfBoundsException unless `0 <= i < size`; for
      `i < size / 2` it walks `next` from the header's successor, otherwise
      `prev` from the trailer's predecessor. Every caller dereferences the node
      at once, so a walk that meets null is reported as NullPointer. */
  method NodeAt<E>(l: List<E>, i: int) returns (r: Outcome<Ref>)
    requires Valid(l)
    ensures !IsElementIndex(l, i) ==> r == Throws(IndexOutOfBounds)
    ensures IsElementIndex(l, i) && r.Throws? ==> r.error == NullPointer
    ensures r.Ok? ==> r.value in l.chain
    ensures Counted(l) && IsElementIndex(l, i) ==> (r.Ok? <==> Reaches(l, i))
    ensures Counted(l) && r.Ok? ==> r.value == l.chain[i + 1]
  {
    if !IsElementIndex(l, i) {
      return Throws(IndexOutOfBounds);
    }
    if i < l.size / 2 {
      var node := l.heap[l.header].next;
      var k := 0;
      while k < i
        invariant 0 <= k <= i
        invariant node.Some? <==> ForwardIntact(l, k)
        invariant node.Some? ==> node.value == l.chain[k + 1]
      {
        if node.None? {
          return Throws(NullPointer);
        }
        if k + 2 < |l.chain| {
          assert l.heap[l.chain[k + 1]].next == Some(l.chain[k + 2]) || l.heap[l.chain[k + 1]].next == None;
        }
        node := l.heap[node.value].next;
        k := k + 1;
      }
      if node.None? {
        return Throws(NullPointer);
      }
      return Ok(node.value);
    } else {
      var node := l.heap[l.trailer].prev;
      assert l.heap[l.chain[|l.chain| - 1]].prev == Some(l.chain[|l.chain| - 2]);
      var k := l.size - 1;
      while k > i
        invariant i <= k <= l.size - 1
        invariant node.Some? <==> |l.chain| - 1 - l.size + k >= 0
        invariant node.Some? ==> node.value == l.chain[|l.chain| - 1 - l.size + k]
      {
        if node.None? {
          return Throws(NullPointer);
        }
        var idx := |l.chain| - 1 - l.size + k;
        if idx > 0 {
          assert l.heap[l.chain[idx]].prev == Some(l.chain[idx - 1]);
        }
        node := l.heap[node.value].prev;
        k := k - 1;
      }
      if node.None? {
        return Throws(NullPointer);
      }
      return Ok(node.value);
    }
  }

  /** `get(i)`: null when `size` is 0; otherwise the element of `nodeAt(i)`. */
  method Get<E>(l: List<E>, i: int) returns (r: Outcome<Option<E>>)
    requires Valid(l)
    ensures l.size == 0 ==> r == Ok(None)
    ensures l.size != 0 && !IsElementIndex(l, i) ==> r == Throws(IndexOutOfBounds)
    ensures Counted(l) && IsElementIndex(l, i) && Reaches(l, i) ==> r == Ok(Some(Elements(l)[i]))
    ensures Counted(l) && IsElementIndex(l, i) && !Reaches(l, i) ==> r == Throws(NullPointer)
  {
    if IsEmpty(l) {
      return Ok(None);
    }
    var node := NodeAt(l, i);
    if node.Throws? {
      return Throws(node.error);
    }
    return Ok(l.heap[node.value].element);
  }

  /** `set(i, e)`: null when `size` is 0; otherwise the element of `nodeAt(i)`
      is replaced and the old one returned. */
  method Set<E>(l: List<E>, i: int, e: E) returns (r: Outcome<(List<E>, Option<E>)>)
    requires Valid(l)
    ensures l.size == 0 ==> r == Ok((l, None))
    ensures l.size != 0 && !IsElementIndex(l, i) ==> r == Throws(IndexOutOfBounds)
    ensures r.Ok? ==> Valid(r.value.0) && r.value.0.size == l.size && |r.value.0.chain| == |l.chain|
    ensures Counted(l) && IsElementIndex(l, i) && !Reaches(l, i) ==> r == Throws(NullPointer)
    ensures Counted(l) && IsElementIndex(l, i) && Reaches(l, i) ==>
              && r.Ok?
              && r.value.1 == Some(Elements(l)[i])
              && Elements(r.value.0) == Elements(l)[i := e]
              && (Sound(l) ==> Sound(r.value.0))
  {
    if IsEmpty(l) {
      return Ok((l, None));
    }
    var node := NodeAt(l, i);
    if node.Throws? {
      return Throws(node.error);
    }
    var n := node.value;
    var old_ := l.heap[n].element;
    var l' := l.(heap := l.heap[n := l.heap[n].(element := Some(e))]);
    SetElement(l, n, e);
    if Counted(l) && IsElementIndex(l, i) && Reaches(l, i) {
      SetElementAt(l, i, e);
    }
    return Ok((l', old_));
  }

  /** Replacing the element of a chain node keeps every link, so the
      invariants survive and only that node's element changes. */
  lemma SetElement<E>(l: List<E>, n: Ref, e: E)
    requires Valid(l) && n in l.chain
    ensures var l' := l.(heap := l.heap[n := l.heap[n].(element := Some(e))]);
            && Valid(l')
            && (forall j :: 0 <= j < |l.chain| - 2 ==>
                  Elements(l')[j] == if l.chain[j + 1] == n then e else Elements(l)[j])
            && (Sound(l) ==> Sound(l'))
  {
    SetElementLinks(l, n, e);
  }

  /** The links of every chain node survive an element write. */
  lemma SetElementLinks<E>(l: List<E>, n: Ref, e: E)
    requires Valid(l) && n in l.chain
    ensures var l' := l.(heap := l.heap[n := l.heap[n].(element := Some(e))]);
            Valid(l') && (Sound(l) ==> Sound(l'))
  {
    var l' := l.(heap := l.heap[n := l.heap[n].(element := Some(e))]);
    SetElementThreaded(l.heap, l.chain, n, e);
    assert l'.heap[l.header].next == l.heap[l.header].next;
    assert l'.heap[l.trailer].next == l.heap[l.trailer].next;
  }

  /** An element write keeps a chain threaded, and linked when it was. */
  lemma SetElementThreaded<E>(heap: map<Ref, Node<E>>, c: seq<Ref>, n: Ref, e: E)
    requires Threaded(heap, c) && n in heap
    ensures var heap' := heap[n := heap[n].(element := Some(e))];
            Threaded(heap', c) && (Linked(heap, c) ==> Linked(heap', c))
            && forall k :: 0 <= k < |c| ==> heap'[c[k]].element == (if c[k] == n then Some(e) else heap[c[k]].element)
  {
    var heap' := heap[n := heap[n].(element := Some(e))];
    assert forall k :: 0 <= k < |c| ==>
      heap'[c[k]].next == heap[c[k]].next && heap'[c[k]].prev == heap[c[k]].prev;
  }

  /** Writing the element of chain node `i + 1` replaces element `i`. */
  lemma SetElementAt<E>(l: List<E>, i: int, e: E)
    requires Valid(l) && 0 <= i < |l.chain| - 2
    ensures var n := l.chain[i + 1]; var l' := l.(heap := l.heap[n := l.heap[n].(element := Some(e))]);
            Valid(l') && Elements(l') == Elements(l)[i := e]
  {
    var n := l.chain[i + 1];
    SetElement(l, n, e);
    var l' := l.(heap := l.heap[n := l.heap[n].(element := Some(e))]);
    forall j | 0 <= j < |l.chain| - 2 ensures Elements(l')[j] == Elements(l)[i := e][j] {
      if j != i {
        assert l.chain[j + 1] != n;
      }
    }
  }

  /** A linked chain is threaded. */
  lemma LinkedThreaded<E>(heap: map<Ref, Node<E>>, c: seq<Ref>)
    requires Linked(heap, c)
    ensures Threaded(heap, c)
  {
  }

  /** The splice of `addBetween(e, pred, succ)` as written: the new node gets
      `prev = pred` but a null `next`, because the constructor drops it. */
  function SpliceAsWritten<E>(heap: map<Ref, Node<E>>, pred: Ref, succ: Ref, x: Ref, e: E): map<Ref, Node<E>>
    requires pred in heap && succ in heap
  {
    heap[pred := heap[pred].(next := Some(x))][succ := heap[succ].(prev := Some(x))]
        [x := Node(Some(e), Some(pred), None)]
  }

  /** Splicing, as written, a fresh node between positions `p` and `p + 1`
      of a threaded chain yields a threaded chain with the node inserted. */
  lemma SpliceAsWrittenThreaded<E>(heap: map<Ref, Node<E>>, c: seq<Ref>, p: int, x: Ref, e: E)
    requires Threaded(heap, c) && Distinct(c) && 0 <= p < |c| - 1 && x !in c
    ensures var c' := c[..p + 1] + [x] + c[p + 1..];
            var heap' := SpliceAsWritten(heap, c[p], c[p + 1], x, e);
            && Threaded(heap', c') && Distinct(c')
            && heap'[x].element == Some(e) && heap'[x].next == None
            && (forall k :: 0 <= k < |c| ==> heap'[c[k]].element == heap[c[k]].element)
            && (forall k :: 0 <= k < |c| && k != p ==> heap'[c[k]].next == heap[c[k]].next)
            && (forall k :: 0 <= k < |c| && k != p + 1 ==> heap'[c[k]].prev == heap[c[k]].prev)
  {
    var c' := c[..p + 1] + [x] + c[p + 1..];
    var heap' := SpliceAsWritten(heap, c[p], c[p + 1], x, e);
    assert forall k :: 0 <= k <= p ==> c'[k] == c[k];
    assert c'[p + 1] == x;
    assert forall k :: p + 2 <= k < |c'| ==> c'[k] == c[k - 1];
    forall k | 0 <= k < |c'| - 1
      ensures heap'[c'[k]].next == Some(c'[k + 1]) || heap'[c'[k]].next == None
    {
      if k < p {
        assert c[k] != c[p] && c[k] != c[p + 1];
      } else if k > p + 1 {
        assert c[k - 1] != c[p];
      }
    }
    forall k | 1 <= k < |c'| ensures heap'[c'[k]].prev == Some(c'[k - 1]) {
      if k < p + 1 {
        assert c[k] != c[p + 1];
      } else if k > p + 2 {
        assert c[k - 1] != c[p] && c[k - 1] != c[p + 1];
      }
    }
    InsertDistinct(c, p, x);
  }

  /** Inserting a fresh reference after position `p` keeps a chain free of
      repeats. */
  lemma InsertDistinct(c: seq<Ref>, p: int, x: Ref)
    requires Distinct(c) && 0 <= p < |c| && x !in c
    ensures Distinct(c[..p + 1] + [x] + c[p + 1..])
  {
    var c' := c[..p + 1] + [x] + c[p + 1..];
    assert forall k :: 0 <= k <= p ==> c'[k] == c[k];
    assert c'[p + 1] == x;
    assert forall k :: p + 2 <= k < |c'| ==> c'[k] == c[k - 1];
    forall i, j | 0 <= i < j < |c'| ensures c'[i] != c'[j] {
      if i <= p && j > p + 1 { assert c[i] != c[j - 1]; }
      if i == p + 1 { assert c[j - 1] in c; }
      if j == p + 1 { assert c[i] in c; }
    }
  }

  /** The splice `add(i, e)` performs around the node at inner position `q`,
      whose `next` is intact: the new node takes its place in the chain. */
  lemma ReplaceThreaded<E>(heap: map<Ref, Node<E>>, c: seq<Ref>, q: int, x: Ref, e: E)
    requires Threaded(heap, c) && Distinct(c) && 0 < q < |c| - 1 && x !in c
    requires heap[c[q]].next == Some(c[q + 1])
    ensures var c' := c[q := x];
            var heap' := SpliceAsWritten(heap, c[q - 1], c[q + 1], x, e);
            && Threaded(heap', c') && Distinct(c')
            && heap'[x].element == Some(e)
            && (forall k :: 0 <= k < |c| ==> heap'[c[k]].element == heap[c[k]].element)
            && (forall k :: 0 <= k < |c| && k != q - 1 && k != q ==> heap'[c[k]].next == heap[c[k]].next)
            && (forall k :: 0 <= k < |c| && k != q + 1 && k != q ==> heap'[c[k]].prev == heap[c[k]].prev)
  {
    var c' := c[q := x];
    var heap' := SpliceAsWritten(heap, c[q - 1], c[q + 1], x, e);
    forall k | 0 <= k < |c'| - 1
      ensures heap'[c'[k]].next == Some(c'[k + 1]) || heap'[c'[k]].next == None
    {
      if k != q - 1 && k != q {
        assert c[k] != c[q - 1];
      }
    }
    forall k | 1 <= k < |c'| ensures heap'[c'[k]].prev == Some(c'[k - 1]) {
      if k != q + 1 && k != q {
        assert c[k] != c[q + 1];
      }
    }
  }

  /** Unlinking the node at inner position `q`, whose `next` is intact, and
      clearing it leaves a threaded chain without it. */
  lemma UnlinkThreaded<E>(heap: map<Ref, Node<E>>, c: seq<Ref>, q: int)
    requires Threaded(heap, c) && Distinct(c) && 0 < q < |c| - 1
    requires heap[c[q]].next == Some(c[q + 1])
    ensures var c' := c[..q] + c[q + 1..];
            var heap' := SpliceOut(heap, c[q - 1], c[q + 1])[c[q] := Node(None, None, None)];
            && Threaded(heap', c') && Distinct(c')
            && (forall k :: 0 <= k < |c| && k != q ==> heap'[c[k]].element == heap[c[k]].element)
            && (forall k :: 0 <= k < |c| && k != q - 1 && k != q ==> heap'[c[k]].next == heap[c[k]].next)
            && (forall k :: 0 <= k < |c| && k != q + 1 && k != q ==> heap'[c[k]].prev == heap[c[k]].prev)
  {
    UnlinkFrame(heap, c, q);
    UnlinkNexts(heap, c, q);
    UnlinkPrevs(heap, c, q);
  }

  /** After the unlink every other chain node keeps its fields, except the
      two links that now bypass node `q`. */
  lemma UnlinkFrame<E>(heap: map<Ref, Node<E>>, c: seq<Ref>, q: int)
    requires Threaded(heap, c) && Distinct(c) && 0 < q < |c| - 1
    ensures var heap' := SpliceOut(heap, c[q - 1], c[q + 1])[c[q] := Node(None, None, None)];
      forall k :: 0 <= k < |c| && k != q ==>
        c[k] in heap'
        && heap'[c[k]] == (if k == q - 1 then heap[c[k]].(next := Some(c[q + 1]))
                           else if k == q + 1 then heap[c[k]].(prev := Some(c[q - 1]))
                           else heap[c[k]])
  {
  }

  /** The unlinked chain is distinct and its `next` links are intact or null. */
  lemma UnlinkNexts<E>(heap: map<Ref, Node<E>>, c: seq<Ref>, q: int)
    requires Threaded(heap, c) && Distinct(c) && 0 < q < |c| - 1
    ensures var c' := c[..q] + c[q + 1..];
      var heap' := SpliceOut(heap, c[q - 1], c[q + 1])[c[q] := Node(None, None, None)];
      && Distinct(c') && (forall k :: 0 <= k < |c'| ==> c'[k] in heap')
      && forall k :: 0 <= k < |c'| - 1 ==> heap'[c'[k]].next == Some(c'[k + 1]) || heap'[c'[k]].next == None
  {
    var c' := c[..q] + c[q + 1..];
    UnlinkFrame(heap, c, q);
    assert forall k :: 0 <= k < q ==> c'[k] == c[k];
    assert forall k :: q <= k < |c'| ==> c'[k] == c[k + 1];
  }

  /** The unlinked chain is threaded by `prev`. */
  lemma UnlinkPrevs<E>(heap: map<Ref, Node<E>>, c: seq<Ref>, q: int)
    requires Threaded(heap, c) && Distinct(c) && 0 < q < |c| - 1
    ensures var c' := c[..q] + c[q + 1..];
      var heap' := SpliceOut(heap, c[q - 1], c[q + 1])[c[q] := Node(None, None, None)];
      forall k :: 1 <= k < |c'| ==> c'[k] in heap' && heap'[c'[k]].prev == Some(c'[k - 1])
  {
    var c' := c[..q] + c[q + 1..];
    UnlinkFrame(heap, c, q);
    assert forall k :: 0 <= k < q ==> c'[k] == c[k];
    assert forall k :: q <= k < |c'| ==> c'[k] == c[k + 1];
  }

  /** `next` of chain node `q` is intact. */
  predicate NextIntact<E>(l: List<E>, q: int)
    requires Valid(l) && 0 <= q < |l.chain| - 1
  {
    l.heap[l.chain[q]].next == Some(l.chain[q + 1])
  }

  /** `addBetween(e, pred, succ)` as written, for `pred` and `succ` the chain
      nodes at `p` and `p + 1`: the new node is threaded in by `prev` but its
      own `next` stays null, and `size` grows. */
  function AddBetween<E>(l: List<E>, e: E, p: int): (r: List<E>)
    requires Valid(l) && 0 <= p < |l.chain| - 1
    ensures Valid(r) && r.size == l.size + 1 && (Counted(l) ==> Counted(r))
    ensures Elements(r) == Elements(l)[..p] + [e] + Elements(l)[p..]
    ensures r.heap[r.chain[p + 1]].next == None
  {
    AddBetweenElements(l, e, p);
    Spliced(l, e, p)
  }

  /** The list `addBetween` builds between chain positions `p` and `p + 1`. */
  function Spliced<E>(l: List<E>, e: E, p: int): List<E>
    requires Valid(l) && 0 <= p < |l.chain| - 1
  {
    var c := l.chain;
    List(SpliceAsWritten(l.heap, c[p], c[p + 1], l.free, e), l.header, l.trailer,
         l.size + 1, c[..p + 1] + [l.free] + c[p + 1..], l.free + 1)
  }

  lemma AddBetweenValid<E>(l: List<E>, e: E, p: int)
    requires Valid(l) && 0 <= p < |l.chain| - 1
    ensures Valid(Spliced(l, e, p))
    ensures Spliced(l, e, p).heap[l.free] == Node(Some(e), Some(l.chain[p]), None)
  {
    var c := l.chain;
    assert l.free !in c;
    SpliceAsWrittenThreaded(l.heap, c, p, l.free, e);
    SplicedValid(l, Spliced(l, e, p), e, p, None);
  }

  /** A list grown by either splice, as written or corrected, at chain
      positions `p` and `p + 1`, with the new node's `next` set to `nx`, is
      valid once its chain is threaded. */
  lemma SplicedValid<E>(l: List<E>, r: List<E>, e: E, p: int, nx: Option<Ref>)
    requires Valid(l) && 0 <= p < |l.chain| - 1
    requires var c, x := l.chain, l.free;
      && r.header == l.header && r.trailer == l.trailer && r.size == l.size + 1 && r.free == x + 1
      && r.chain == c[..p + 1] + [x] + c[p + 1..]
      && r.heap == l.heap[c[p] := l.heap[c[p]].(next := Some(x))][c[p + 1] := l.heap[c[p + 1]].(prev := Some(x))]
                         [x := Node(Some(e), Some(c[p]), nx)]
    requires Threaded(r.heap, r.chain) && Distinct(r.chain)
    ensures Valid(r)
  {
    var c := l.chain;
    var x := l.free;
    assert x !in c;
    assert r.chain[0] == c[0] && r.chain[|r.chain| - 1] == c[|c| - 1];
    assert r.chain[1] == if p == 0 then x else c[1];
    assert c[0] != c[p + 1] && c[|c| - 1] != c[p];
    assert p == 0 || c[0] != c[p];
    SplicedNodes(l, r, e, p);
  }

  /** The grown chain lies below `free`, and its inner nodes hold elements. */
  lemma SplicedNodes<E>(l: List<E>, r: List<E>, e: E, p: int)
    requires Valid(l) && 0 <= p < |l.chain| - 1
    requires var c, x := l.chain, l.free;
      && r.free == x + 1 && r.chain == c[..p + 1] + [x] + c[p + 1..]
      && x in r.heap && r.heap[x].element == Some(e)
      && forall k :: 0 <= k < |c| ==> c[k] in r.heap && r.heap[c[k]].element == l.heap[c[k]].element
    ensures forall k :: 0 <= k < |r.chain| ==> r.chain[k] < r.free
    ensures forall k :: 0 < k < |r.chain| - 1 ==> r.heap[r.chain[k]].element.Some?
  {
    var c := l.chain;
    forall k | 0 <= k < |r.chain|
      ensures r.chain[k] < r.free && (0 < k < |r.chain| - 1 ==> r.heap[r.chain[k]].element.Some?)
    {
      if k <= p { assert r.chain[k] == c[k]; }
      else if k > p + 1 { assert r.chain[k] == c[k - 1]; }
    }
  }

  lemma AddBetweenElements<E>(l: List<E>, e: E, p: int)
    requires Valid(l) && 0 <= p < |l.chain| - 1
    ensures Valid(Spliced(l, e, p))
    ensures Elements(Spliced(l, e, p)) == Elements(l)[..p] + [e] + Elements(l)[p..]
    ensures Spliced(l, e, p).heap[Spliced(l, e, p).chain[p + 1]].next == None
  {
    AddBetweenValid(l, e, p);
    var c := l.chain;
    var r := Spliced(l, e, p);
    SpliceAsWrittenThreaded(l.heap, c, p, l.free, e);
    SplicedElements(l, r, e, p);
  }

  /** A chain grown by one node holding `e` after position `p` lists `e`
      between the first `p` elements and the rest. */
  lemma SplicedElements<E>(l: List<E>, r: List<E>, e: E, p: int)
    requires Valid(l) && Valid(r) && 0 <= p < |l.chain| - 1
    requires var c, x := l.chain, l.free;
      && r.chain == c[..p + 1] + [x] + c[p + 1..]
      && x in r.heap && r.heap[x].element == Some(e)
      && forall k :: 0 <= k < |c| ==> c[k] in r.heap && r.heap[c[k]].element == l.heap[c[k]].element
    ensures Elements(r) == Elements(l)[..p] + [e] + Elements(l)[p..]
  {
    var c := l.chain;
    var want := Elements(l)[..p] + [e] + Elements(l)[p..];
    forall i | 0 <= i < |r.chain| - 2 ensures Elements(r)[i] == want[i] {
      ElementAt(r, i);
      if i < p {
        assert r.chain[i + 1] == c[i + 1];
        ElementAt(l, i);
      } else if i > p {
        assert r.chain[i + 1] == c[i];
        ElementAt(l, i - 1);
      }
    }
  }

  /** Element `i` is the element of chain node `i + 1`. */
  lemma ElementAt<E>(l: List<E>, i: int)
    requires Valid(l) && 0 <= i < |l.chain| - 2
    ensures l.chain[i + 1] in l.heap && l.heap[l.chain[i + 1]].element == Some(Elements(l)[i])
  {
  }

  /** `addFirst(e)`: `addBetween(e, header, header.next)`. */
  function AddFirst<E>(l: List<E>, e: E): (r: List<E>)
    requires Valid(l)
    ensures Valid(r) && r.size == l.size + 1 && (Counted(l) ==> Counted(r))
    ensures Elements(r) == [e] + Elements(l)
    ensures r.heap[r.chain[1]].next == None
  {
    AddBetween(l, e, 0)
  }

  /** `addLast(e)`: `addBetween(e, trailer.prev, trailer)`. */
  function AddLast<E>(l: List<E>, e: E): (r: List<E>)
    requires Valid(l)
    ensures Valid(r) && r.size == l.size + 1 && (Counted(l) ==> Counted(r))
    ensures Elements(r) == Elements(l) + [e]
    ensures r.heap[r.chain[|r.chain| - 2]].next == None
  {
    assert Elements(l)[..|l.chain| - 2] == Elements(l);
    AddBetween(l, e, |l.chain| - 2)
  }

  /** The position of the first occurrence of `x` in `c`. */
  function IndexOf(c: seq<Ref>, x: Ref): (q: int)
    requires x in c
    ensures 0 <= q < |c| && c[q] == x
    ensures forall j :: 0 <= j < q ==> c[j] != x
  {
    if c[0] == x then 0 else 1 + IndexOf(c[1..], x)
  }

  /** `add(i, e)` as written: `checkPositionIndex(i)`, then
      `addBetween(e, node.prev, node.next)` for `node = nodeAt(i)`. The new
      node takes the place of node `i` instead of going before it, while
      `size` still grows; `i == size` passes the first check but not the one
      in `nodeAt`. A null `prev` or `next` around the node is dereferenced. */
  method Add<E>(l: List<E>, i: int, e: E) returns (r: Outcome<List<E>>)
    requires Valid(l)
    ensures !(0 <= i < l.size) ==> r == Throws(IndexOutOfBounds)
    ensures 0 <= i < l.size && r.Throws? ==> r.error == NullPointer
    ensures r.Ok? ==> Valid(r.value) && r.value.size == l.size + 1 && |r.value.chain| == |l.chain|
    ensures Counted(l) && 0 <= i < l.size ==> (r.Ok? <==> Reaches(l, i) && NextIntact(l, i + 1))
    ensures Counted(l) && r.Ok? ==> Elements(r.value) == Elements(l)[i := e] && !Counted(r.value)
  {
    if !IsPositionIndex(l, i) {
      return Throws(IndexOutOfBounds);
    }
    var found := NodeAt(l, i);
    if found.Throws? {
      return Throws(found.error);
    }
    var node := found.value;
    var q := IndexOf(l.chain, node);
    var n := l.heap[node];
    if n.prev.None? || n.next.None? {
      return Throws(NullPointer);
    }
    assert q != 0 && q != |l.chain| - 1;
    assert n.prev == Some(l.chain[q - 1]);
    assert n.next == Some(l.chain[q + 1]);
    var l' := Replaced(l, q, e);
    ReplaceElements(l, q, e);
    if Counted(l) {
      assert q == i + 1;
    }
    return Ok(l');
  }

  /** `remove(i)`: `checkElementIndex(i)`; node `nodeAt(i)` is unlinked
      between its `prev` and `next`, cleared, and its element returned.
      A null `prev` or `next` around the node is dereferenced. */
  method Remove<E>(l: List<E>, i: int) returns (r: Outcome<(List<E>, E)>)
    requires Valid(l)
    ensures !IsElementIndex(l, i) ==> r == Throws(IndexOutOfBounds)
    ensures IsElementIndex(l, i) && r.Throws? ==> r.error == NullPointer
    ensures r.Ok? ==> Valid(r.value.0) && r.value.0.size == l.size - 1 && |r.value.0.chain| == |l.chain| - 1
    ensures Counted(l) && IsElementIndex(l, i) ==> (r.Ok? <==> Reaches(l, i) && NextIntact(l, i + 1))
    ensures Counted(l) && r.Ok? ==>
              && Counted(r.value.0)
              && r.value.1 == Elements(l)[i]
              && Elements(r.value.0) == Elements(l)[..i] + Elements(l)[i + 1..]
              && (Sound(l) ==> Sound(r.value.0))
  {
    if !IsElementIndex(l, i) {
      return Throws(IndexOutOfBounds);
    }
    var found := NodeAt(l, i);
    if found.Throws? {
      return Throws(found.error);
    }
    var node := found.value;
    var q := IndexOf(l.chain, node);
    var n := l.heap[node];
    if n.prev.None? || n.next.None? {
      return Throws(NullPointer);
    }
    assert q != 0 && q != |l.chain| - 1;
    assert n.prev == Some(l.chain[q - 1]);
    assert n.next == Some(l.chain[q + 1]);
    var c := l.chain;
    var l' := Unlinked(l, q);
    RemoveElements(l, q);
    if Counted(l) {
      assert q == i + 1;
    }
    return Ok((l', n.element.value));
  }

  /** The list `remove` builds from a valid list whose node at inner
      position `q` has an intact `next`. */
  function Unlinked<E>(l: List<E>, q: int): List<E>
    requires Valid(l) && 0 < q < |l.chain| - 1
  {
    var c := l.chain;
    List(SpliceOut(l.heap, c[q - 1], c[q + 1])[c[q] := Node(None, None, None)],
         l.header, l.trailer, l.size - 1, c[..q] + c[q + 1..], l.free)
  }

  lemma RemoveValid<E>(l: List<E>, q: int)
    requires Valid(l) && 0 < q < |l.chain| - 1 && NextIntact(l, q) && 1 <= l.size
    ensures Valid(Unlinked(l, q))
  {
    var c := l.chain;
    var r := Unlinked(l, q);
    UnlinkThreaded(l.heap, c, q);
    UnlinkedNodes(l, q);
    UnlinkedEnds(l, q);
  }

  /** After unlinking, the chain still lies below `free` and its inner
      nodes still hold elements. */
  lemma UnlinkedNodes<E>(l: List<E>, q: int)
    requires Valid(l) && 0 < q < |l.chain| - 1
    ensures var r := Unlinked(l, q);
      && (forall k :: 0 <= k < |r.chain| ==> r.chain[k] < r.free)
      && (forall k :: 0 < k < |r.chain| - 1 ==> r.heap[r.chain[k]].element.Some?)
  {
    var c := l.chain;
    var r := Unlinked(l, q);
    forall k | 0 <= k < |r.chain|
      ensures r.chain[k] < r.free && (0 < k < |r.chain| - 1 ==> r.heap[r.chain[k]].element.Some?)
    {
      var m := if k < q then k else k + 1;
      assert r.chain[k] == c[m] && c[m] != c[q];
    }
  }

  /** Unlinking an inner node leaves the sentinels' outer links alone and
      points header at the new first node. */
  lemma UnlinkedEnds<E>(l: List<E>, q: int)
    requires Valid(l) && 0 < q < |l.chain| - 1 && NextIntact(l, q)
    ensures var r := Unlinked(l, q);
      && |r.chain| >= 2 && r.chain[0] == r.header && r.chain[|r.chain| - 1] == r.trailer
      && r.heap[r.header].next == Some(r.chain[1])
      && r.heap[r.header].prev == None
      && r.heap[r.trailer].next == None
  {
    var c := l.chain;
    var r := Unlinked(l, q);
    assert c[0] != c[q] && c[0] != c[q + 1] && c[|c| - 1] != c[q - 1] && c[|c| - 1] != c[q];
    assert q == 1 || c[0] != c[q - 1];
    if q == 1 {
      assert r.chain[1] == c[2];
    } else {
      assert r.chain[1] == c[1];
    }
  }

  lemma RemoveElements<E>(l: List<E>, q: int)
    requires Valid(l) && 0 < q < |l.chain| - 1 && NextIntact(l, q) && 1 <= l.size
    ensures Valid(Unlinked(l, q))
    ensures Elements(Unlinked(l, q)) == Elements(l)[..q - 1] + Elements(l)[q..]
    ensures Sound(l) ==> Sound(Unlinked(l, q))
  {
    RemoveValid(l, q);
    RemoveContents(l, q);
    if Sound(l) {
      RemoveSound(l, q);
    }
  }

  /** Unlinking the node at `q` drops exactly element `q - 1`. */
  lemma RemoveContents<E>(l: List<E>, q: int)
    requires Valid(l) && 0 < q < |l.chain| - 1 && NextIntact(l, q) && 1 <= l.size
    ensures Valid(Unlinked(l, q))
    ensures Elements(Unlinked(l, q)) == Elements(l)[..q - 1] + Elements(l)[q..]
  {
    var c := l.chain;
    var r := Unlinked(l, q);
    RemoveValid(l, q);
    UnlinkThreaded(l.heap, c, q);
    forall j | 0 <= j < |r.chain| - 2 ensures Elements(r)[j] == (Elements(l)[..q - 1] + Elements(l)[q..])[j] {
      if j + 1 < q {
        assert r.chain[j + 1] == c[j + 1];
      } else {
        assert r.chain[j + 1] == c[j + 2];
      }
    }
  }

  /** Unlinking a node from a sound list leaves a sound list. */
  lemma RemoveSound<E>(l: List<E>, q: int)
    requires Sound(l) && 0 < q < |l.chain| - 1 && NextIntact(l, q) && 1 <= l.size
    ensures Sound(Unlinked(l, q))
  {
    var c := l.chain;
    var r := Unlinked(l, q);
    RemoveValid(l, q);
    SpliceOutLinked(l.heap, c, q);
    forall k | 0 <= k < |r.chain| ensures r.chain[k] != c[q] && r.heap[r.chain[k]] == SpliceOut(l.heap, c[q - 1], c[q + 1])[r.chain[k]] {
      if k < q { assert r.chain[k] == c[k]; } else { assert r.chain[k] == c[k + 1]; }
    }
  }

  /** The list `add(i, e)` builds when node `i` sits at inner position `q`
      with an intact `next`. */
  function Replaced<E>(l: List<E>, q: int, e: E): List<E>
    requires Valid(l) && 0 < q < |l.chain| - 1
  {
    var c := l.chain;
    List(SpliceAsWritten(l.heap, c[q - 1], c[q + 1], l.free, e), l.header, l.trailer,
         l.size + 1, c[q := l.free], l.free + 1)
  }

  lemma ReplaceValid<E>(l: List<E>, q: int, e: E)
    requires Valid(l) && 0 < q < |l.chain| - 1 && NextIntact(l, q)
    ensures Valid(Replaced(l, q, e))
  {
    var c := l.chain;
    assert l.free !in c;
    ReplaceThreaded(l.heap, c, q, l.free, e);
    assert c[0] != c[q + 1] && c[|c| - 1] != c[q - 1];
    assert q == 1 || c[0] != c[q - 1];
  }

  lemma ReplaceElements<E>(l: List<E>, q: int, e: E)
    requires Valid(l) && 0 < q < |l.chain| - 1 && NextIntact(l, q)
    ensures Valid(Replaced(l, q, e))
    ensures Elements(Replaced(l, q, e)) == Elements(l)[q - 1 := e]
  {
    ReplaceValid(l, q, e);
    var c := l.chain;
    var r := Replaced(l, q, e);
    ReplaceThreaded(l.heap, c, q, l.free, e);
    forall j | 0 <= j < |c| - 2 ensures Elements(r)[j] == Elements(l)[q - 1 := e][j] {
      if j + 1 != q {
        assert r.chain[j + 1] == c[j + 1];
      }
    }
  }

  /** On a sound list every index is reached by `nodeAt` and every element
      node has an intact `next`, so no operation meets a null reference. */
  lemma SoundReaches<E>(l: List<E>, i: int)
    requires Sound(l) && IsElementIndex(l, i)
    ensures Reaches(l, i) && NextIntact(l, i + 1)
  {
    LinkedAt(l.heap, l.chain, i + 1);
  }

  /** The corrected `addBetween`: the new node also links to `succ`. */
  function AddBetweenLinked<E>(l: List<E>, e: E, p: int): (r: List<E>)
    requires Sound(l) && 0 <= p <= l.size
    ensures Sound(r) && Elements(r) == Elements(l)[..p] + [e] + Elements(l)[p..]
  {
    AddBetweenLinkedSound(l, e, p);
    SplicedLinked(l, e, p)
  }

  /** The list the corrected `addBetween` builds between chain positions `p`
      and `p + 1`. */
  function SplicedLinked<E>(l: List<E>, e: E, p: int): List<E>
    requires Valid(l) && 0 <= p < |l.chain| - 1
  {
    var c := l.chain;
    List(SpliceIn(l.heap, c[p], c[p + 1], l.free, e), l.header, l.trailer,
         l.size + 1, c[..p + 1] + [l.free] + c[p + 1..], l.free + 1)
  }

  lemma AddBetweenLinkedValid<E>(l: List<E>, e: E, p: int)
    requires Sound(l) && 0 <= p <= l.size
    ensures Sound(SplicedLinked(l, e, p))
  {
    var c := l.chain;
    assert l.free !in c;
    var r := SplicedLinked(l, e, p);
    SpliceInLinked(l.heap, c, p, l.free, e);
    LinkedThreaded(r.heap, r.chain);
    SplicedValid(l, r, e, p, Some(c[p + 1]));
  }

  lemma AddBetweenLinkedSound<E>(l: List<E>, e: E, p: int)
    requires Sound(l) && 0 <= p <= l.size
    ensures Sound(SplicedLinked(l, e, p))
    ensures Elements(SplicedLinked(l, e, p)) == Elements(l)[..p] + [e] + Elements(l)[p..]
  {
    AddBetweenLinkedValid(l, e, p);
    var c := l.chain;
    var r := SplicedLinked(l, e, p);
    SpliceInLinked(l.heap, c, p, l.free, e);
    SplicedElements(l, r, e, p);
  }

  /** The corrected `addFirst(e)`. */
  function AddFirstLinked<E>(l: List<E>, e: E): (r: List<E>)
    requires Sound(l)
    ensures Sound(r) && Elements(r) == [e] + Elements(l)
  {
    AddBetweenLinked(l, e, 0)
  }

  /** The corrected `addLast(e)`. */
  function AddLastLinked<E>(l: List<E>, e: E): (r: List<E>)
    requires Sound(l)
    ensures Sound(r) && Elements(r) == Elements(l) + [e]
  {
    assert Elements(l)[..l.size] == Elements(l);
    AddBetweenLinked(l, e, l.size)
  }

  /** The corrected `add(i, e)`: `checkPositionIndex(i)`, then the new node
      goes between node `i` and its predecessor, or before the trailer when
      `i == size`. */
  method Insert<E>(l: List<E>, i: int, e: E) returns (r: Outcome<List<E>>)
    requires Sound(l)
    ensures r.Ok? <==> IsPositionIndex(l, i)
    ensures r.Throws? ==> r.error == IndexOutOfBounds
    ensures r.Ok? ==> Sound(r.value) && Elements(r.value) == Elements(l)[..i] + [e] + Elements(l)[i..]
  {
    if !IsPositionIndex(l, i) {
      return Throws(IndexOutOfBounds);
    }
    if i == l.size {
      return Ok(AddLastLinked(l, e));
    }
    return Ok(AddBetweenLinked(l, e, i));
  }

  /** After `addFirst` on a list of three or more elements, `get(1)` walks
      forward through the new node's null `next` (so `Get` throws
      NullPointer). */
  lemma AddFirstBreaksGet<E>(l: List<E>, e: E)
    requires Valid(l) && Counted(l) && l.size >= 3
    ensures var r := AddFirst(l, e);
            Counted(r) && IsElementIndex(r, 1) && !Reaches(r, 1)
  {
    var r := AddFirst(l, e);
    assert r.heap[r.chain[1]].next != Some(r.chain[2]);
  }

  /** After `addLast`, removing the last element dereferences the new node's
      null `next` (so `Remove` throws NullPointer). */
  lemma AddLastBreaksRemove<E>(l: List<E>, e: E)
    requires Valid(l) && Counted(l)
    ensures var r := AddLast(l, e);
            Counted(r) && IsElementIndex(r, r.size - 1) && !NextIntact(r, r.size)
  {
  }

  /** `addFirst` four times, then `get(1)`: NullPointerException. */
  method GetAfterAddFirsts() returns (r: Outcome<Option<int>>)
    ensures r == Throws(NullPointer)
  {
    var l0 := New<int>();
    var l := AddFirst(AddFirst(AddFirst(AddFirst(l0, 4), 3), 2), 1);
    AddFirstBreaksGet(AddFirst(AddFirst(AddFirst(l0, 4), 3), 2), 1);
    r := Get(l, 1);
  }

  /** `addLast(7)` on a new list, then `remove(0)`: NullPointerException. */
  method RemoveAfterAddLast() returns (r: Outcome<(List<int>, int)>)
    ensures r == Throws(NullPointer)
  {
    var l0 := New<int>();
    var l := AddLast(l0, 7);
    AddLastBreaksRemove(l0, 7);
    r := Remove(l, 0);
  }

  /** On the sound list [1, 2], `add(0, 9)` as written gives [9, 2] with
      `size` 3, where the corrected `Insert` gives [9, 1, 2]. */
  method AddReplacesNode() returns (written: Outcome<List<int>>, corrected: Outcome<List<int>>)
    ensures written.Ok? && Valid(written.value) && Elements(written.value) == [9, 2] && written.value.size == 3
    ensures corrected.Ok? && Sound(corrected.value) && Elements(corrected.value) == [9, 1, 2] && corrected.value.size == 3
  {
    var l := OneTwo();
    written, corrected := AddAtFront(l);
  }

  /** A new list after `addLast(1)` and `addLast(2)` with the corrected
      splice: the sound list [1, 2]. */
  method OneTwo() returns (l: List<int>)
    ensures Sound(l) && Elements(l) == [1, 2]
  {
    var l0 := New<int>();
    l := AppendOneTwo(l0);
  }

  /** `addLast(1)` then `addLast(2)`, corrected, on any sound empty list. */
  method AppendOneTwo(l0: List<int>) returns (l: List<int>)
    requires Sound(l0) && Elements(l0) == []
    ensures Sound(l) && Elements(l) == [1, 2]
  {
    var l1 := AddLastLinked(l0, 1);
    assert Elements(l1) == [] + [1] == [1];
    l := AddLastLinked(l1, 2);
    assert Elements(l) == [1] + [2] == [1, 2];
  }

  /** `add(0, 9)` on any sound list holding [1, 2], as written and
      corrected. */
  method AddAtFront(l: List<int>) returns (written: Outcome<List<int>>, corrected: Outcome<List<int>>)
    requires Sound(l) && Elements(l) == [1, 2]
    ensures written.Ok? && Valid(written.value) && Elements(written.value) == [9, 2] && written.value.size == 3
    ensures corrected.Ok? && Sound(corrected.value) && Elements(corrected.value) == [9, 1, 2] && corrected.value.size == 3
  {
    SoundReaches(l, 0);
    written := Add(l, 0, 9);
    assert Elements(l)[0 := 9] == [9, 2];
    corrected := Insert(l, 0, 9);
    assert Elements(l)[..0] + [9] + Elements(l)[0..] == [9, 1, 2];
  }
}
