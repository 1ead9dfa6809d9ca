/** deque/LinkedDeque.java: a deque adapter over DoublyLinkedList. Unlike
    deque/ArrayDeque.java it has no capacity, so adding never throws. */
module LinkedDeque {
  import opened Common
  import L = DoublyLinkedList

  datatype Deque<E> = Deque(dList: L.List<E>)

  predicate Valid<E>(d: Deque<E>) {
    L.Valid(d.dList)
  }

  /** The deque's contents, front first. */
  function Elements<E>(d: Deque<E>): seq<E>
    requires Valid(d)
  {
    L.Elements(d.dList)
  }

  method New<E>() returns (d: Deque<E>)
    ensures Valid(d) && Elements(d) == []
  {
    var l := L.New();
    d := Deque(l);
  }

  function Size<E>(d: Deque<E>): (n: int)
    requires Valid(d)
    ensures n == |Elements(d)|
  {
    L.Size(d.dList)
  }

  function IsEmpty<E>(d: Deque<E>): (b: bool)
    requires Valid(d)
    ensures b <==> Elements(d) == []
  {
    L.IsEmpty(d.dList)
  }

  function First<E>(d: Deque<E>): (r: Option<E>)
    requires Valid(d)
    ensures Elements(d) == [] ==> r == None
    ensures Elements(d) != [] ==> r == Some(Elements(d)[0])
  {
    L.First(d.dList)
  }

  function Last<E>(d: Deque<E>): (r: Option<E>)
    requires Valid(d)
    ensures Elements(d) == [] ==> r == None
    ensures Elements(d) != [] ==> r == Some(Elements(d)[|Elements(d)| - 1])
  {
    L.Last(d.dList)
  }

  function AddFirst<E>(d: Deque<E>, e: E): (r: Deque<E>)
    requires Valid(d)
    ensures Valid(r) && Elements(r) == [e] + Elements(d)
  {
    Deque(L.AddFirst(d.dList, e))
  }

  function AddLast<E>(d: Deque<E>, e: E): (r: Deque<E>)
    requires Valid(d)
    ensures Valid(r) && Elements(r) == Elements(d) + [e]
  {
    Deque(L.AddLast(d.dList, e))
  }

  function RemoveFirst<E>(d: Deque<E>): (r: (Deque<E>, Option<E>))
    requires Valid(d)
    ensures Valid(r.0)
    ensures Elements(d) == [] ==> r == (d, None)
    ensures Elements(d) != [] ==> r.1 == Some(Elements(d)[0]) && Elements(r.0) == Elements(d)[1..]
  {
    var (l, e) := L.RemoveFirst(d.dList);
    (Deque(l), e)
  }

  function RemoveLast<E>(d: Deque<E>): (r: (Deque<E>, Option<E>))
    requires Valid(d)
    ensures Valid(r.0)
    ensures Elements(d) == [] ==> r == (d, None)
    ensures Elements(d) != [] ==>
              && r.1 == Some(Elements(d)[|Elements(d)| - 1])
              && Elements(r.0) == Elements(d)[..|Elements(d)| - 1]
  {
    var (l, e) := L.RemoveLast(d.dList);
    (Deque(l), e)
  }

  /** `removeFirst` right after `addFirst(e)` returns `e` and restores the
      contents; likewise at the back. */
  lemma AddThenRemove<E>(d: Deque<E>, e: E)
    requires Valid(d)
    ensures var (d1, x1) := RemoveFirst(AddFirst(d, e)); x1 == Some(e) && Elements(d1) == Elements(d)
    ensures var (d2, x2) := RemoveLast(AddLast(d, e)); x2 == Some(e) && Elements(d2) == Elements(d)
  {
    assert ([e] + Elements(d))[1..] == Elements(d);
    assert (Elements(d) + [e])[..|Elements(d)|] == Elements(d);
  }
}
