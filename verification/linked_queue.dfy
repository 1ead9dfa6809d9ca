/** queue/LinkedQueue.java: a FIFO queue adapter over SinglyLinkedList that
    enqueues at the tail and dequeues at the head. */
module LinkedQueue {
  import opened Common
  import L = SinglyLinkedList

  datatype Queue<E> = Queue(list: L.List<E>)

  predicate Valid<E>(q: Queue<E>) {
    L.Valid(q.list)
  }

  /** The queue's contents, front first. */
  function Elements<E>(q: Queue<E>): seq<E>
    requires Valid(q)
  {
    L.Elements(q.list)
  }

  method New<E>() returns (q: Queue<E>)
    ensures Valid(q) && Elements(q) == []
  {
    var l := L.New();
    q := Queue(l);
  }

  function Size<E>(q: Queue<E>): (n: int)
    requires Valid(q)
    ensures n == |Elements(q)|
  {
    L.Size(q.list)
  }

  function IsEmpty<E>(q: Queue<E>): (b: bool)
    requires Valid(q)
    ensures b <==> Size(q) == 0
  {
    L.IsEmpty(q.list)
  }

  /** `enqueue(e)` is `addLast(e)`. */
  function Enqueue<E>(q: Queue<E>, e: E): (r: Queue<E>)
    requires Valid(q)
    ensures Valid(r) && Elements(r) == Elements(q) + [e]
  {
    Queue(L.AddLast(q.list, e))
  }

  /** `dequeue()`: null when empty, else `removeFirst()`. */
  function Dequeue<E>(q: Queue<E>): (r: (Queue<E>, Option<E>))
    requires Valid(q)
    ensures Valid(r.0)
    ensures Elements(q) == [] ==> r == (q, None)
    ensures Elements(q) != [] ==> r.1 == Some(Elements(q)[0]) && Elements(r.0) == Elements(q)[1..]
  {
    if IsEmpty(q) then (q, None)
    else
      var (l, e) := L.RemoveFirst(q.list);
      (Queue(l), e)
  }

  /** `first()`: null when empty, else the front element; nothing changes. */
  function First<E>(q: Queue<E>): (r: Option<E>)
    requires Valid(q)
    ensures Elements(q) == [] ==> r == None
    ensures Elements(q) != [] ==> r == Some(Elements(q)[0])
  {
    if IsEmpty(q) then None else L.First(q.list)
  }

  /** FIFO: enqueueing `e` and then dequeueing gives the old front element (or
      `e` itself when the queue was empty), and `e` stays at the back. */
  lemma EnqueueThenDequeue<E>(q: Queue<E>, e: E)
    requires Valid(q)
    ensures var (q', x) := Dequeue(Enqueue(q, e));
            && (Elements(q) == [] ==> x == Some(e) && Elements(q') == [])
            && (Elements(q) != [] ==>
                  x == Some(Elements(q)[0]) && Elements(q') == Elements(q)[1..] + [e])
  {
    if Elements(q) != [] {
      assert (Elements(q) + [e])[1..] == Elements(q)[1..] + [e];
    }
  }
}
