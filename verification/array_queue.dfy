/** queue/ArrayQueue.java: a bounded FIFO queue over a circular array whose
    length is one more than the capacity, so that `f == r` means empty. */
module ArrayQueue {
  import opened Common
  import Ring

  /** `element` is the backing array, `f` the front slot, `r` the slot after
      the last element. */
  datatype Queue<E> = Queue(element: seq<Option<E>>, f: int, r: int)

  /** The slot holding the element at offset `k` from the front. */
  function Idx<E>(q: Queue<E>, k: int): int
    requires 0 <= q.f < |q.element| && 0 <= k < |q.element|
  {
    if q.f + k < |q.element| then q.f + k else q.f + k - |q.element|
  }

  /** Number of elements, without the wrap-around of `size()`. */
  function Count<E>(q: Queue<E>): int {
    if q.r >= q.f then q.r - q.f else |q.element| + q.r - q.f
  }

  /** The class invariant: the `Count` slots from `f` onwards hold the elements,
      every other slot is null. */
  predicate Valid<E>(q: Queue<E>) {
    && 0 <= q.f < |q.element|
    && 0 <= q.r < |q.element|
    && forall k :: 0 <= k < |q.element| ==> (q.element[Idx(q, k)].Some? <==> k < Count(q))
  }

  /** The queue's contents, front first. */
  function Elements<E>(q: Queue<E>): (s: seq<E>)
    requires Valid(q)
    ensures |s| == Count(q)
  {
    seq(Count(q), k requires 0 <= k < Count(q) && Valid(q) => q.element[Idx(q, k)].value)
  }

  /** `new ArrayQueue(cap)`: the array has `cap + 1` slots. Below -1 the
      allocation throws; `cap == -1` builds a queue with no slot at all, which
      is not valid (its `size()` would divide by zero). */
  method New<E>(cap: int) returns (made: Outcome<Queue<E>>)
    ensures cap < -1 <==> made == Throws(NegativeArraySize)
    ensures made.Ok? ==> |made.value.element| == cap + 1 && made.value.f == made.value.r == 0
    ensures made.Ok? ==> (Valid(made.value) <==> 0 <= cap)
    ensures 0 <= cap ==> made.Ok? && Elements(made.value) == []
  {
    if cap < -1 {
      made := Throws(NegativeArraySize);
    } else {
      made := Ok(Queue(seq(cap + 1, _ => None), 0, 0));
    }
  }

  /** `size()` is `(len + r - f) % len`: the number of elements. */
  function Size<E>(q: Queue<E>): (n: int)
    requires Valid(q)
    ensures n == |Elements(q)|
  {
    Ring.ModOnce(|q.element| + q.r - q.f, |q.element|);
    (|q.element| + q.r - q.f) % |q.element|
  }

  /** `isEmpty()` is `r == f`. */
  function IsEmpty<E>(q: Queue<E>): (b: bool)
    requires Valid(q)
    ensures b <==> Elements(q) == []
  {
    q.r == q.f
  }

  /** `first()`: the front element, or null when empty; the state is unchanged. */
  function First<E>(q: Queue<E>): (e: Option<E>)
    requires Valid(q)
    ensures Elements(q) == [] ==> e == None
    ensures Elements(q) != [] ==> e == Some(Elements(q)[0])
  {
    if IsEmpty(q) then None
    else
      assert Idx(q, 0) == q.f;
      q.element[q.f]
  }

  /** `enqueue(e)`: IllegalStateException when `size() == len - 1`, otherwise
      `e` is written at `r` and `r` advances modulo `len`. */
  function Enqueue<E>(q: Queue<E>, e: E): (res: Outcome<Queue<E>>)
    requires Valid(q)
    ensures res.Throws? <==> |Elements(q)| == |q.element| - 1
    ensures res.Throws? ==> res.error == IllegalState
    ensures res.Ok? ==> Valid(res.value) && |res.value.element| == |q.element|
                        && Elements(res.value) == Elements(q) + [e]
  {
    if Size(q) == |q.element| - 1 then Throws(IllegalState)
    else
      EnqueueKeeps(q, e);
      Ok(Queue(q.element[q.r := Some(e)], q.f, (q.r + 1) % |q.element|))
  }

  /** Writing `e` at `r` in a non-full queue and advancing `r` puts `e`
      behind the elements. */
  lemma EnqueueKeeps<E>(q: Queue<E>, e: E)
    requires Valid(q) && Count(q) < |q.element| - 1
    ensures Valid(Queue(q.element[q.r := Some(e)], q.f, (q.r + 1) % |q.element|))
    ensures Elements(Queue(q.element[q.r := Some(e)], q.f, (q.r + 1) % |q.element|)) == Elements(q) + [e]
  {
    var len := |q.element|;
    Ring.ModOnce(q.r + 1, len);
    var q' := Queue(q.element[q.r := Some(e)], q.f, (q.r + 1) % len);
    assert Count(q') == Count(q) + 1;
    assert Idx(q, Count(q)) == q.r;
    assert forall k :: 0 <= k < len ==> Idx(q', k) == Idx(q, k);
    assert forall k :: 0 <= k < len && k != Count(q) ==> Idx(q, k) != q.r;
    assert Valid(q');
    assert Elements(q') == Elements(q) + [e];
  }

  /** `dequeue()`: null when empty, else the front element; its slot is cleared
      and `f` advances modulo `len`. */
  function Dequeue<E>(q: Queue<E>): (res: (Queue<E>, Option<E>))
    requires Valid(q)
    ensures Valid(res.0) && |res.0.element| == |q.element|
    ensures Elements(q) == [] ==> res == (q, None)
    ensures Elements(q) != [] ==> res.1 == Some(Elements(q)[0]) && Elements(res.0) == Elements(q)[1..]
  {
    if IsEmpty(q) then (q, None)
    else
      DequeueKeeps(q);
      (Queue(q.element[q.f := None], (q.f + 1) % |q.element|, q.r), q.element[q.f])
  }

  /** Clearing the front slot of a non-empty queue and advancing `f` drops
      its first element. */
  lemma DequeueKeeps<E>(q: Queue<E>)
    requires Valid(q) && Count(q) > 0
    ensures q.element[q.f] == Some(Elements(q)[0])
    ensures Valid(Queue(q.element[q.f := None], (q.f + 1) % |q.element|, q.r))
    ensures Elements(Queue(q.element[q.f := None], (q.f + 1) % |q.element|, q.r)) == Elements(q)[1..]
  {
    var len := |q.element|;
    Ring.ModOnce(q.f + 1, len);
    var q' := Queue(q.element[q.f := None], (q.f + 1) % len, q.r);
    assert Idx(q, 0) == q.f;
    assert Count(q') == Count(q) - 1;
    assert forall k :: 0 <= k < len - 1 ==> Idx(q', k) == Idx(q, k + 1);
    assert Idx(q', len - 1) == q.f;
    assert forall k :: 0 < k < len ==> Idx(q, k) != q.f;
    assert Valid(q');
    assert Elements(q') == Elements(q)[1..];
  }

  /** FIFO: on a queue holding `s`, enqueueing `e` and then dequeueing |s| + 1
      times yields `s` followed by `e` (stated one step at a time: what comes
      out first is what went in first). */
  lemma EnqueueThenDequeue<E>(q: Queue<E>, e: E)
    requires Valid(q) && |Elements(q)| < |q.element| - 1
    ensures Enqueue(q, e).Ok?
    ensures var d := Dequeue(Enqueue(q, e).value);
            && (Elements(q) == [] ==> d.1 == Some(e) && Elements(d.0) == [])
            && (Elements(q) != [] ==>
                  d.1 == Some(Elements(q)[0]) && Elements(d.0) == Elements(q)[1..] + [e])
  {
  }
}
