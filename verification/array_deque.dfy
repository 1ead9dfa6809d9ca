/** deque/ArrayDeque.java: a fixed-capacity double-ended queue over a circular
    array; the elements are the `size` slots starting at `f`, modulo the
    array length. */
module ArrayDeque {
  import opened Common
  import Ring

  datatype Deque<E> = Deque(elementData: seq<Option<E>>, f: int, size: int)

  /** The slot holding the element at offset `k` from the front. */
  function Idx<E>(d: Deque<E>, k: int): int
    requires 0 <= d.f < |d.elementData| && 0 <= k < |d.elementData|
  {
    if d.f + k < |d.elementData| then d.f + k else d.f + k - |d.elementData|
  }

  /** The class invariant: `0 <= size <= length`, the `size` slots from `f`
      hold the elements and all other slots are null. */
  predicate Valid<E>(d: Deque<E>) {
    && 0 <= d.size <= |d.elementData|
    && (|d.elementData| == 0 ==> d.f == 0)
    && (|d.elementData| > 0 ==>
          && 0 <= d.f < |d.elementData|
          && forall k :: 0 <= k < |d.elementData| ==>
                           (d.elementData[Idx(d, k)].Some? <==> k < d.size))
  }

  /** The deque's contents, front first. */
  function Elements<E>(d: Deque<E>): (s: seq<E>)
    requires Valid(d)
    ensures |s| == d.size
  {
    seq(d.size, k requires 0 <= k < d.size && Valid(d) => d.elementData[Idx(d, k)].value)
  }

  /** `new ArrayDeque(cap)`; a negative capacity throws when the array is
      allocated. */
  method New<E>(cap: int) returns (r: Outcome<Deque<E>>)
    ensures cap < 0 <==> r == Throws(NegativeArraySize)
    ensures r.Ok? ==> Valid(r.value) && |r.value.elementData| == cap && Elements(r.value) == []
  {
    if cap < 0 {
      r := Throws(NegativeArraySize);
    } else {
      r := Ok(Deque(seq(cap, _ => None), 0, 0));
    }
  }

  function Size<E>(d: Deque<E>): (n: int)
    requires Valid(d)
    ensures n == |Elements(d)|
  {
    d.size
  }

  function IsEmpty<E>(d: Deque<E>): (b: bool)
    requires Valid(d)
    ensures b <==> Elements(d) == []
  {
    d.size == 0
  }

  /** `first()`: the element at slot `f`, or null when empty. */
  function First<E>(d: Deque<E>): (e: Option<E>)
    requires Valid(d)
    ensures Elements(d) == [] ==> e == None
    ensures Elements(d) != [] ==> e == Some(Elements(d)[0])
  {
    if IsEmpty(d) then None
    else
      assert Idx(d, 0) == d.f;
      d.elementData[d.f]
  }

  /** `last()`: the element at slot `(f + size - 1) % length`, or null when empty. */
  function Last<E>(d: Deque<E>): (e: Option<E>)
    requires Valid(d)
    ensures Elements(d) == [] ==> e == None
    ensures Elements(d) != [] ==> e == Some(Elements(d)[d.size - 1])
  {
    if IsEmpty(d) then None
    else
      var len := |d.elementData|;
      Ring.ModOnce(d.f + d.size - 1, len);
      assert Idx(d, d.size - 1) == (d.f + d.size - 1) % len;
      d.elementData[(d.f + d.size - 1) % len]
  }

  /** `addFirst(e)`: IllegalStateException when full; otherwise `f` steps back
      to `(f - 1 + length) % length` and `e` is stored there. */
  function AddFirst<E>(d: Deque<E>, e: E): (r: Outcome<Deque<E>>)
    requires Valid(d)
    ensures r.Throws? <==> d.size == |d.elementData|
    ensures r.Throws? ==> r.error == IllegalState
    ensures r.Ok? ==> Valid(r.value) && |r.value.elementData| == |d.elementData|
                      && Elements(r.value) == [e] + Elements(d)
  {
    if d.size == |d.elementData| then Throws(IllegalState)
    else
      var len := |d.elementData|;
      var f' := (d.f - 1 + len) % len;
      AddFirstKeeps(d, e, f');
      Ok(Deque(d.elementData[f' := Some(e)], f', d.size + 1))
  }

  /** Storing `e` one slot before the front of a non-full deque puts it in
      front of the elements. */
  lemma AddFirstKeeps<E>(d: Deque<E>, e: E, f': int)
    requires Valid(d) && d.size < |d.elementData| && f' == (d.f - 1 + |d.elementData|) % |d.elementData|
    ensures 0 <= f' < |d.elementData|
    ensures Valid(Deque(d.elementData[f' := Some(e)], f', d.size + 1))
    ensures Elements(Deque(d.elementData[f' := Some(e)], f', d.size + 1)) == [e] + Elements(d)
  {
    var len := |d.elementData|;
    Ring.ModOnce(d.f - 1 + len, len);
    var d' := Deque(d.elementData[f' := Some(e)], f', d.size + 1);
    assert Idx(d', 0) == f';
    assert forall k :: 1 <= k < len ==> Idx(d', k) == Idx(d, k - 1);
    assert forall k :: 0 <= k < len - 1 ==> Idx(d, k) != f' by {
      assert Idx(d, len - 1) == f';
    }
    assert Valid(d');
    assert Elements(d') == [e] + Elements(d);
  }

  /** `addLast(e)`: IllegalStateException when full; otherwise `e` is stored at
      `(f + size) % length`. */
  function AddLast<E>(d: Deque<E>, e: E): (r: Outcome<Deque<E>>)
    requires Valid(d)
    ensures r.Throws? <==> d.size == |d.elementData|
    ensures r.Throws? ==> r.error == IllegalState
    ensures r.Ok? ==> Valid(r.value) && |r.value.elementData| == |d.elementData|
                      && Elements(r.value) == Elements(d) + [e]
  {
    if d.size == |d.elementData| then Throws(IllegalState)
    else
      var len := |d.elementData|;
      var idx := (d.f + d.size) % len;
      AddLastKeeps(d, e, idx);
      Ok(Deque(d.elementData[idx := Some(e)], d.f, d.size + 1))
  }

  /** Storing `e` in the slot after the back of a non-full deque puts it
      behind the elements. */
  lemma AddLastKeeps<E>(d: Deque<E>, e: E, idx: int)
    requires Valid(d) && d.size < |d.elementData| && idx == (d.f + d.size) % |d.elementData|
    ensures 0 <= idx < |d.elementData|
    ensures Valid(Deque(d.elementData[idx := Some(e)], d.f, d.size + 1))
    ensures Elements(Deque(d.elementData[idx := Some(e)], d.f, d.size + 1)) == Elements(d) + [e]
  {
    var len := |d.elementData|;
    Ring.ModOnce(d.f + d.size, len);
    var d' := Deque(d.elementData[idx := Some(e)], d.f, d.size + 1);
    assert Idx(d, d.size) == idx;
    assert forall k :: 0 <= k < len ==> Idx(d', k) == Idx(d, k);
    assert forall k :: 0 <= k < len && k != d.size ==> Idx(d, k) != idx;
    assert Valid(d');
    assert Elements(d') == Elements(d) + [e];
  }

  /** `removeFirst()`: null when empty, else the front element; its slot is
      cleared and `f` advances modulo the length. */
  function RemoveFirst<E>(d: Deque<E>): (r: (Deque<E>, Option<E>))
    requires Valid(d)
    ensures Valid(r.0) && |r.0.elementData| == |d.elementData|
    ensures Elements(d) == [] ==> r == (d, None)
    ensures Elements(d) != [] ==> r.1 == Some(Elements(d)[0]) && Elements(r.0) == Elements(d)[1..]
  {
    if IsEmpty(d) then (d, None)
    else
      var len := |d.elementData|;
      RemoveFirstKeeps(d);
      (Deque(d.elementData[d.f := None], (d.f + 1) % len, d.size - 1), d.elementData[d.f])
  }

  /** Clearing the front slot of a non-empty deque and advancing `f` drops
      its first element. */
  lemma RemoveFirstKeeps<E>(d: Deque<E>)
    requires Valid(d) && d.size > 0
    ensures d.elementData[d.f] == Some(Elements(d)[0])
    ensures Valid(Deque(d.elementData[d.f := None], (d.f + 1) % |d.elementData|, d.size - 1))
    ensures Elements(Deque(d.elementData[d.f := None], (d.f + 1) % |d.elementData|, d.size - 1)) == Elements(d)[1..]
  {
    var len := |d.elementData|;
    Ring.ModOnce(d.f + 1, len);
    var d' := Deque(d.elementData[d.f := None], (d.f + 1) % len, d.size - 1);
    assert Idx(d, 0) == d.f;
    assert forall k :: 0 <= k < len - 1 ==> Idx(d', k) == Idx(d, k + 1);
    assert Idx(d', len - 1) == d.f;
    assert forall k :: 0 < k < len ==> Idx(d, k) != d.f;
    assert Valid(d');
    assert Elements(d') == Elements(d)[1..];
  }

  /** `removeLast()`: null when empty, else the back element at
      `(f + size - 1) % length`, whose slot is cleared. */
  function RemoveLast<E>(d: Deque<E>): (r: (Deque<E>, Option<E>))
    requires Valid(d)
    ensures Valid(r.0) && |r.0.elementData| == |d.elementData|
    ensures Elements(d) == [] ==> r == (d, None)
    ensures Elements(d) != [] ==>
              && r.1 == Some(Elements(d)[d.size - 1])
              && Elements(r.0) == Elements(d)[..d.size - 1]
  {
    if IsEmpty(d) then (d, None)
    else
      var len := |d.elementData|;
      var idx := (d.f + d.size - 1) % len;
      RemoveLastKeeps(d, idx);
      (Deque(d.elementData[idx := None], d.f, d.size - 1), d.elementData[idx])
  }

  /** Clearing the back slot of a non-empty deque drops its last element. */
  lemma RemoveLastKeeps<E>(d: Deque<E>, idx: int)
    requires Valid(d) && d.size > 0 && idx == (d.f + d.size - 1) % |d.elementData|
    ensures 0 <= idx < |d.elementData| && d.elementData[idx] == Some(Elements(d)[d.size - 1])
    ensures Valid(Deque(d.elementData[idx := None], d.f, d.size - 1))
    ensures Elements(Deque(d.elementData[idx := None], d.f, d.size - 1)) == Elements(d)[..d.size - 1]
  {
    var len := |d.elementData|;
    Ring.ModOnce(d.f + d.size - 1, len);
    var d' := Deque(d.elementData[idx := None], d.f, d.size - 1);
    assert Idx(d, d.size - 1) == idx;
    assert forall k :: 0 <= k < len ==> Idx(d', k) == Idx(d, k);
    assert forall k :: 0 <= k < len && k != d.size - 1 ==> Idx(d, k) != idx;
    assert Valid(d');
    assert Elements(d') == Elements(d)[..d.size - 1];
  }
}
