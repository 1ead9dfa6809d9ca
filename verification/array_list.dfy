/** list/ArrayList.java: a dynamic array; `elementData[0..size)` holds the
    list, the remaining slots are null, and a full array is doubled on `add`. */
module ArrayList {
  import opened Common

  datatype List<E> = List(elementData: seq<Option<E>>, size: int)

  /** The class invariant: `size <= elementData.length`, the first `size` slots
      hold the elements and the rest are null. */
  predicate Valid<E>(l: List<E>) {
    && 0 <= l.size <= |l.elementData|
    && AllPresent(l.elementData[..l.size])
    && AllNull(l.elementData[l.size..])
  }

  /** The list's contents in index order. */
  function Elements<E>(l: List<E>): (s: seq<E>)
    requires Valid(l)
    ensures |s| == l.size
  {
    Values(l.elementData[..l.size])
  }

  /** `new ArrayList(capacity)`; the no-argument constructor uses 16. A
      negative capacity throws when the array is allocated. */
  method New<E>(capacity: int) returns (r: Outcome<List<E>>)
    ensures capacity < 0 <==> r == Throws(NegativeArraySize)
    ensures r.Ok? ==> Valid(r.value) && Elements(r.value) == [] && |r.value.elementData| == capacity
  {
    if capacity < 0 {
      r := Throws(NegativeArraySize);
    } else {
      r := Ok(List(seq(capacity, _ => None), 0));
    }
  }

  const CAPACITY := 16

  function Size<E>(l: List<E>): (n: int)
    requires Valid(l)
    ensures n == |Elements(l)|
  {
    l.size
  }

  function IsEmpty<E>(l: List<E>): (b: bool)
    requires Valid(l)
    ensures b <==> Elements(l) == []
  {
    l.size == 0
  }

  /** `checkElementIndex`: an index naming an existing element. */
  predicate IsElementIndex<E>(l: List<E>, i: int) {
    0 <= i < l.size
  }

  /** `checkPositionIndex`: an index where an element may be inserted. */
  predicate IsPositionIndex<E>(l: List<E>, i: int) {
    0 <= i <= l.size
  }

  /** `get(i)`: element `i`, or IndexOutOfBoundsException. */
  function Get<E>(l: List<E>, i: int): (r: Outcome<E>)
    requires Valid(l)
    ensures r.Ok? <==> 0 <= i < |Elements(l)|
    ensures r.Ok? ==> r.value == Elements(l)[i]
    ensures r.Throws? ==> r.error == IndexOutOfBounds
  {
    if !IsElementIndex(l, i) then Throws(IndexOutOfBounds)
    else Ok(l.elementData[i].value)
  }

  /** `set(i, e)`: replaces element `i` and returns the old one, or throws
      IndexOutOfBoundsException. */
  function Set<E>(l: List<E>, i: int, e: E): (r: Outcome<(List<E>, E)>)
    requires Valid(l)
    ensures r.Ok? <==> 0 <= i < |Elements(l)|
    ensures r.Throws? ==> r.error == IndexOutOfBounds
    ensures r.Ok? ==> && Valid(r.value.0)
                      && r.value.1 == Elements(l)[i]
                      && Elements(r.value.0) == Elements(l)[i := e]
                      && |r.value.0.elementData| == |l.elementData|
  {
    if !IsElementIndex(l, i) then Throws(IndexOutOfBounds)
    else
      var l' := List(l.elementData[i := Some(e)], l.size);
      assert l'.elementData[..l.size] == l.elementData[..l.size][i := Some(e)];
      assert l'.elementData[l.size..] == l.elementData[l.size..];
      Ok((l', l.elementData[i].value))
  }

  /** `resize(capacity)`: copies every slot of the old array into a new array
      of the given length. Allocating a negative length throws
      NegativeArraySizeException; otherwise `System.arraycopy` throws when
      the new array is shorter than the old one. */
  function Resize<E>(l: List<E>, capacity: int): (r: Outcome<List<E>>)
    requires Valid(l)
    ensures r.Ok? <==> capacity >= |l.elementData|
    ensures r.Throws? ==> r.error == (if capacity < 0 then NegativeArraySize else IndexOutOfBounds)
    ensures r.Ok? ==> Valid(r.value) && Elements(r.value) == Elements(l)
                      && |r.value.elementData| == capacity
                      && r.value.elementData[..|l.elementData|] == l.elementData
  {
    if capacity < 0 then Throws(NegativeArraySize)
    else if capacity < |l.elementData| then Throws(IndexOutOfBounds)
    else
      var l' := List(l.elementData + seq(capacity - |l.elementData|, _ => None), l.size);
      assert l'.elementData[..l.size] == l.elementData[..l.size];
      Ok(l')
  }

  /** The loop of `add`: moves `a[i..n)` one slot to the right, walking down
      from `n - 1`; slot `i` keeps its old value. */
  method ShiftRight<T>(a: seq<T>, i: int, n: int) returns (b: seq<T>)
    requires 0 <= i <= n < |a|
    ensures b == a[..i + 1] + a[i..n] + a[n + 1..]
  {
    b := a;
    var k := n - 1;
    while k >= i
      invariant i - 1 <= k <= n - 1
      invariant |b| == |a|
      invariant forall j :: 0 <= j <= k + 1 || n < j < |b| ==> b[j] == a[j]
      invariant forall j :: k + 2 <= j <= n ==> b[j] == a[j - 1]
      decreases k
    {
      b := b[k + 1 := b[k]];
      k := k - 1;
    }
  }

  /** The loop of `remove`: moves `a(i, n)` one slot to the left, walking up
      from `i`; slot `n - 1` keeps its old value. */
  method ShiftLeft<T>(a: seq<T>, i: int, n: int) returns (b: seq<T>)
    requires 0 <= i < n <= |a|
    ensures b == a[..i] + a[i + 1..n] + [a[n - 1]] + a[n..]
  {
    b := a;
    var k := i;
    while k < n - 1
      invariant i <= k <= n - 1
      invariant |b| == |a|
      invariant forall j :: 0 <= j < i || k <= j < |b| ==> b[j] == a[j]
      invariant forall j :: i <= j < k ==> b[j] == a[j + 1]
      decreases n - k
    {
      b := b[k := b[k + 1]];
      k := k + 1;
    }
  }

  /** `add(i, e)`: checks the position, doubles a full array, shifts
      `[i, size)` one slot to the right, stores `e` at `i` and grows `size`.
      With a zero-length array the doubling keeps length 0 and the store
      at index `i` throws. */
  method Add<E>(l: List<E>, i: int, e: E) returns (r: Outcome<List<E>>)
    requires Valid(l)
    ensures r.Ok? <==> 0 <= i <= |Elements(l)| && |l.elementData| > 0
    ensures r.Throws? ==> r.error == IndexOutOfBounds
    ensures r.Ok? ==> Valid(r.value) && Elements(r.value) == Elements(l)[..i] + [e] + Elements(l)[i..]
    ensures r.Ok? && l.size < |l.elementData| ==> |r.value.elementData| == |l.elementData|
    ensures r.Ok? && l.size == |l.elementData| ==> |r.value.elementData| == 2 * |l.elementData|
  {
    if !IsPositionIndex(l, i) {
      return Throws(IndexOutOfBounds);
    }
    var cur := l;
    if l.size == |l.elementData| {
      var grown := Resize(l, |l.elementData| * 2);
      cur := grown.value;
    }
    assert Valid(cur) && cur.size == l.size && cur.elementData[..l.size] == l.elementData[..l.size];
    if |cur.elementData| == 0 {
      // the loop below does nothing (size is 0) and `elementData[i] = e` is out of bounds
      return Throws(IndexOutOfBounds);
    }
    var shifted := ShiftRight(cur.elementData, i, l.size);
    var l' := List(shifted[i := Some(e)], l.size + 1);
    Inserted(cur, i, e, l');
    return Ok(l');
  }

  /** Storing `e` in the gap that shifting the slots `i .. size-1` one place
      up opened inserts `e` at index `i`. */
  lemma Inserted<E>(cur: List<E>, i: int, e: E, l': List<E>)
    requires Valid(cur) && 0 <= i <= cur.size < |cur.elementData|
    requires l' == List((cur.elementData[..i + 1] + cur.elementData[i..cur.size] + cur.elementData[cur.size + 1..])[i := Some(e)], cur.size + 1)
    ensures Valid(l') && Elements(l') == Elements(cur)[..i] + [e] + Elements(cur)[i..]
  {
    var a, n := cur.elementData, cur.size;
    assert l'.elementData == a[..i] + [Some(e)] + a[i..n] + a[n + 1..];
    assert l'.elementData[..n + 1] == a[..i] + [Some(e)] + a[i..n];
    assert l'.elementData[n + 1..] == a[n..][1..];
    assert a[..n] == a[..i] + a[i..n];
    ValuesAppend(a[..i], a[i..n]);
    ValuesAppend(a[..i], [Some(e)]);
    ValuesAppend(a[..i] + [Some(e)], a[i..n]);
  }

  /** `add(e)` and `addLast(e)`: insert at position `size`. */
  method AddLast<E>(l: List<E>, e: E) returns (r: Outcome<List<E>>)
    requires Valid(l)
    ensures r.Ok? <==> |l.elementData| > 0
    ensures r.Throws? ==> r.error == IndexOutOfBounds
    ensures r.Ok? ==> Valid(r.value) && Elements(r.value) == Elements(l) + [e]
  {
    r := Add(l, l.size, e);
    assert Elements(l)[..l.size] == Elements(l);
  }

  /** `addFirst(e)`: insert at position 0. */
  method AddFirst<E>(l: List<E>, e: E) returns (r: Outcome<List<E>>)
    requires Valid(l)
    ensures r.Ok? <==> |l.elementData| > 0
    ensures r.Throws? ==> r.error == IndexOutOfBounds
    ensures r.Ok? ==> Valid(r.value) && Elements(r.value) == [e] + Elements(l)
  {
    r := Add(l, 0, e);
  }

  /** `remove(i)`: checks the index, returns element `i`, shifts `(i, size)`
      one slot to the left, clears slot `size - 1` and shrinks `size`. */
  method Remove<E>(l: List<E>, i: int) returns (r: Outcome<(List<E>, E)>)
    requires Valid(l)
    ensures r.Ok? <==> 0 <= i < |Elements(l)|
    ensures r.Throws? ==> r.error == IndexOutOfBounds
    ensures r.Ok? ==> && Valid(r.value.0)
                      && r.value.1 == Elements(l)[i]
                      && Elements(r.value.0) == Elements(l)[..i] + Elements(l)[i + 1..]
                      && |r.value.0.elementData| == |l.elementData|
  {
    if !IsElementIndex(l, i) {
      return Throws(IndexOutOfBounds);
    }
    var temp := l.elementData[i].value;
    var shifted := ShiftLeft(l.elementData, i, l.size);
    var data := shifted[l.size - 1 := None];
    var l' := List(data, l.size - 1);
    assert l'.elementData[..l.size - 1] == l.elementData[..i] + l.elementData[i + 1..l.size];
    assert l'.elementData[l.size - 1..] == [None] + l.elementData[l.size..];
    assert l.elementData[..l.size] == l.elementData[..i] + [l.elementData[i]] + l.elementData[i + 1..l.size];
    ValuesAppend(l.elementData[..i], l.elementData[i + 1..l.size]);
    ValuesAppend(l.elementData[..i], [l.elementData[i]]);
    ValuesAppend(l.elementData[..i] + [l.elementData[i]], l.elementData[i + 1..l.size]);
    return Ok((l', temp));
  }

  /** `removeFirst()` is `remove(0)`: it throws on an empty list. */
  method RemoveFirst<E>(l: List<E>) returns (r: Outcome<(List<E>, E)>)
    requires Valid(l)
    ensures r.Throws? <==> Elements(l) == []
    ensures r.Throws? ==> r.error == IndexOutOfBounds
    ensures r.Ok? ==> Valid(r.value.0) && r.value.1 == Elements(l)[0]
                      && Elements(r.value.0) == Elements(l)[1..]
  {
    r := Remove(l, 0);
  }

  /** `removeLast()`: null on an empty list, else the last element, whose slot
      is cleared. */
  function RemoveLast<E>(l: List<E>): (r: (List<E>, Option<E>))
    requires Valid(l)
    ensures Valid(r.0) && |r.0.elementData| == |l.elementData|
    ensures Elements(l) == [] ==> r == (l, None)
    ensures Elements(l) != [] ==>
              && r.1 == Some(Elements(l)[l.size - 1])
              && Elements(r.0) == Elements(l)[..l.size - 1]
  {
    if IsEmpty(l) then (l, None)
    else
      var l' := List(l.elementData[l.size - 1 := None], l.size - 1);
      assert l'.elementData[..l.size - 1] == l.elementData[..l.size - 1];
      assert l'.elementData[l.size - 1..] == [None] + l.elementData[l.size..];
      (l', l.elementData[l.size - 1])
  }
}
