/** stack/ArrayStack.java: a fixed-capacity stack over an array, with `top`
    the index of the top element (-1 when empty). */
module ArrayStack {
  import opened Common

  datatype Stack<E> = Stack(data: seq<Option<E>>, top: int)

  /** The class invariant: slots `0..top` hold the elements, the rest are null. */
  predicate Valid<E>(s: Stack<E>) {
    && -1 <= s.top < |s.data|
    && AllPresent(s.data[..s.top + 1])
    && AllNull(s.data[s.top + 1..])
  }

  /** The stack's contents, bottom first. */
  function Elements<E>(s: Stack<E>): seq<E>
    requires Valid(s)
  {
    Values(s.data[..s.top + 1])
  }

  function Capacity<E>(s: Stack<E>): nat {
    |s.data|
  }

  /** `new ArrayStack(cap)`; a negative capacity throws when the array is
      allocated. */
  method New<E>(cap: int) returns (r: Outcome<Stack<E>>)
    ensures cap < 0 <==> r == Throws(NegativeArraySize)
    ensures r.Ok? ==> Valid(r.value) && Elements(r.value) == [] && Capacity(r.value) == cap
  {
    if cap < 0 {
      r := Throws(NegativeArraySize);
    } else {
      r := Ok(Stack(seq(cap, _ => None), -1));
    }
  }

  function Size<E>(s: Stack<E>): (n: int)
    requires Valid(s)
    ensures n == |Elements(s)|
  {
    s.top + 1
  }

  function IsEmpty<E>(s: Stack<E>): (b: bool)
    requires Valid(s)
    ensures b <==> Elements(s) == []
  {
    s.top <= -1
  }

  /** `pop`: null on an empty stack, else the top element, whose slot is cleared. */
  function Pop<E>(s: Stack<E>): (r: (Stack<E>, Option<E>))
    requires Valid(s)
    ensures Valid(r.0) && Capacity(r.0) == Capacity(s)
    ensures Elements(s) == [] ==> r == (s, None)
    ensures Elements(s) != [] ==>
              && r.1 == Some(Elements(s)[|Elements(s)| - 1])
              && Elements(r.0) == Elements(s)[..|Elements(s)| - 1]
  {
    if IsEmpty(s) then (s, None)
    else
      var e := s.data[s.top];
      var s' := Stack(s.data[s.top := None], s.top - 1);
      assert s'.data[..s'.top + 1] == s.data[..s.top];
      assert s'.data[s'.top + 1..] == [None] + s.data[s.top + 1..];
      (s', e)
  }

  /** `push`: IllegalStateException("overflow") when full, else `e` goes on top. */
  function Push<E>(s: Stack<E>, e: E): (r: Outcome<Stack<E>>)
    requires Valid(s)
    ensures r.Throws? <==> |Elements(s)| == Capacity(s)
    ensures r.Throws? ==> r.error == IllegalState
    ensures r.Ok? ==> Valid(r.value) && Capacity(r.value) == Capacity(s)
                      && Elements(r.value) == Elements(s) + [e]
  {
    if Size(s) == Capacity(s) then Throws(IllegalState)
    else
      var s' := Stack(s.data[s.top + 1 := Some(e)], s.top + 1);
      assert s'.data[..s'.top + 1] == s.data[..s.top + 1] + [Some(e)];
      assert s'.data[s'.top + 1..] == s.data[s.top + 2..];
      Ok(s')
  }

  /** `top`: the top element without removing it, or null when empty. */
  function Top<E>(s: Stack<E>): (r: Option<E>)
    requires Valid(s)
    ensures Elements(s) == [] ==> r == None
    ensures Elements(s) != [] ==> r == Some(Elements(s)[|Elements(s)| - 1])
  {
    if IsEmpty(s) then None
    else s.data[s.top]
  }

  /** `pop` right after a successful `push(e)` returns `e` and gives back the
      very same array and index. */
  lemma PushThenPop<E>(s: Stack<E>, e: E)
    requires Valid(s) && |Elements(s)| < Capacity(s)
    ensures Push(s, e).Ok?
    ensures Pop(Push(s, e).value) == (s, Some(e))
  {
    var s' := Push(s, e).value;
    assert s'.data[s.top + 1 := None] == s.data;
  }
}
