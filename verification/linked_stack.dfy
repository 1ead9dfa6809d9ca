/** stack/LinkedStack.java: a stack adapter over SinglyLinkedList whose head
    is the top of the stack. */
module LinkedStack {
  import opened Common
  import L = SinglyLinkedList

  datatype Stack<E> = Stack(list: L.List<E>)

  predicate Valid<E>(s: Stack<E>) {
    L.Valid(s.list)
  }

  /** The stack's contents, top first. */
  function Elements<E>(s: Stack<E>): seq<E>
    requires Valid(s)
  {
    L.Elements(s.list)
  }

  method New<E>() returns (s: Stack<E>)
    ensures Valid(s) && Elements(s) == []
  {
    var l := L.New();
    s := Stack(l);
  }

  function Size<E>(s: Stack<E>): (n: int)
    requires Valid(s)
    ensures n == |Elements(s)|
  {
    L.Size(s.list)
  }

  function IsEmpty<E>(s: Stack<E>): (b: bool)
    requires Valid(s)
    ensures b <==> Size(s) == 0
  {
    L.IsEmpty(s.list)
  }

  /** `push(e)` is `addFirst(e)`. */
  function Push<E>(s: Stack<E>, e: E): (r: Stack<E>)
    requires Valid(s)
    ensures Valid(r) && Elements(r) == [e] + Elements(s)
  {
    Stack(L.AddFirst(s.list, e))
  }

  /** `pop()` is `removeFirst()`: null on an empty stack. */
  function Pop<E>(s: Stack<E>): (r: (Stack<E>, Option<E>))
    requires Valid(s)
    ensures Valid(r.0)
    ensures Elements(s) == [] ==> r == (s, None)
    ensures Elements(s) != [] ==> r.1 == Some(Elements(s)[0]) && Elements(r.0) == Elements(s)[1..]
  {
    var (l, e) := L.RemoveFirst(s.list);
    (Stack(l), e)
  }

  /** `top()` is `first()`: null on an empty stack. */
  function Top<E>(s: Stack<E>): (r: Option<E>)
    requires Valid(s)
    ensures Elements(s) == [] ==> r == None
    ensures Elements(s) != [] ==> r == Some(Elements(s)[0])
  {
    L.First(s.list)
  }

  /** LIFO: `pop` right after `push(e)` returns `e` and leaves the contents the
      stack had before the push. */
  lemma PushThenPop<E>(s: Stack<E>, e: E)
    requires Valid(s)
    ensures var (s', x) := Pop(Push(s, e)); x == Some(e) && Elements(s') == Elements(s)
  {
    assert ([e] + Elements(s))[1..] == Elements(s);
  }
}
