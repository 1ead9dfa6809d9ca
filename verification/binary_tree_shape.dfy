/** The abstract binary trees that the linked positional tree of
    tree/LinkedBinaryTree.java stands for. Each node carries the address of
    the Java node that holds it, so that positions can be named. */
module BinaryTreeShape {
  import opened Common

  datatype Shape<E> = Nil | Node(left: Shape<E>, id: Ref, element: E, right: Shape<E>)

  /** The address of the topmost node, or null for the empty tree. */
  function Top<E>(v: Shape<E>): Option<Ref> {
    if v.Nil? then None else Some(v.id)
  }

  /** The addresses of the nodes of `v`. */
  function Ids<E>(v: Shape<E>): set<Ref> {
    match v
    case Nil => {}
    case Node(l, id, _, r) => Ids(l) + {id} + Ids(r)
  }

  /** The number of nodes of `v`. */
  function Count<E>(v: Shape<E>): nat {
    match v
    case Nil => 0
    case Node(l, _, _, r) => Count(l) + 1 + Count(r)
  }

  /** No address is used by two nodes. */
  ghost predicate Unique<E>(v: Shape<E>) {
    match v
    case Nil => true
    case Node(l, id, _, r) =>
      Unique(l) && Unique(r) && id !in Ids(l) && id !in Ids(r) && Ids(l) !! Ids(r)
  }

  /** With distinct addresses, the count is the number of addresses. */
  lemma {:induction false} UniqueCount<E>(v: Shape<E>)
    requires Unique(v)
    ensures |Ids(v)| == Count(v)
  {
    if v.Node? {
      UniqueCount(v.left);
      UniqueCount(v.right);
    }
  }

  /** The nodes in in-order: left subtree, node, right subtree. */
  function InOrder<E>(v: Shape<E>): (s: seq<Ref>)
    ensures |s| == Count(v)
  {
    match v
    case Nil => []
    case Node(l, id, _, r) => InOrder(l) + [id] + InOrder(r)
  }

  /** The in-order sequence lists every node of `v` exactly once. */
  lemma {:induction false} InOrderIds<E>(v: Shape<E>)
    requires Unique(v)
    ensures forall x :: x in InOrder(v) <==> x in Ids(v)
    ensures Distinct(InOrder(v))
  {
    if v.Node? {
      InOrderIds(v.left);
      InOrderIds(v.right);
      var a := InOrder(v.left);
      var b := InOrder(v.right);
      var s := a + [v.id] + b;
      forall i, j | 0 <= i < j < |s| ensures s[i] != s[j] {
        if j < |a| {
        } else if i < |a| && j == |a| {
          assert s[i] in a;
        } else if i < |a| {
          assert s[i] in a && s[j] == b[j - |a| - 1];
        } else if i == |a| {
          assert s[j] == b[j - |a| - 1];
        } else {
          assert s[i] == b[i - |a| - 1] && s[j] == b[j - |a| - 1];
        }
      }
    }
  }

  /** The subtree whose top node is `x`, or the empty tree when `x` is not
      in `v`. */
  function Sub<E>(v: Shape<E>, x: Ref): Shape<E> {
    match v
    case Nil => Nil
    case Node(l, id, _, r) =>
      if x == id then v else if x in Ids(l) then Sub(l, x) else Sub(r, x)
  }

  /** A node's subtree is topped by that node and lies within the tree. */
  lemma {:induction false} SubTop<E>(v: Shape<E>, x: Ref)
    requires x in Ids(v)
    ensures Sub(v, x).Node? && Sub(v, x).id == x
    ensures Ids(Sub(v, x)) <= Ids(v)
  {
    if x != v.id {
      if x in Ids(v.left) {
        SubTop(v.left, x);
      } else {
        SubTop(v.right, x);
      }
    }
  }

  /** A subtree of a tree with distinct addresses has distinct addresses. */
  lemma {:induction false} SubUnique<E>(v: Shape<E>, x: Ref)
    requires Unique(v) && x in Ids(v)
    ensures Unique(Sub(v, x))
  {
    if x != v.id {
      if x in Ids(v.left) {
        SubUnique(v.left, x);
      } else {
        SubUnique(v.right, x);
      }
    }
  }

  /** The subtree of a child is the child's side of its parent's subtree. */
  lemma {:induction false} SubChild<E>(v: Shape<E>, x: Ref)
    requires Unique(v) && x in Ids(v)
    ensures var w := Sub(v, x);
      w.Node? && (w.left.Node? ==> Sub(v, w.left.id) == w.left)
      && (w.right.Node? ==> Sub(v, w.right.id) == w.right)
  {
    SubTop(v, x);
    if x != v.id {
      if x in Ids(v.left) {
        SubChild(v.left, x);
        SubTop(v.left, x);
      } else {
        SubChild(v.right, x);
        SubTop(v.right, x);
      }
    }
  }

  /** The subtree topped by the node `n` refers to, empty for null. */
  function At<E>(v: Shape<E>, n: Option<Ref>): Shape<E> {
    if n.None? then Nil else Sub(v, n.value)
  }

  /** The right subtree, empty for the empty tree. */
  function RightSub<E>(w: Shape<E>): Shape<E> {
    if w.Nil? then Nil else w.right
  }

  /** The parent of `x` in `v`, where `v` hangs below `up`. */
  function Parent<E>(v: Shape<E>, up: Option<Ref>, x: Ref): Option<Ref> {
    match v
    case Nil => None
    case Node(l, id, _, r) =>
      if x == id then up else if x in Ids(l) then Parent(l, Some(id), x) else Parent(r, Some(id), x)
  }

  /** The number of parent steps from `x` up to the top of `v`. */
  function Depth<E>(v: Shape<E>, x: Ref): nat
    requires x in Ids(v)
  {
    if x == v.id then 0 else if x in Ids(v.left) then 1 + Depth(v.left, x) else 1 + Depth(v.right, x)
  }

  /** The height of tree/Tree.java: 0 for a leaf, otherwise one more than
      the tallest child. The empty tree also gets 0. */
  function Height<E>(v: Shape<E>): nat {
    match v
    case Nil => 0
    case Node(l, _, _, r) =>
      var hl := if l.Nil? then 0 else 1 + Height(l);
      var hr := if r.Nil? then 0 else 1 + Height(r);
      if hl < hr then hr else hl
  }

  /** `v` with the subtree topped by `x` replaced by `w`. */
  function Put<E>(v: Shape<E>, x: Ref, w: Shape<E>): Shape<E> {
    match v
    case Nil => Nil
    case Node(l, id, e, r) =>
      if x == id then w
      else if x in Ids(l) then Node(Put(l, x, w), id, e, r)
      else Node(l, id, e, Put(r, x, w))
  }

  /** After a replacement at `x`, the subtree at `x` is the replacement. */
  lemma {:induction false} PutSub<E>(v: Shape<E>, x: Ref, w: Shape<E>)
    requires Unique(v) && x in Ids(v) && w.Node? && w.id == x
    ensures Sub(Put(v, x, w), x) == w
  {
    if x != v.id {
      if x in Ids(v.left) {
        PutSub(v.left, x, w);
        PutIds(v.left, x, w);
      } else {
        PutSub(v.right, x, w);
      }
    }
  }

  /** The subtree `s` with a new leaf `c` holding `e` as its left (or
      right) child. */
  function Grafted<E>(s: Shape<E>, c: Ref, e: E, left: bool): (w: Shape<E>)
    requires s.Node?
  {
    var leaf := Node(Nil, c, e, Nil);
    if left then Node(leaf, s.id, s.element, s.right) else Node(s.left, s.id, s.element, leaf)
  }

  /** A new leaf in the empty child slot of a node comes just before the
      node's subtree (left) or just after it (right) in in-order, and adds
      just its own address. */
  lemma GrowInOrder<E>(s: Shape<E>, c: Ref, e: E, left: bool)
    requires s.Node? && if left then s.left == Nil else s.right == Nil
    ensures InOrder(Grafted(s, c, e, left)) == if left then [c] + InOrder(s) else InOrder(s) + [c]
    ensures Ids(Grafted(s, c, e, left)) == Ids(s) + {c}
    ensures Unique(s) && c !in Ids(s) ==> Unique(Grafted(s, c, e, left))
  {
    assert InOrder(Node(Nil, c, e, Nil)) == [c];
  }

  /** The nodes a replacement at `x` leaves alone: all but those of the
      subtree topped by `x`. */
  function Outside<E>(v: Shape<E>, x: Ref): set<Ref> {
    Ids(v) - Ids(Sub(v, x))
  }

  /** Replacing the subtree at `x` swaps its nodes for those of `w`. */
  lemma {:induction false} PutIds<E>(v: Shape<E>, x: Ref, w: Shape<E>)
    requires Unique(v) && x in Ids(v)
    ensures Ids(Put(v, x, w)) == Outside(v, x) + Ids(w)
    ensures Count(Put(v, x, w)) == Count(v) - Count(Sub(v, x)) + Count(w)
    decreases v, 1
  {
    PutCount(v, x, w);
    if x != v.id {
      if x in Ids(v.left) {
        PutIdsLeft(v, x, w);
      } else {
        PutIdsRight(v, x, w);
      }
    }
  }

  /** `PutIds` for a replacement in the left subtree; the root and the
      right subtree stay. */
  lemma {:induction false} PutIdsLeft<E>(v: Shape<E>, x: Ref, w: Shape<E>)
    requires Unique(v) && v.Node? && x != v.id && x in Ids(v.left)
    ensures Ids(Put(v, x, w)) == Outside(v, x) + Ids(w)
    decreases v, 0
  {
    var l, r := v.left, v.right;
    PutIds(l, x, w);
    SubTop(l, x);
    assert Outside(v, x) == Outside(l, x) + {v.id} + Ids(r);
  }

  /** `PutIds` for a replacement in the right subtree. */
  lemma {:induction false} PutIdsRight<E>(v: Shape<E>, x: Ref, w: Shape<E>)
    requires Unique(v) && v.Node? && x != v.id && x !in Ids(v.left) && x in Ids(v.right)
    ensures Ids(Put(v, x, w)) == Outside(v, x) + Ids(w)
    decreases v, 0
  {
    var l, r := v.left, v.right;
    PutIds(r, x, w);
    SubTop(r, x);
    assert Outside(v, x) == Ids(l) + {v.id} + Outside(r, x);
  }

  /** Replacing the subtree at `x` changes the count by the difference. */
  lemma {:induction false} PutCount<E>(v: Shape<E>, x: Ref, w: Shape<E>)
    requires x in Ids(v)
    ensures Count(Put(v, x, w)) == Count(v) - Count(Sub(v, x)) + Count(w)
  {
    if x != v.id {
      if x in Ids(v.left) {
        PutCount(v.left, x, w);
      } else {
        PutCount(v.right, x, w);
      }
    }
  }

  /** Replacing a subtree by one whose addresses are new to the rest keeps
      the addresses distinct. */
  lemma {:induction false} PutUnique<E>(v: Shape<E>, x: Ref, w: Shape<E>)
    requires Unique(v) && x in Ids(v) && Unique(w) && Ids(w) !! Outside(v, x)
    ensures Unique(Put(v, x, w))
  {
    if x != v.id {
      SubTop(v, x);
      if x in Ids(v.left) {
        SubTop(v.left, x);
        PutUnique(v.left, x, w);
        PutIds(v.left, x, w);
      } else {
        SubTop(v.right, x);
        PutUnique(v.right, x, w);
        PutIds(v.right, x, w);
      }
    }
  }

  /** The in-order nodes that come before the subtree topped by `x`. */
  function Before<E>(v: Shape<E>, x: Ref): seq<Ref> {
    match v
    case Nil => []
    case Node(l, id, _, r) =>
      if x == id then [] else if x in Ids(l) then Before(l, x) else InOrder(l) + [id] + Before(r, x)
  }

  /** The in-order nodes that come after the subtree topped by `x`. */
  function After<E>(v: Shape<E>, x: Ref): seq<Ref> {
    match v
    case Nil => []
    case Node(l, id, _, r) =>
      if x == id then [] else if x in Ids(l) then After(l, x) + [id] + InOrder(r) else After(r, x)
  }

  /** A subtree is a contiguous run of the in-order sequence. */
  lemma {:induction false} InOrderAround<E>(v: Shape<E>, x: Ref)
    requires x in Ids(v)
    ensures InOrder(v) == Before(v, x) + InOrder(Sub(v, x)) + After(v, x)
  {
    if x != v.id {
      if x in Ids(v.left) {
        InOrderAround(v.left, x);
      } else {
        InOrderAround(v.right, x);
      }
    }
  }

  /** A replacement at `x` puts the in-order nodes of `w` where those of
      the old subtree were, and keeps the rest. */
  lemma {:induction false} PutInOrder<E>(v: Shape<E>, x: Ref, w: Shape<E>)
    requires x in Ids(v)
    ensures InOrder(Put(v, x, w)) == Before(v, x) + InOrder(w) + After(v, x)
    decreases v, 1
  {
    if x != v.id {
      if x in Ids(v.left) {
        PutInOrderLeft(v, x, w);
      } else {
        PutInOrderRight(v, x, w);
      }
    }
  }

  /** `PutInOrder` for a replacement in the left subtree. */
  lemma {:induction false} PutInOrderLeft<E>(v: Shape<E>, x: Ref, w: Shape<E>)
    requires v.Node? && x != v.id && x in Ids(v.left)
    ensures InOrder(Put(v, x, w)) == Before(v, x) + InOrder(w) + After(v, x)
    decreases v, 0
  {
    PutInOrder(v.left, x, w);
    AppendAssoc(Before(v.left, x), InOrder(w), After(v.left, x), [v.id] + InOrder(v.right));
  }

  /** `PutInOrder` for a replacement in the right subtree. */
  lemma {:induction false} PutInOrderRight<E>(v: Shape<E>, x: Ref, w: Shape<E>)
    requires v.Node? && x != v.id && x !in Ids(v.left) && x in Ids(v.right)
    ensures InOrder(Put(v, x, w)) == Before(v, x) + InOrder(w) + After(v, x)
    decreases v, 0
  {
    PutInOrder(v.right, x, w);
    PrependAssoc(InOrder(v.left) + [v.id], Before(v.right, x), InOrder(w), After(v.right, x));
  }

  /** Regrouping a concatenation of four sequences. */
  lemma AppendAssoc<T>(a: seq<T>, b: seq<T>, c: seq<T>, d: seq<T>)
    ensures (a + b + c) + d == a + b + (c + d)
  {
  }

  lemma PrependAssoc<T>(d: seq<T>, a: seq<T>, b: seq<T>, c: seq<T>)
    ensures d + (a + b + c) == (d + a) + b + c
  {
  }

  /** `s` with every occurrence of `x` dropped. */
  function Without(s: seq<Ref>, x: Ref): (r: seq<Ref>)
    ensures x !in r && |r| <= |s|
    ensures forall y :: y in r <==> y in s && y != x
  {
    if s == [] then [] else (if s[0] == x then [] else [s[0]]) + Without(s[1..], x)
  }

  lemma {:induction false} WithoutConcat(a: seq<Ref>, b: seq<Ref>, x: Ref)
    ensures Without(a + b, x) == Without(a, x) + Without(b, x)
  {
    if a != [] {
      assert (a + b)[0] == a[0] && (a + b)[1..] == a[1..] + b;
      WithoutConcat(a[1..], b, x);
      var h := if a[0] == x then [] else [a[0]];
      assert Without(a + b, x) == h + Without((a + b)[1..], x);
      assert Without(a, x) == h + Without(a[1..], x);
      assert h + (Without(a[1..], x) + Without(b, x)) == (h + Without(a[1..], x)) + Without(b, x);
    } else {
      assert a + b == b;
    }
  }

  lemma {:induction false} WithoutAbsent(s: seq<Ref>, x: Ref)
    requires x !in s
    ensures Without(s, x) == s
  {
    if s != [] {
      WithoutAbsent(s[1..], x);
    }
  }

  /** Dropping a node that occurs once, between `a` and `b`, closes the gap. */
  lemma WithoutOnce(a: seq<Ref>, x: Ref, b: seq<Ref>)
    requires Distinct(a + [x] + b)
    ensures Without(a + [x] + b, x) == a + b
  {
    OnceApart(a, x, b);
    assert Without([x], x) == [] by {
      assert [x][1..] == [];
    }
    calc {
      Without(a + [x] + b, x);
      { WithoutConcat(a + [x], b, x); }
      Without(a + [x], x) + Without(b, x);
      { WithoutConcat(a, [x], x); }
      Without(a, x) + [] + Without(b, x);
      { WithoutAbsent(a, x); WithoutAbsent(b, x); }
      a + [] + b;
    }
    assert a + [] + b == a + b;
  }

  /** In a distinct sequence `a + [x] + b`, `x` occurs in neither `a` nor `b`. */
  lemma OnceApart(a: seq<Ref>, x: Ref, b: seq<Ref>)
    requires Distinct(a + [x] + b)
    ensures x !in a && x !in b
  {
    var s := a + [x] + b;
    forall i | 0 <= i < |a| ensures a[i] != x {
      assert s[i] == a[i] && s[|a|] == x;
    }
    forall i | 0 <= i < |b| ensures b[i] != x {
      assert s[|a| + 1 + i] == b[i] && s[|a|] == x;
    }
  }

  /** The child that takes the place of a node with at most one child. */
  function Promoted<E>(s: Shape<E>): Shape<E>
    requires s.Node?
  {
    if s.left.Node? then s.left else s.right
  }

  /** Splicing out a node with at most one child, by promoting that child,
      drops exactly that node from the in-order sequence. */
  lemma SpliceInOrder<E>(v: Shape<E>, p: Ref)
    requires Unique(v) && p in Ids(v)
    requires Sub(v, p).Node? && (Sub(v, p).left == Nil || Sub(v, p).right == Nil)
    ensures InOrder(Put(v, p, Promoted(Sub(v, p)))) == Without(InOrder(v), p)
  {
    var s := Sub(v, p);
    var c := Promoted(s);
    var a := Before(v, p);
    var b := After(v, p);
    assert InOrder(Put(v, p, c)) == a + InOrder(c) + b by {
      PutInOrder(v, p, c);
    }
    InOrderIds(v);
    InOrderAround(v, p);
    SubTop(v, p);
    PromotedInOrder(s);
    SpliceSeq(a, InOrder(s), b, p, InOrder(c), s.left.Node?);
  }

  /** Dropping `p` from a distinct sequence where it stands next to a run
      `c`. */
  lemma SpliceSeq(a: seq<Ref>, m: seq<Ref>, b: seq<Ref>, p: Ref, c: seq<Ref>, left: bool)
    requires Distinct(a + m + b)
    requires m == if left then c + [p] else [p] + c
    ensures Without(a + m + b, p) == a + c + b
  {
    if left {
      assert a + m + b == (a + c) + [p] + b;
      WithoutOnce(a + c, p, b);
    } else {
      assert a + m + b == a + [p] + (c + b);
      WithoutOnce(a, p, c + b);
    }
  }

  /** Splicing out a node with at most one child drops just that node. */
  lemma SpliceIds<E>(v: Shape<E>, p: Ref)
    requires Unique(v) && p in Ids(v)
    requires Sub(v, p).Node? && (Sub(v, p).left == Nil || Sub(v, p).right == Nil)
    ensures Ids(Put(v, p, Promoted(Sub(v, p)))) == Ids(v) - {p}
    ensures Count(Put(v, p, Promoted(Sub(v, p)))) == Count(v) - 1
  {
    var s := Sub(v, p);
    SubTop(v, p);
    SubUnique(v, p);
    assert Ids(s) == {p} + Ids(Promoted(s));
    PutIds(v, p, Promoted(s));
  }

  /** A node with at most one child sits next to that child's subtree in
      in-order. */
  lemma PromotedInOrder<E>(s: Shape<E>)
    requires s.Node? && (s.left == Nil || s.right == Nil)
    ensures InOrder(s) == if s.left.Node? then InOrder(Promoted(s)) + [s.id] else [s.id] + InOrder(Promoted(s))
  {
  }

  /** Replacing a leaf `p` by a node `p` with the subtrees `l` and `r`
      adds their nodes around `p` and keeps the rest. */
  lemma Graft<E>(v: Shape<E>, p: Ref, l: Shape<E>, r: Shape<E>)
    requires Unique(v) && p in Ids(v) && Count(Sub(v, p)) == 1
    ensures Sub(v, p).Node?
    ensures var w := Node(l, p, Sub(v, p).element, r);
      Ids(Put(v, p, w)) == Ids(v) + Ids(l) + Ids(r)
      && InOrder(Put(v, p, w)) == Before(v, p) + InOrder(l) + [p] + InOrder(r) + After(v, p)
      && Sub(Put(v, p, w), p) == w
  {
    SubTop(v, p);
    var w := Node(l, p, Sub(v, p).element, r);
    GraftIds(v, p, w);
    GraftInOrder(v, p, w);
    PutSub(v, p, w);
  }

  lemma GraftIds<E>(v: Shape<E>, p: Ref, w: Shape<E>)
    requires Unique(v) && p in Ids(v) && Count(Sub(v, p)) == 1 && w.Node? && w.id == p
    ensures Ids(Put(v, p, w)) == Ids(v) + Ids(w.left) + Ids(w.right)
  {
    SubTop(v, p);
    var s := Sub(v, p);
    assert Ids(s) == {p} by {
      assert s.left == Nil && s.right == Nil;
    }
    PutIds(v, p, w);
  }

  lemma GraftInOrder<E>(v: Shape<E>, p: Ref, w: Shape<E>)
    requires p in Ids(v) && w.Node? && w.id == p
    ensures InOrder(Put(v, p, w)) == Before(v, p) + InOrder(w.left) + [p] + InOrder(w.right) + After(v, p)
  {
    PutInOrder(v, p, w);
    assert InOrder(w) == InOrder(w.left) + [p] + InOrder(w.right);
    MiddleAssoc(Before(v, p), InOrder(w.left), [p], InOrder(w.right), After(v, p));
  }

  /** Regrouping a run of three sequences placed between two others. */
  lemma MiddleAssoc<T>(a: seq<T>, b: seq<T>, c: seq<T>, d: seq<T>, e: seq<T>)
    ensures a + (b + c + d) + e == a + b + c + d + e
  {
  }
}
