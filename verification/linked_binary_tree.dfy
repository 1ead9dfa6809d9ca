/** tree/LinkedBinaryTree.java: a positional binary tree of linked nodes,
    each with parent, left and right references. Nodes live in an arena;
    positions are node addresses. `shape` is the abstraction witness, never
    read by an operation, and `free` is an address above every node in use.
    The default methods of tree/Tree.java and tree/BinaryTree.java are
    modelled here too, on the linked representation. */
module LinkedBinaryTree {
  import opened Common
  import opened BinaryTreeShape

  /** A Java node: in the tree with its element and links, or removed. The
      code marks a removed node by making it its own parent (line 160). */
  datatype Slot<E> = Live(element: E, parent: Option<Ref>, left: Option<Ref>, right: Option<Ref>) | Defunct

  datatype LinkedTree<E> = LinkedTree(heap: map<Ref, Slot<E>>, root: Option<Ref>, size: int,
                                      shape: Shape<E>, free: Ref)

  /** The arena holds `v`, hanging below `up`: every node of `v` is live
      with `v`'s element and with links to its parent and its children. */
  ghost predicate Represents<E>(h: map<Ref, Slot<E>>, v: Shape<E>, up: Option<Ref>) {
    match v
    case Nil => true
    case Node(l, id, e, r) =>
      id in h && h[id] == Live(e, up, Top(l), Top(r))
      && Represents(h, l, Some(id)) && Represents(h, r, Some(id))
  }

  /** The class invariant: the live nodes are exactly those of the shape,
      which the links spell out from `root`, and `size` counts them. */
  ghost predicate Valid<E>(t: LinkedTree<E>) {
    Unique(t.shape) && Represents(t.heap, t.shape, None)
    && t.root == Top(t.shape) && t.size == Count(t.shape)
    && forall k :: k in t.heap ==> k < t.free && (t.heap[k].Live? <==> k in Ids(t.shape))
  }

  // ---------------------------------------------------------------------
  // The arena and the shape

  /** An update leaves node `k` as it was. */
  ghost predicate Kept<E>(h: map<Ref, Slot<E>>, h2: map<Ref, Slot<E>>, k: Ref) {
    k in h ==> k in h2 && h2[k] == h[k]
  }

  /** Links of nodes of `v` that are left alone still spell `v`. */
  lemma {:induction false} RepresentsFrame<E>(h: map<Ref, Slot<E>>, h2: map<Ref, Slot<E>>, v: Shape<E>, up: Option<Ref>)
    requires Represents(h, v, up)
    requires forall k :: k in Ids(v) ==> Kept(h, h2, k)
    ensures Represents(h2, v, up)
  {
    if v.Node? {
      assert Kept(h, h2, v.id);
      RepresentsFrame(h, h2, v.left, Some(v.id));
      RepresentsFrame(h, h2, v.right, Some(v.id));
    }
  }

  /** What the arena holds for a node of the shape. */
  lemma {:induction false} RepresentsAt<E>(h: map<Ref, Slot<E>>, v: Shape<E>, up: Option<Ref>, x: Ref)
    requires Represents(h, v, up) && x in Ids(v)
    ensures Sub(v, x).Node? && Represents(h, Sub(v, x), Parent(v, up, x))
    ensures var w := Sub(v, x);
      x in h && h[x] == Live(w.element, Parent(v, up, x), Top(w.left), Top(w.right))
  {
    SubTop(v, x);
    if x != v.id {
      if x in Ids(v.left) {
        RepresentsAt(h, v.left, Some(v.id), x);
      } else {
        RepresentsAt(h, v.right, Some(v.id), x);
      }
    }
  }

  /** Giving the top node of `v` a new parent hangs `v` below it. */
  lemma Reparent<E>(h: map<Ref, Slot<E>>, h2: map<Ref, Slot<E>>, v: Shape<E>, up: Option<Ref>, up2: Option<Ref>)
    requires Represents(h, v, up) && Unique(v) && v.Node?
    requires v.id in h2 && h2[v.id] == h[v.id].(parent := up2)
    requires forall k :: k in Ids(v) && k != v.id ==> Kept(h, h2, k)
    ensures Represents(h2, v, up2)
  {
    RepresentsFrame(h, h2, v.left, Some(v.id));
    RepresentsFrame(h, h2, v.right, Some(v.id));
  }

  /** The child link of `slot` that pointed at `x` now points at `y`: the
      writes of lines 149-153. */
  function Relink<E>(slot: Slot<E>, x: Ref, y: Option<Ref>): Slot<E>
    requires slot.Live?
  {
    if slot.left == Some(x) then slot.(left := y) else slot.(right := y)
  }

  /** Inside `v`, every node but the top hangs below a node of `v`. */
  lemma {:induction false} ParentInside<E>(v: Shape<E>, up: Option<Ref>, x: Ref)
    requires Unique(v) && x in Ids(v) && x != v.id
    ensures Parent(v, up, x).Some?
    ensures var q := Parent(v, up, x).value;
      q in Ids(v) && q !in Ids(Sub(v, x))
      && Sub(v, q).Node? && (Sub(v, q).left == Sub(v, x) || Sub(v, q).right == Sub(v, x))
      && Depth(v, x) == Depth(v, q) + 1
  {
    SubTop(v, x);
    if x in Ids(v.left) {
      SubTop(v.left, x);
      if x != v.left.id {
        ParentInside(v.left, Some(v.id), x);
      }
    } else {
      SubTop(v.right, x);
      if x != v.right.id {
        ParentInside(v.right, Some(v.id), x);
      }
    }
  }

  /** The central step of every update: when the subtree at `x` is replaced
      by `w` (hung below `x`'s parent), the parent's link is redirected, and
      every other node outside the subtree is left alone, the arena holds
      `Put(v, x, w)`. */
  lemma {:induction false} RepresentsPut<E>(h: map<Ref, Slot<E>>, h2: map<Ref, Slot<E>>, v: Shape<E>, up: Option<Ref>, x: Ref, w: Shape<E>)
    requires Unique(v) && Represents(h, v, up) && x in Ids(v)
    requires Represents(h2, w, Parent(v, up, x))
    requires x != v.id ==>
      (Parent(v, up, x).Some?
       && var q := Parent(v, up, x).value;
          q in h && h[q].Live? && q in h2 && h2[q] == Relink(h[q], x, Top(w)))
    requires forall k :: k in Outside(v, x) && Some(k) != Parent(v, up, x) ==> Kept(h, h2, k)
    ensures Represents(h2, Put(v, x, w), up)
  {
    if x != v.id {
      SubTop(v, x);
      var id := v.id;
      var c := if x in Ids(v.left) then v.left else v.right;
      SubTop(c, x);
      if x != c.id {
        ParentInside(c, Some(id), x);
      }
      RepresentsPut(h, h2, c, Some(id), x, w);
      PutOtherSide(h, h2, v, up, x, w);
    }
  }

  /** A replacement inside one side of `v` leaves the other side spelled
      by the new arena. */
  lemma PutOtherSide<E>(h: map<Ref, Slot<E>>, h2: map<Ref, Slot<E>>, v: Shape<E>, up: Option<Ref>, x: Ref, w: Shape<E>)
    requires Unique(v) && Represents(h, v, up) && x in Ids(v) && x != v.id
    requires forall k :: k in Outside(v, x) && Some(k) != Parent(v, up, x) ==> Kept(h, h2, k)
    ensures x in Ids(v.left) ==> Represents(h2, v.right, Some(v.id))
    ensures x !in Ids(v.left) ==> Represents(h2, v.left, Some(v.id))
  {
    SubTop(v, x);
    var id := v.id;
    var c := if x in Ids(v.left) then v.left else v.right;
    var o := if x in Ids(v.left) then v.right else v.left;
    SubTop(c, x);
    if x != c.id {
      ParentInside(c, Some(id), x);
    }
    assert Parent(v, up, x) == Parent(c, Some(id), x) && Sub(v, x) == Sub(c, x);
    assert Ids(o) !! Ids(c) && id !in Ids(o);
    forall k | k in Ids(o) ensures Kept(h, h2, k) {
      assert k in Outside(v, x);
    }
    RepresentsFrame(h, h2, o, Some(id));
  }

  /** The parent of a node other than the top links to it on the side
      where the node's subtree hangs. */
  lemma ParentSlot<E>(h: map<Ref, Slot<E>>, v: Shape<E>, up: Option<Ref>, x: Ref)
    requires Unique(v) && Represents(h, v, up) && x in Ids(v) && x != v.id
    ensures Parent(v, up, x).Some?
    ensures var q := Parent(v, up, x).value;
      q in Ids(v) && q !in Ids(Sub(v, x)) && q in h && h[q].Live? && Sub(v, q).Node?
      && (h[q].left == Some(x) ==> Sub(v, q).left == Sub(v, x))
      && (h[q].left != Some(x) ==> h[q].right == Some(x) && Sub(v, q).right == Sub(v, x))
  {
    ParentInside(v, up, x);
    var q := Parent(v, up, x).value;
    RepresentsAt(h, v, up, q);
    SubTop(v, x);
  }

  /** Every node of a valid tree is live in the arena, below `free`. */
  lemma InArena<E>(t: LinkedTree<E>)
    requires Valid(t)
    ensures forall k :: k in Ids(t.shape) ==> k in t.heap && t.heap[k].Live? && k < t.free
  {
    forall k | k in Ids(t.shape) ensures k in t.heap {
      RepresentsAt(t.heap, t.shape, None, k);
    }
  }

  /** The shared step of every update: the subtree at `p` was replaced by
      `w`, hung below `p`'s old parent, whose link was redirected; the other
      nodes outside the subtree were left alone. Then `u` is valid and holds
      `Put(t.shape, p, w)`. */
  lemma Replaced<E>(t: LinkedTree<E>, u: LinkedTree<E>, p: Ref, w: Shape<E>)
    requires Valid(t) && p in Ids(t.shape)
    requires u.shape == Put(t.shape, p, w)
    requires u.root == (if p == t.shape.id then Top(w) else t.root)
    requires u.size == t.size - Count(Sub(t.shape, p)) + Count(w)
    requires Unique(w) && Ids(w) !! Outside(t.shape, p)
    requires Represents(u.heap, w, Parent(t.shape, None, p))
    requires p != t.shape.id ==>
      (Parent(t.shape, None, p).Some?
       && var q := Parent(t.shape, None, p).value;
          q in t.heap && t.heap[q].Live? && q in u.heap && u.heap[q] == Relink(t.heap[q], p, Top(w)))
    requires forall k :: k in Outside(t.shape, p) && Some(k) != Parent(t.shape, None, p) ==> Kept(t.heap, u.heap, k)
    requires forall k :: k in u.heap ==> k < u.free && (u.heap[k].Live? <==> k in Outside(t.shape, p) + Ids(w))
    ensures Valid(u)
    ensures Ids(u.shape) == Outside(t.shape, p) + Ids(w)
    ensures InOrder(u.shape) == Before(t.shape, p) + InOrder(w) + After(t.shape, p)
  {
    RepresentsPut(t.heap, u.heap, t.shape, None, p, w);
    PutIds(t.shape, p, w);
    PutUnique(t.shape, p, w);
    PutInOrder(t.shape, p, w);
  }

  // ---------------------------------------------------------------------
  // Positions and accessors

  /** validate (lines 66-76): a position must be a node of this tree that
      has not been removed. */
  function Validate<E>(t: LinkedTree<E>, p: Ref): (r: Outcome<Ref>)
    requires Valid(t)
    ensures r.Ok? <==> p in Ids(t.shape)
    ensures r.Ok? ==> r.value == p
    ensures r.Throws? ==> r.error == IllegalArgument
  {
    InArena(t);
    if p in t.heap && t.heap[p].Live? then Ok(p) else Throws(IllegalArgument)
  }

  /** The empty tree of the constructor (lines 9-13). */
  method New<E>() returns (t: LinkedTree<E>)
    ensures Valid(t) && t.shape == Nil && t.size == 0 && t.root == None
  {
    t := LinkedTree(map[], None, 0, Nil, 0);
  }

  /** size (lines 164-167): the number of nodes. */
  function Size<E>(t: LinkedTree<E>): (n: int)
    requires Valid(t)
    ensures n == |Ids(t.shape)| == |InOrder(t.shape)|
  {
    UniqueCount(t.shape);
    t.size
  }

  /** root (lines 169-172): the top node, null for the empty tree. */
  function Root<E>(t: LinkedTree<E>): (r: Option<Ref>)
    requires Valid(t)
    ensures r.None? <==> Ids(t.shape) == {}
    ensures r.Some? ==> r.value in Ids(t.shape) && Depth(t.shape, r.value) == 0
  {
    t.root
  }

  /** isEmpty (tree/Tree.java, lines 35-37): no nodes. */
  function IsEmpty<E>(t: LinkedTree<E>): (b: bool)
    requires Valid(t)
    ensures b <==> Ids(t.shape) == {}
    ensures b <==> Size(t) == 0
  {
    UniqueCount(t.shape);
    t.size == 0
  }

  /** parent (lines 174-178). */
  function ParentOf<E>(t: LinkedTree<E>, p: Ref): (r: Outcome<Option<Ref>>)
    requires Valid(t)
    ensures r.Throws? <==> p !in Ids(t.shape)
    ensures r.Throws? ==> r.error == IllegalArgument
    ensures r.Ok? ==> r.value == Parent(t.shape, None, p)
    ensures r.Ok? ==> (r.value.None? <==> Some(p) == t.root)
    ensures r.Ok? && r.value.Some? ==>
      r.value.value in Ids(t.shape) && Depth(t.shape, p) == Depth(t.shape, r.value.value) + 1
  {
    var node := Validate(t, p);
    if node.Throws? then Throws(node.error)
    else
      RepresentsAt(t.heap, t.shape, None, p);
      if p != t.shape.id then ParentInside(t.shape, None, p); Ok(t.heap[p].parent)
      else Ok(t.heap[p].parent)
  }

  /** left (lines 180-184): the left child, or null. */
  function LeftOf<E>(t: LinkedTree<E>, p: Ref): (r: Outcome<Option<Ref>>)
    requires Valid(t)
    ensures r.Throws? <==> p !in Ids(t.shape)
    ensures r.Throws? ==> r.error == IllegalArgument
    ensures r.Ok? ==> Sub(t.shape, p).Node? && r.value == Top(Sub(t.shape, p).left)
    ensures r.Ok? && r.value.Some? ==>
      r.value.value in Ids(t.shape) && Parent(t.shape, None, r.value.value) == Some(p)
  {
    var node := Validate(t, p);
    if node.Throws? then Throws(node.error)
    else
      RepresentsAt(t.heap, t.shape, None, p);
      ChildLinks(t, p);
      Ok(t.heap[p].left)
  }

  /** right (lines 186-190): the right child, or null. */
  function RightOf<E>(t: LinkedTree<E>, p: Ref): (r: Outcome<Option<Ref>>)
    requires Valid(t)
    ensures r.Throws? <==> p !in Ids(t.shape)
    ensures r.Throws? ==> r.error == IllegalArgument
    ensures r.Ok? ==> Sub(t.shape, p).Node? && r.value == Top(Sub(t.shape, p).right)
    ensures r.Ok? && r.value.Some? ==>
      r.value.value in Ids(t.shape) && Parent(t.shape, None, r.value.value) == Some(p)
  {
    var node := Validate(t, p);
    if node.Throws? then Throws(node.error)
    else
      RepresentsAt(t.heap, t.shape, None, p);
      ChildLinks(t, p);
      Ok(t.heap[p].right)
  }

  /** A child of `p` is a node of the tree whose parent is `p`. */
  lemma ChildLinks<E>(t: LinkedTree<E>, p: Ref)
    requires Valid(t) && p in Ids(t.shape)
    ensures var s := Sub(t.shape, p);
      s.Node? && Ids(s) <= Ids(t.shape)
      && (s.left.Node? ==> Sub(t.shape, s.left.id) == s.left && Parent(t.shape, None, s.left.id) == Some(p))
      && (s.right.Node? ==> Sub(t.shape, s.right.id) == s.right && Parent(t.shape, None, s.right.id) == Some(p))
  {
    var v := t.shape;
    var s := Sub(v, p);
    SubTop(v, p);
    SubChild(v, p);
    RepresentsAt(t.heap, v, None, p);
    if s.left.Node? {
      RepresentsAt(t.heap, v, None, s.left.id);
      assert Represents(t.heap, s.left, Some(p));
    }
    if s.right.Node? {
      RepresentsAt(t.heap, v, None, s.right.id);
      assert Represents(t.heap, s.right, Some(p));
    }
  }

  /** Node `x` of `t` is still a node of `u`, holding the same element and
      the same left and right children. */
  ghost predicate SameBelow<E>(t: LinkedTree<E>, u: LinkedTree<E>, x: Ref)
    requires Valid(t) && Valid(u)
  {
    && x in Ids(t.shape) && x in Ids(u.shape)
    && Sub(t.shape, x).Node? && Sub(u.shape, x).Node? && Sub(u.shape, x).element == Sub(t.shape, x).element
    && LeftOf(u, x) == LeftOf(t, x) && RightOf(u, x) == RightOf(t, x)
  }

  /** A node whose slot keeps its element and child links keeps them as
      seen through the shape and the accessors; a kept parent link too. */
  lemma SameSlot<E>(t: LinkedTree<E>, u: LinkedTree<E>, x: Ref)
    requires Valid(t) && Valid(u) && x in Ids(t.shape) && x in Ids(u.shape)
    requires x in t.heap && x in u.heap && t.heap[x].Live? && u.heap[x].Live?
    requires u.heap[x].element == t.heap[x].element
    requires u.heap[x].left == t.heap[x].left && u.heap[x].right == t.heap[x].right
    ensures SameBelow(t, u, x)
    ensures u.heap[x].parent == t.heap[x].parent ==> ParentOf(u, x) == ParentOf(t, x)
  {
    RepresentsAt(t.heap, t.shape, None, x);
    RepresentsAt(u.heap, u.shape, None, x);
  }

  // ---------------------------------------------------------------------
  // Updates

  /** addRoot (lines 78-85): only an empty tree gets a root. */
  function AddRoot<E>(t: LinkedTree<E>, e: E): (r: Outcome<(LinkedTree<E>, Ref)>)
    requires Valid(t)
    ensures r.Throws? <==> t.shape != Nil
    ensures r.Throws? ==> r.error == IllegalState
    ensures r.Ok? ==> var (u, x) := r.value;
      Valid(u) && u.size == 1 && Root(u) == Some(x) && x !in t.heap
      && Sub(u.shape, x) == Node(Nil, x, e, Nil)
  {
    if !IsEmpty(t) then Throws(IllegalState)
    else
      var x := t.free;
      Ok((LinkedTree(t.heap[x := Live(e, None, None, None)], Some(x), 1, Node(Nil, x, e, Nil), x + 1), x))
  }

  /** The tree after a new leaf holding `e` is linked in as the left (or
      right) child of `p`, at the address `free`; the shared body of
      addLeft and addRight (lines 87-107). */
  function Grown<E>(t: LinkedTree<E>, p: Ref, e: E, left: bool): LinkedTree<E>
    requires p in t.heap && t.heap[p].Live? && Sub(t.shape, p).Node?
  {
    var slot := t.heap[p];
    var c := t.free;
    var linked := if left then slot.(left := Some(c)) else slot.(right := Some(c));
    LinkedTree(t.heap[p := linked][c := Live(e, Some(p), None, None)], t.root, t.size + 1,
               Put(t.shape, p, Grafted(Sub(t.shape, p), c, e, left)), c + 1)
  }

  /** addLeft/addRight may write a leaf below `p` on that side. */
  ghost predicate Growable<E>(t: LinkedTree<E>, p: Ref, left: bool) {
    Valid(t) && p in Ids(t.shape) && p in t.heap && t.heap[p].Live? && Sub(t.shape, p).Node?
    && if left then Sub(t.shape, p).left == Nil else Sub(t.shape, p).right == Nil
  }

  /** The grafted subtree is spelled by the new links and hangs where the
      old one did. */
  lemma GrownHangs<E>(t: LinkedTree<E>, p: Ref, e: E, left: bool)
    requires Growable(t, p, left)
    ensures var u := Grown(t, p, e, left); var w := Grafted(Sub(t.shape, p), t.free, e, left);
      Unique(w) && Ids(w) !! Outside(t.shape, p) && Represents(u.heap, w, Parent(t.shape, None, p))
  {
    var v := t.shape;
    var h := t.heap;
    InArena(t);
    var u := Grown(t, p, e, left);
    var s := Sub(v, p);
    SubTop(v, p);
    RepresentsAt(h, v, None, p);
    SubUnique(v, p);
    GrowInOrder(s, t.free, e, left);
    if left {
      RepresentsFrame(h, u.heap, s.right, Some(p));
    } else {
      RepresentsFrame(h, u.heap, s.left, Some(p));
    }
  }

  /** addLeft/addRight write only `p` and the new leaf: `p`'s parent still
      points at `p`, and every other node is left alone. */
  lemma GrownFrame<E>(t: LinkedTree<E>, p: Ref, e: E, left: bool)
    requires Growable(t, p, left)
    ensures var v := t.shape; var u := Grown(t, p, e, left);
      && (p != v.id ==>
            (Parent(v, None, p).Some?
             && var q := Parent(v, None, p).value;
                q in t.heap && t.heap[q].Live? && q in u.heap && u.heap[q] == Relink(t.heap[q], p, Some(p))))
      && forall k :: k in Outside(v, p) && Some(k) != Parent(v, None, p) ==> Kept(t.heap, u.heap, k)
  {
    var v := t.shape;
    InArena(t);
    SubTop(v, p);
    if p != v.id {
      ParentSlot(t.heap, v, None, p);
    }
  }

  /** After addLeft/addRight the live slots are the old nodes and the leaf. */
  lemma GrownLive<E>(t: LinkedTree<E>, p: Ref, e: E, left: bool)
    requires Growable(t, p, left)
    ensures var u := Grown(t, p, e, left); var w := Grafted(Sub(t.shape, p), t.free, e, left);
      forall k :: k in u.heap ==> k < u.free && (u.heap[k].Live? <==> k in Outside(t.shape, p) + Ids(w))
  {
    var s := Sub(t.shape, p);
    SubTop(t.shape, p);
    GrowInOrder(s, t.free, e, left);
    assert Outside(t.shape, p) + Ids(s) == Ids(t.shape);
  }

  /** The links written by addLeft/addRight spell the grafted subtree. */
  lemma GrownReplaced<E>(t: LinkedTree<E>, p: Ref, e: E, left: bool)
    requires Growable(t, p, left)
    ensures var u := Grown(t, p, e, left); var w := Grafted(Sub(t.shape, p), t.free, e, left);
      Valid(u) && Ids(u.shape) == Outside(t.shape, p) + Ids(w)
      && InOrder(u.shape) == Before(t.shape, p) + InOrder(w) + After(t.shape, p)
  {
    var u := Grown(t, p, e, left);
    var w := Grafted(Sub(t.shape, p), t.free, e, left);
    SubTop(t.shape, p);
    GrownHangs(t, p, e, left);
    GrownFrame(t, p, e, left);
    GrownLive(t, p, e, left);
    Replaced(t, u, p, w);
  }

  /** The new leaf lands in the in-order listing right before or after the
      subtree it joins. */
  lemma GrownOrder<E>(t: LinkedTree<E>, p: Ref, e: E, left: bool)
    requires Growable(t, p, left)
    ensures var u := Grown(t, p, e, left); var c := t.free; var s := Sub(t.shape, p);
      (left ==> InOrder(u.shape) == Before(t.shape, p) + [c] + InOrder(s) + After(t.shape, p))
      && (!left ==> InOrder(u.shape) == Before(t.shape, p) + InOrder(s) + [c] + After(t.shape, p))
  {
    var c := t.free;
    var s := Sub(t.shape, p);
    PutInOrder(t.shape, p, Grafted(s, c, e, left));
    GrowInOrder(s, c, e, left);
    var a, b := Before(t.shape, p), After(t.shape, p);
    if left {
      Regroup(a, [c], InOrder(s), b);
    } else {
      Regroup(a, InOrder(s), [c], b);
    }
  }

  /** Concatenation regrouped around a middle pair; a separate lemma keeps
      this fact out of GrownOrder's larger context. */
  lemma Regroup<T>(a: seq<T>, x: seq<T>, y: seq<T>, b: seq<T>)
    ensures a + (x + y) + b == a + x + y + b
  {
  }

  lemma GrownValid<E>(t: LinkedTree<E>, p: Ref, e: E, left: bool)
    requires Valid(t) && p in Ids(t.shape) && Sub(t.shape, p).Node?
    requires if left then Sub(t.shape, p).left == Nil else Sub(t.shape, p).right == Nil
    ensures p in t.heap && t.heap[p].Live?
    ensures var u := Grown(t, p, e, left); var c := t.free; var s := Sub(t.shape, p);
      Valid(u) && c !in Ids(t.shape) && u.size == t.size + 1
      && Ids(u.shape) == Ids(t.shape) + {c}
      && Sub(u.shape, p) == Grafted(s, c, e, left) && Sub(u.shape, c) == Node(Nil, c, e, Nil)
      && (left ==> InOrder(u.shape) == Before(t.shape, p) + [c] + InOrder(s) + After(t.shape, p))
      && (!left ==> InOrder(u.shape) == Before(t.shape, p) + InOrder(s) + [c] + After(t.shape, p))
  {
    var v := t.shape;
    InArena(t);
    var u := Grown(t, p, e, left);
    var c := t.free;
    var s := Sub(v, p);
    var w := Grafted(s, c, e, left);
    SubTop(v, p);
    GrowInOrder(s, c, e, left);
    GrownReplaced(t, p, e, left);
    GrownOrder(t, p, e, left);
    assert Sub(u.shape, p) == w by {
      PutSub(v, p, w);
    }
    assert Sub(u.shape, c) == Node(Nil, c, e, Nil) by {
      SubChild(u.shape, p);
    }
  }

  /** The accessors read the links addLeft/addRight wrote: `p` gains the
      new child on one side and keeps the other, the leaf has no children. */
  lemma GrownLinks<E>(t: LinkedTree<E>, p: Ref, e: E, left: bool)
    requires Growable(t, p, left)
    ensures var u := Grown(t, p, e, left); var c := t.free;
      Valid(u) && LeftOf(u, p) == (if left then Ok(Some(c)) else LeftOf(t, p))
      && RightOf(u, p) == (if left then RightOf(t, p) else Ok(Some(c)))
  {
    GrownValid(t, p, e, left);
    InArena(t);
  }

  /** The new leaf's accessors: parent `p`, no children. */
  lemma GrownLeaf<E>(t: LinkedTree<E>, p: Ref, e: E, left: bool)
    requires Growable(t, p, left)
    ensures var u := Grown(t, p, e, left); var c := t.free;
      Valid(u) && ParentOf(u, c) == Ok(Some(p)) && LeftOf(u, c) == Ok(None) && RightOf(u, c) == Ok(None)
  {
    GrownValid(t, p, e, left);
  }

  /** addLeft/addRight keep the root, `p`'s parent, and every other node's
      element and links. */
  lemma GrownKeeps<E>(t: LinkedTree<E>, p: Ref, e: E, left: bool)
    requires Growable(t, p, left)
    ensures var u := Grown(t, p, e, left);
      Valid(u) && Root(u) == Root(t) && ParentOf(u, p) == ParentOf(t, p)
      && forall x :: x in Ids(t.shape) && x != p ==> SameBelow(t, u, x) && ParentOf(u, x) == ParentOf(t, x)
  {
    var u := Grown(t, p, e, left);
    GrownValid(t, p, e, left);
    InArena(t);
    assert u.heap[p].parent == t.heap[p].parent;
    forall x | x in Ids(t.shape) && x != p
      ensures SameBelow(t, u, x) && ParentOf(u, x) == ParentOf(t, x)
    {
      assert x != t.free && u.heap[x] == t.heap[x];
      SameSlot(t, u, x);
    }
  }

  /** addLeft (lines 87-96): a new leaf under `p`, on the left. */
  function AddLeft<E>(t: LinkedTree<E>, p: Ref, e: E): (r: Outcome<(LinkedTree<E>, Ref)>)
    requires Valid(t)
    ensures r.Ok? <==> p in Ids(t.shape) && Sub(t.shape, p).Node? && Sub(t.shape, p).left == Nil
    ensures r.Throws? ==> r.error == IllegalArgument
    ensures r.Ok? ==> var (u, c) := r.value;
      Valid(u) && c !in Ids(t.shape) && u.size == t.size + 1
      && Ids(u.shape) == Ids(t.shape) + {c}
      && u.shape == Put(t.shape, p, Grafted(Sub(t.shape, p), c, e, true))
      && Sub(u.shape, p) == Grafted(Sub(t.shape, p), c, e, true) && Sub(u.shape, c) == Node(Nil, c, e, Nil)
      && LeftOf(u, p) == Ok(Some(c)) && RightOf(u, p) == RightOf(t, p)
      && ParentOf(u, c) == Ok(Some(p)) && LeftOf(u, c) == Ok(None) && RightOf(u, c) == Ok(None)
      && InOrder(u.shape) == Before(t.shape, p) + [c] + InOrder(Sub(t.shape, p)) + After(t.shape, p)
      && Root(u) == Root(t) && ParentOf(u, p) == ParentOf(t, p)
      && forall x :: x in Ids(t.shape) && x != p ==> SameBelow(t, u, x) && ParentOf(u, x) == ParentOf(t, x)
  {
    var node := Validate(t, p);
    if node.Throws? then Throws(node.error)
    else
      InArena(t);
      RepresentsAt(t.heap, t.shape, None, p);
      if t.heap[p].left.Some? then Throws(IllegalArgument)
      else
        GrownValid(t, p, e, true);
        GrownLinks(t, p, e, true);
        GrownLeaf(t, p, e, true);
        GrownKeeps(t, p, e, true);
        Ok((Grown(t, p, e, true), t.free))
  }

  /** addRight (lines 98-107): a new leaf under `p`, on the right. */
  function AddRight<E>(t: LinkedTree<E>, p: Ref, e: E): (r: Outcome<(LinkedTree<E>, Ref)>)
    requires Valid(t)
    ensures r.Ok? <==> p in Ids(t.shape) && Sub(t.shape, p).Node? && Sub(t.shape, p).right == Nil
    ensures r.Throws? ==> r.error == IllegalArgument
    ensures r.Ok? ==> var (u, c) := r.value;
      Valid(u) && c !in Ids(t.shape) && u.size == t.size + 1
      && Ids(u.shape) == Ids(t.shape) + {c}
      && u.shape == Put(t.shape, p, Grafted(Sub(t.shape, p), c, e, false))
      && Sub(u.shape, p) == Grafted(Sub(t.shape, p), c, e, false) && Sub(u.shape, c) == Node(Nil, c, e, Nil)
      && RightOf(u, p) == Ok(Some(c)) && LeftOf(u, p) == LeftOf(t, p)
      && ParentOf(u, c) == Ok(Some(p)) && LeftOf(u, c) == Ok(None) && RightOf(u, c) == Ok(None)
      && InOrder(u.shape) == Before(t.shape, p) + InOrder(Sub(t.shape, p)) + [c] + After(t.shape, p)
      && Root(u) == Root(t) && ParentOf(u, p) == ParentOf(t, p)
      && forall x :: x in Ids(t.shape) && x != p ==> SameBelow(t, u, x) && ParentOf(u, x) == ParentOf(t, x)
  {
    var node := Validate(t, p);
    if node.Throws? then Throws(node.error)
    else
      InArena(t);
      RepresentsAt(t.heap, t.shape, None, p);
      if t.heap[p].right.Some? then Throws(IllegalArgument)
      else
        GrownValid(t, p, e, false);
        GrownLinks(t, p, e, false);
        GrownLeaf(t, p, e, false);
        GrownKeeps(t, p, e, false);
        Ok((Grown(t, p, e, false), t.free))
  }

  /** set (lines 109-114): replaces the element at `p` and returns the old
      one; no link changes. */
  function Set<E>(t: LinkedTree<E>, p: Ref, e: E): (r: Outcome<(LinkedTree<E>, E)>)
    requires Valid(t)
    ensures r.Throws? <==> p !in Ids(t.shape)
    ensures r.Throws? ==> r.error == IllegalArgument
    ensures r.Ok? ==> var (u, old_e) := r.value;
      Valid(u) && u.size == t.size && u.root == t.root && InOrder(u.shape) == InOrder(t.shape)
      && Sub(t.shape, p).Node? && old_e == Sub(t.shape, p).element
      && Sub(u.shape, p).Node? && Sub(u.shape, p).element == e
      && (forall x :: x in Ids(t.shape) && x != p ==>
            Sub(u.shape, x).Node? && Sub(t.shape, x).Node? && Sub(u.shape, x).element == Sub(t.shape, x).element)
      && forall x :: x in Ids(t.shape) ==>
           (ParentOf(u, x) == ParentOf(t, x) && LeftOf(u, x) == LeftOf(t, x) && RightOf(u, x) == RightOf(t, x))
  {
    var node := Validate(t, p);
    if node.Throws? then Throws(node.error)
    else
      InArena(t);
      SubTop(t.shape, p);
      var slot := t.heap[p];
      var s := Sub(t.shape, p);
      var u := LinkedTree(t.heap[p := slot.(element := e)], t.root, t.size,
                          Put(t.shape, p, s.(element := e)), t.free);
      SetValid(t, p, e, u);
      Ok((u, slot.element))
  }

  lemma SetValid<E>(t: LinkedTree<E>, p: Ref, e: E, u: LinkedTree<E>)
    requires Valid(t) && p in Ids(t.shape) && p in t.heap && t.heap[p].Live?
    requires Sub(t.shape, p).Node?
    requires u == LinkedTree(t.heap[p := t.heap[p].(element := e)], t.root, t.size,
                             Put(t.shape, p, Sub(t.shape, p).(element := e)), t.free)
    ensures Valid(u) && InOrder(u.shape) == InOrder(t.shape) && Ids(u.shape) == Ids(t.shape)
    ensures t.heap[p].element == Sub(t.shape, p).element
    ensures Sub(u.shape, p).Node? && Sub(u.shape, p).element == e
    ensures forall x :: x in Ids(t.shape) && x != p ==>
      Sub(u.shape, x).Node? && Sub(t.shape, x).Node? && Sub(u.shape, x).element == Sub(t.shape, x).element
    ensures forall x :: x in Ids(t.shape) ==>
      (ParentOf(u, x) == ParentOf(t, x) && LeftOf(u, x) == LeftOf(t, x) && RightOf(u, x) == RightOf(t, x))
  {
    SetShape(t, p, e, u);
    forall x | x in Ids(t.shape)
      ensures ParentOf(u, x) == ParentOf(t, x) && LeftOf(u, x) == LeftOf(t, x) && RightOf(u, x) == RightOf(t, x)
    {
      SetLinksAt(t, p, e, u, x);
    }
    forall x | x in Ids(t.shape) && x != p
      ensures Sub(u.shape, x).Node? && Sub(t.shape, x).Node? && Sub(u.shape, x).element == Sub(t.shape, x).element
    {
      SetElementAt(t, p, e, u, x);
    }
  }

  /** set writes the element into the shape and nothing else. */
  lemma SetShape<E>(t: LinkedTree<E>, p: Ref, e: E, u: LinkedTree<E>)
    requires Valid(t) && p in Ids(t.shape) && p in t.heap && t.heap[p].Live?
    requires Sub(t.shape, p).Node?
    requires u == LinkedTree(t.heap[p := t.heap[p].(element := e)], t.root, t.size,
                             Put(t.shape, p, Sub(t.shape, p).(element := e)), t.free)
    ensures Valid(u) && InOrder(u.shape) == InOrder(t.shape) && Ids(u.shape) == Ids(t.shape)
    ensures t.heap[p].element == Sub(t.shape, p).element
    ensures Sub(u.shape, p).Node? && Sub(u.shape, p).element == e
  {
    var v := t.shape;
    var s := Sub(v, p);
    var w := s.(element := e);
    SubTop(v, p);
    SubUnique(v, p);
    SetHangs(t, p, e, u);
    if p != v.id {
      ParentSlot(t.heap, v, None, p);
    }
    Replaced(t, u, p, w);
    InOrderAround(v, p);
    PutSub(v, p, w);
  }

  /** The links below `p` still spell its subtree, now with the new element. */
  lemma SetHangs<E>(t: LinkedTree<E>, p: Ref, e: E, u: LinkedTree<E>)
    requires Valid(t) && p in Ids(t.shape) && p in t.heap && t.heap[p].Live?
    requires u.heap == t.heap[p := t.heap[p].(element := e)]
    ensures Sub(t.shape, p).Node? && t.heap[p].element == Sub(t.shape, p).element
    ensures Represents(u.heap, Sub(t.shape, p).(element := e), Parent(t.shape, None, p))
  {
    var v := t.shape;
    var s := Sub(v, p);
    RepresentsAt(t.heap, v, None, p);
    SubTop(v, p);
    SubUnique(v, p);
    RepresentsFrame(t.heap, u.heap, s.left, Some(p));
    RepresentsFrame(t.heap, u.heap, s.right, Some(p));
  }

  /** set leaves every other node's element as it was. */
  lemma SetElementAt<E>(t: LinkedTree<E>, p: Ref, e: E, u: LinkedTree<E>, x: Ref)
    requires Valid(t) && Valid(u) && p in t.heap && t.heap[p].Live?
    requires u.heap == t.heap[p := t.heap[p].(element := e)] && Ids(u.shape) == Ids(t.shape)
    requires x in Ids(t.shape) && x != p
    ensures Sub(u.shape, x).Node? && Sub(t.shape, x).Node? && Sub(u.shape, x).element == Sub(t.shape, x).element
  {
    RepresentsAt(t.heap, t.shape, None, x);
    RepresentsAt(u.heap, u.shape, None, x);
  }

  /** set leaves every node's links as they were. */
  lemma SetLinksAt<E>(t: LinkedTree<E>, p: Ref, e: E, u: LinkedTree<E>, x: Ref)
    requires Valid(t) && Valid(u) && p in t.heap && t.heap[p].Live?
    requires u.heap == t.heap[p := t.heap[p].(element := e)] && Ids(u.shape) == Ids(t.shape)
    requires x in Ids(t.shape)
    ensures ParentOf(u, x) == ParentOf(t, x) && LeftOf(u, x) == LeftOf(t, x) && RightOf(u, x) == RightOf(t, x)
  {
    InArena(t);
  }

  // ---------------------------------------------------------------------
  // Defaults of tree/BinaryTree.java and tree/Tree.java

  /** numChildren (tree/BinaryTree.java, lines 28-38): the non-null links
      among left and right. A node has none exactly when it is alone in its
      subtree, and two exactly when both sides are occupied. */
  function NumChildren<E>(t: LinkedTree<E>, p: Ref): (r: Outcome<int>)
    requires Valid(t)
    ensures r.Throws? <==> p !in Ids(t.shape)
    ensures r.Throws? ==> r.error == IllegalArgument
    ensures r.Ok? ==>
      Sub(t.shape, p).Node? && 0 <= r.value <= 2
      && (r.value == 0 <==> Count(Sub(t.shape, p)) == 1)
      && (r.value == 2 <==> Sub(t.shape, p).left.Node? && Sub(t.shape, p).right.Node?)
  {
    var l := LeftOf(t, p);
    if l.Throws? then Throws(l.error)
    else
      var r := RightOf(t, p);
      Ok((if l.value.Some? then 1 else 0) + (if r.value.Some? then 1 else 0))
  }

  /** children (tree/BinaryTree.java, lines 40-50): exactly the nodes whose
      parent is `p`, the left one first. */
  function Children<E>(t: LinkedTree<E>, p: Ref): (r: Outcome<seq<Ref>>)
    requires Valid(t)
    ensures r.Throws? <==> p !in Ids(t.shape)
    ensures r.Throws? ==> r.error == IllegalArgument
    ensures r.Ok? ==>
      Sub(t.shape, p).Node?
      && (forall x :: x in r.value <==> x in Ids(t.shape) && Parent(t.shape, None, x) == Some(p))
      && NumChildren(t, p) == Ok(|r.value|)
      && (|r.value| == 2 ==> LeftOf(t, p) == Ok(Some(r.value[0])) && RightOf(t, p) == Ok(Some(r.value[1])))
      && forall i :: 0 <= i < |r.value| ==> Sub(t.shape, r.value[i]) in [Sub(t.shape, p).left, Sub(t.shape, p).right]
  {
    var l := LeftOf(t, p);
    if l.Throws? then Throws(l.error)
    else
      var r := RightOf(t, p);
      ChildLinks(t, p);
      ChildrenExact(t, p);
      Ok((if l.value.Some? then [l.value.value] else []) + (if r.value.Some? then [r.value.value] else []))
  }

  /** The nodes whose parent is `p` are `p`'s left and right children. */
  lemma ChildrenExact<E>(t: LinkedTree<E>, p: Ref)
    requires Valid(t) && p in Ids(t.shape)
    ensures Sub(t.shape, p).Node?
    ensures forall x :: x in Ids(t.shape) && Parent(t.shape, None, x) == Some(p) ==>
      Some(x) == Top(Sub(t.shape, p).left) || Some(x) == Top(Sub(t.shape, p).right)
  {
    SubTop(t.shape, p);
    forall x | x in Ids(t.shape) && Parent(t.shape, None, x) == Some(p)
      ensures Some(x) == Top(Sub(t.shape, p).left) || Some(x) == Top(Sub(t.shape, p).right)
    {
      if x != t.shape.id {
        ParentInside(t.shape, None, x);
        SubTop(t.shape, x);
      }
    }
  }

  /** sibling (tree/BinaryTree.java, lines 16-26): null for the root;
      otherwise the other node with the same parent, or null when there is
      none. */
  function Sibling<E>(t: LinkedTree<E>, p: Ref): (r: Outcome<Option<Ref>>)
    requires Valid(t)
    ensures r.Throws? <==> p !in Ids(t.shape)
    ensures r.Throws? ==> r.error == IllegalArgument
    ensures r.Ok? && Root(t) == Some(p) ==> r.value == None
    ensures r.Ok? && r.value.Some? ==> var x := r.value.value;
      x in Ids(t.shape) && x != p && Parent(t.shape, None, x) == Parent(t.shape, None, p)
    ensures r.Ok? ==> forall x ::
      (x in Ids(t.shape) && x != p && Parent(t.shape, None, p).Some?
       && Parent(t.shape, None, x) == Parent(t.shape, None, p)) ==> r.value == Some(x)
  {
    var up := ParentOf(t, p);
    if up.Throws? then Throws(up.error)
    else if up.value.None? then Ok(None)
    else
      var q := up.value.value;
      ChildrenExact(t, q);
      ChildLinks(t, q);
      SubUnique(t.shape, q);
      SubTop(t.shape, p);
      if LeftOf(t, q) == Ok(Some(p)) then RightOf(t, q) else LeftOf(t, q)
  }

  /** isInternal (tree/Tree.java, lines 23-25): the node has a child. */
  function IsInternal<E>(t: LinkedTree<E>, p: Ref): (r: Outcome<bool>)
    requires Valid(t)
    ensures r.Throws? <==> p !in Ids(t.shape)
    ensures r.Throws? ==> r.error == IllegalArgument
    ensures r.Ok? ==> (r.value <==> Count(Sub(t.shape, p)) > 1)
  {
    var n := NumChildren(t, p);
    if n.Throws? then Throws(n.error) else Ok(n.value > 0)
  }

  /** isExternal (tree/Tree.java, lines 27-29): the node is a leaf. */
  function IsExternal<E>(t: LinkedTree<E>, p: Ref): (r: Outcome<bool>)
    requires Valid(t)
    ensures r.Throws? <==> p !in Ids(t.shape)
    ensures r.Throws? ==> r.error == IllegalArgument
    ensures r.Ok? ==> (r.value <==> Count(Sub(t.shape, p)) == 1) && IsInternal(t, p) == Ok(!r.value)
  {
    var n := NumChildren(t, p);
    if n.Throws? then Throws(n.error) else Ok(n.value == 0)
  }

  /** isRoot (tree/Tree.java, lines 31-33): compares with the root without
      validating, so a removed node is simply not the root. */
  function IsRoot<E>(t: LinkedTree<E>, p: Ref): (b: bool)
    requires Valid(t)
    ensures b <==> p in Ids(t.shape) && Depth(t.shape, p) == 0
  {
    Some(p) == t.root
  }

  // ---------------------------------------------------------------------
  // attach and remove

  /** The donor's root is a live node of its arena. */
  predicate Rooted<E>(d: LinkedTree<E>) {
    d.root.Some? && d.root.value in d.heap && d.heap[d.root.value].Live?
  }

  /** The arena after the donor `d`'s root is hung below `p` on the left (or
      right): `d`'s nodes move into the arena, `p` links down to the donor
      root and the donor root links up to `p` (lines 122-133). */
  function Hang<E>(h: map<Ref, Slot<E>>, p: Ref, d: LinkedTree<E>, left: bool): map<Ref, Slot<E>>
    requires p in h && h[p].Live? && Rooted(d)
  {
    var x := d.root.value;
    var down := if left then h[p].(left := d.root) else h[p].(right := d.root);
    (h + d.heap)[p := down][x := d.heap[x].(parent := Some(p))]
  }

  /** The arena after attach: the left donor hung below `p` first, then the
      right one; an empty donor is skipped. */
  function AttachedHeap<E>(t: LinkedTree<E>, p: Ref, lt: LinkedTree<E>, rt: LinkedTree<E>): map<Ref, Slot<E>>
    requires p in t.heap && t.heap[p].Live?
    requires (lt.size != 0 ==> Rooted(lt)) && (rt.size != 0 ==> Rooted(rt))
  {
    var h1 := if lt.size != 0 then Hang(t.heap, p, lt, true) else t.heap;
    if rt.size != 0 then Hang(h1, p, rt, false) else h1
  }

  function Max(a: int, b: int): (m: int)
    ensures m >= a && m >= b && (m == a || m == b)
  {
    if a < b then b else a
  }

  /** The arenas of two trees have no address in common. */
  ghost predicate Apart<E>(a: LinkedTree<E>, b: LinkedTree<E>) {
    a.heap.Keys !! b.heap.Keys
  }

  /** attach (lines 116-134): a leaf `p` takes the root of `lt` as its left
      child and that of `rt` as its right child; the donors are emptied.
      The donors are other trees than this one and than each other, so
      their arenas are apart. */
  function Attach<E>(t: LinkedTree<E>, p: Ref, lt: LinkedTree<E>, rt: LinkedTree<E>): (r: Outcome<(LinkedTree<E>, LinkedTree<E>, LinkedTree<E>)>)
    requires Valid(t) && Valid(lt) && Valid(rt)
    requires Apart(t, lt) && Apart(t, rt) && Apart(lt, rt)
    ensures r.Ok? <==> p in Ids(t.shape) && Count(Sub(t.shape, p)) == 1
    ensures r.Throws? ==> r.error == IllegalArgument
    ensures r.Ok? ==> var (u, l2, r2) := r.value; var s := Sub(t.shape, p);
      Valid(u) && Valid(l2) && Valid(r2) && IsEmpty(l2) && IsEmpty(r2)
      && u.size == t.size + lt.size + rt.size
      && s.Node? && Sub(u.shape, p) == Node(lt.shape, p, s.element, rt.shape)
      && u.shape == Put(t.shape, p, Node(lt.shape, p, s.element, rt.shape))
      && LeftOf(u, p) == Ok(Root(lt)) && RightOf(u, p) == Ok(Root(rt))
      && Ids(u.shape) == Ids(t.shape) + Ids(lt.shape) + Ids(rt.shape)
      && InOrder(u.shape) == Before(t.shape, p) + InOrder(lt.shape) + [p] + InOrder(rt.shape) + After(t.shape, p)
      && Root(u) == Root(t) && ParentOf(u, p) == ParentOf(t, p)
      && (forall x :: x in Ids(t.shape) && x != p ==> SameBelow(t, u, x) && ParentOf(u, x) == ParentOf(t, x))
      && (forall x :: x in Ids(lt.shape) ==> SameBelow(lt, u, x) && (Some(x) != Root(lt) ==> ParentOf(u, x) == ParentOf(lt, x)))
      && (forall x :: x in Ids(rt.shape) ==> SameBelow(rt, u, x) && (Some(x) != Root(rt) ==> ParentOf(u, x) == ParentOf(rt, x)))
  {
    var internal := IsInternal(t, p);
    if internal.Throws? then Throws(internal.error)
    else if internal.value then Throws(IllegalArgument)
    else
      AttachCorrect(t, p, lt, rt);
      Ok(Attached(t, p, lt, rt))
  }

  /** A valid non-empty tree has a live root. */
  lemma ValidRooted<E>(t: LinkedTree<E>)
    requires Valid(t)
    ensures t.size != 0 <==> Rooted(t)
  {
    if t.shape.Node? {
      RepresentsAt(t.heap, t.shape, None, t.shape.id);
    }
  }

  /** A donor after attach: its nodes have moved out (an empty donor is
      left as it was); its arena addresses are not reused. */
  function Emptied<E>(d: LinkedTree<E>): (r: LinkedTree<E>)
    requires Valid(d)
    ensures Valid(r) && IsEmpty(r) && r.free == d.free
  {
    if d.size != 0 then LinkedTree(map[], None, 0, Nil, d.free) else d
  }

  /** The three trees after attach moved the donors below the leaf `p`. */
  function Attached<E>(t: LinkedTree<E>, p: Ref, lt: LinkedTree<E>, rt: LinkedTree<E>): (LinkedTree<E>, LinkedTree<E>, LinkedTree<E>)
    requires Valid(t) && Valid(lt) && Valid(rt) && p in Ids(t.shape)
  {
    InArena(t);
    ValidRooted(lt);
    ValidRooted(rt);
    SubTop(t.shape, p);
    var l2 := Emptied(lt);
    var r2 := Emptied(rt);
    var s := Sub(t.shape, p);
    (LinkedTree(AttachedHeap(t, p, lt, rt), t.root, t.size + lt.size + rt.size,
                Put(t.shape, p, Node(lt.shape, p, s.element, rt.shape)),
                Max(t.free, Max(lt.free, rt.free))),
     l2, r2)
  }

  /** Where each node of the arena after attach comes from. */
  lemma AttachArena<E>(t: LinkedTree<E>, p: Ref, lt: LinkedTree<E>, rt: LinkedTree<E>)
    requires Apart(t, lt) && Apart(t, rt) && Apart(lt, rt)
    requires p in t.heap && t.heap[p].Live?
    requires (lt.size != 0 ==> Rooted(lt)) && (rt.size != 0 ==> Rooted(rt))
    ensures var h2 := AttachedHeap(t, p, lt, rt);
      (forall k :: k in h2 <==> k in t.heap || (lt.size != 0 && k in lt.heap) || (rt.size != 0 && k in rt.heap))
      && h2[p] == t.heap[p].(left := if lt.size != 0 then lt.root else t.heap[p].left)
                           .(right := if rt.size != 0 then rt.root else t.heap[p].right)
      && (forall k :: k in t.heap && k != p ==> h2[k] == t.heap[k])
      && (lt.size != 0 ==> forall k :: k in lt.heap ==>
            h2[k] == if Some(k) == lt.root then lt.heap[k].(parent := Some(p)) else lt.heap[k])
      && (rt.size != 0 ==> forall k :: k in rt.heap ==>
            h2[k] == if Some(k) == rt.root then rt.heap[k].(parent := Some(p)) else rt.heap[k])
  {
  }

  /** attach may hang `lt` and `rt` below `p`: three valid trees with
      arenas apart, and `p` a leaf of the first. */
  ghost predicate Attachable<E>(t: LinkedTree<E>, p: Ref, lt: LinkedTree<E>, rt: LinkedTree<E>) {
    Valid(t) && Valid(lt) && Valid(rt)
    && Apart(t, lt) && Apart(t, rt) && Apart(lt, rt)
    && p in Ids(t.shape) && Count(Sub(t.shape, p)) == 1
  }

  /** The arena written by attach spells the leaf `p` with the donor trees
      below it, and leaves the other nodes of this tree alone. */
  lemma AttachLinks<E>(t: LinkedTree<E>, p: Ref, lt: LinkedTree<E>, rt: LinkedTree<E>)
    requires Attachable(t, p, lt, rt)
    ensures p in t.heap && t.heap[p].Live? && Sub(t.shape, p).Node?
    ensures (lt.size != 0 ==> Rooted(lt)) && (rt.size != 0 ==> Rooted(rt))
    ensures Represents(AttachedHeap(t, p, lt, rt), Node(lt.shape, p, Sub(t.shape, p).element, rt.shape),
                       Parent(t.shape, None, p))
  {
    var v := t.shape;
    InArena(t);
    InArena(lt);
    InArena(rt);
    ValidRooted(lt);
    ValidRooted(rt);
    LeafIds(v, p);
    assert Sub(v, p).left == Nil && Sub(v, p).right == Nil;
    RepresentsAt(t.heap, v, None, p);
    AttachArena(t, p, lt, rt);
    var h2 := AttachedHeap(t, p, lt, rt);
    if lt.shape.Node? {
      Reparent(lt.heap, h2, lt.shape, None, Some(p));
    }
    if rt.shape.Node? {
      Reparent(rt.heap, h2, rt.shape, None, Some(p));
    }
  }

  /** After attach, the live nodes are those of this tree and the donors. */
  lemma AttachLive<E>(t: LinkedTree<E>, p: Ref, lt: LinkedTree<E>, rt: LinkedTree<E>)
    requires Attachable(t, p, lt, rt)
    ensures Sub(t.shape, p).Node?
    ensures var u := Attached(t, p, lt, rt).0;
      var w := Node(lt.shape, p, Sub(t.shape, p).element, rt.shape);
      forall k :: k in u.heap ==> k < u.free && (u.heap[k].Live? <==> k in Outside(t.shape, p) + Ids(w))
  {
    var u := Attached(t, p, lt, rt).0;
    SubTop(t.shape, p);
    var w := Node(lt.shape, p, Sub(t.shape, p).element, rt.shape);
    forall k | k in u.heap ensures k < u.free && (u.heap[k].Live? <==> k in Outside(t.shape, p) + Ids(w)) {
      AttachLiveAt(t, p, lt, rt, k);
    }
  }

  /** One slot of the arena after attach: below `free`, and live exactly
      when it is a node of this tree or of a donor. */
  lemma AttachLiveAt<E>(t: LinkedTree<E>, p: Ref, lt: LinkedTree<E>, rt: LinkedTree<E>, k: Ref)
    requires Attachable(t, p, lt, rt) && k in Attached(t, p, lt, rt).0.heap
    ensures Sub(t.shape, p).Node?
    ensures var u := Attached(t, p, lt, rt).0;
      var w := Node(lt.shape, p, Sub(t.shape, p).element, rt.shape);
      k < u.free && (u.heap[k].Live? <==> k in Outside(t.shape, p) + Ids(w))
  {
    SubTop(t.shape, p);
    LeafIds(t.shape, p);
    InArena(t);
    InArena(lt);
    InArena(rt);
    ValidRooted(lt);
    ValidRooted(rt);
    if k in t.heap {
      AttachLiveOld(t, p, lt, rt, k);
      assert k !in Ids(lt.shape) && k !in Ids(rt.shape);
    } else {
      AttachLiveNew(t, p, lt, rt, k);
      assert k !in Ids(t.shape);
    }
  }

  /** A node whose subtree counts one is a leaf. */
  lemma LeafIds<E>(v: Shape<E>, p: Ref)
    requires p in Ids(v) && Count(Sub(v, p)) == 1
    ensures Sub(v, p).Node? && Ids(Sub(v, p)) == {p}
  {
    SubTop(v, p);
    var s := Sub(v, p);
    assert s.left == Nil && s.right == Nil;
  }

  /** attach keeps every slot of this tree's arena, live or not as before. */
  lemma AttachLiveOld<E>(t: LinkedTree<E>, p: Ref, lt: LinkedTree<E>, rt: LinkedTree<E>, k: Ref)
    requires Apart(t, lt) && Apart(t, rt) && Apart(lt, rt)
    requires p in t.heap && t.heap[p].Live? && (lt.size != 0 ==> Rooted(lt)) && (rt.size != 0 ==> Rooted(rt))
    requires k in t.heap
    ensures var h2 := AttachedHeap(t, p, lt, rt); k in h2 && (h2[k].Live? <==> t.heap[k].Live?)
  {
    AttachArena(t, p, lt, rt);
  }

  /** Any other slot after attach was moved over from a donor, live or not
      as it was there. */
  lemma AttachLiveNew<E>(t: LinkedTree<E>, p: Ref, lt: LinkedTree<E>, rt: LinkedTree<E>, k: Ref)
    requires Apart(t, lt) && Apart(t, rt) && Apart(lt, rt)
    requires p in t.heap && t.heap[p].Live? && (lt.size != 0 ==> Rooted(lt)) && (rt.size != 0 ==> Rooted(rt))
    requires k in AttachedHeap(t, p, lt, rt) && k !in t.heap
    ensures var h2 := AttachedHeap(t, p, lt, rt);
      (lt.size != 0 && k in lt.heap && (h2[k].Live? <==> lt.heap[k].Live?))
      || (rt.size != 0 && k in rt.heap && (h2[k].Live? <==> rt.heap[k].Live?))
  {
    AttachArena(t, p, lt, rt);
  }

  /** attach leaves a valid tree. */
  lemma AttachReplaced<E>(t: LinkedTree<E>, p: Ref, lt: LinkedTree<E>, rt: LinkedTree<E>)
    requires Attachable(t, p, lt, rt)
    ensures Valid(Attached(t, p, lt, rt).0)
  {
    var v := t.shape;
    var u := Attached(t, p, lt, rt).0;
    SubTop(v, p);
    var s := Sub(v, p);
    var w := Node(lt.shape, p, s.element, rt.shape);
    AttachLinks(t, p, lt, rt);
    AttachLive(t, p, lt, rt);
    assert Unique(w) && Ids(w) !! Outside(v, p) by {
      InArena(t);
      InArena(lt);
      InArena(rt);
    }
    assert forall k :: k in Outside(v, p) && Some(k) != Parent(v, None, p) ==> Kept(t.heap, u.heap, k) by {
      AttachArena(t, p, lt, rt);
    }
    if p != v.id {
      ParentSlot(t.heap, v, None, p);
      AttachArena(t, p, lt, rt);
    }
    Replaced(t, u, p, w);
  }

  /** attach puts the donor shapes on either side of the leaf `p`. */
  lemma AttachShape<E>(t: LinkedTree<E>, p: Ref, lt: LinkedTree<E>, rt: LinkedTree<E>)
    requires Attachable(t, p, lt, rt)
    ensures var u := Attached(t, p, lt, rt).0; var s := Sub(t.shape, p);
      s.Node? && Sub(u.shape, p) == Node(lt.shape, p, s.element, rt.shape)
      && Ids(u.shape) == Ids(t.shape) + Ids(lt.shape) + Ids(rt.shape)
      && InOrder(u.shape) == Before(t.shape, p) + InOrder(lt.shape) + [p] + InOrder(rt.shape) + After(t.shape, p)
  {
    Graft(t.shape, p, lt.shape, rt.shape);
  }

  /** After attach, `p`'s children are the donor roots. */
  lemma AttachReads<E>(t: LinkedTree<E>, p: Ref, lt: LinkedTree<E>, rt: LinkedTree<E>)
    requires Attachable(t, p, lt, rt)
    ensures var u := Attached(t, p, lt, rt).0;
      Valid(u) && LeftOf(u, p) == Ok(Root(lt)) && RightOf(u, p) == Ok(Root(rt))
  {
    var u := Attached(t, p, lt, rt).0;
    AttachReplaced(t, p, lt, rt);
    AttachShape(t, p, lt, rt);
    SubTop(u.shape, p);
    RepresentsAt(u.heap, u.shape, None, p);
  }

  /** attach leaves every node of this tree but `p` as it was, and `p`'s
      parent and element too. */
  lemma AttachKeepsHost<E>(t: LinkedTree<E>, p: Ref, lt: LinkedTree<E>, rt: LinkedTree<E>, x: Ref)
    requires Attachable(t, p, lt, rt) && x in Ids(t.shape)
    ensures var u := Attached(t, p, lt, rt).0;
      Valid(u) && ParentOf(u, x) == ParentOf(t, x) && (x != p ==> SameBelow(t, u, x))
  {
    var u := Attached(t, p, lt, rt).0;
    AttachReplaced(t, p, lt, rt);
    AttachShape(t, p, lt, rt);
    ValidRooted(lt);
    ValidRooted(rt);
    InArena(t);
    AttachArena(t, p, lt, rt);
    RepresentsAt(t.heap, t.shape, None, x);
    RepresentsAt(u.heap, u.shape, None, x);
    if x != p {
      SameSlot(t, u, x);
    }
  }

  /** attach moves the nodes of the left donor unchanged, but for its
      root's parent link. */
  lemma AttachKeepsLeft<E>(t: LinkedTree<E>, p: Ref, lt: LinkedTree<E>, rt: LinkedTree<E>, x: Ref)
    requires Attachable(t, p, lt, rt) && x in Ids(lt.shape)
    ensures var u := Attached(t, p, lt, rt).0;
      Valid(u) && SameBelow(lt, u, x) && (Some(x) != Root(lt) ==> ParentOf(u, x) == ParentOf(lt, x))
  {
    var u := Attached(t, p, lt, rt).0;
    AttachReplaced(t, p, lt, rt);
    AttachShape(t, p, lt, rt);
    AttachLinks(t, p, lt, rt);
    InArena(lt);
    assert lt.size != 0;
    AttachArena(t, p, lt, rt);
    assert u.heap[x] == if Some(x) == lt.root then lt.heap[x].(parent := Some(p)) else lt.heap[x];
    SameSlot(lt, u, x);
  }

  /** attach moves the nodes of the right donor unchanged, but for its
      root's parent link. */
  lemma AttachKeepsRight<E>(t: LinkedTree<E>, p: Ref, lt: LinkedTree<E>, rt: LinkedTree<E>, x: Ref)
    requires Attachable(t, p, lt, rt) && x in Ids(rt.shape)
    ensures var u := Attached(t, p, lt, rt).0;
      Valid(u) && SameBelow(rt, u, x) && (Some(x) != Root(rt) ==> ParentOf(u, x) == ParentOf(rt, x))
  {
    var u := Attached(t, p, lt, rt).0;
    AttachReplaced(t, p, lt, rt);
    AttachShape(t, p, lt, rt);
    AttachLinks(t, p, lt, rt);
    InArena(rt);
    assert rt.size != 0;
    AttachArena(t, p, lt, rt);
    assert u.heap[x] == if Some(x) == rt.root then rt.heap[x].(parent := Some(p)) else rt.heap[x];
    SameSlot(rt, u, x);
  }

  /** attach writes only `p`'s child links and the donor roots' parent
      links. */
  lemma AttachKeeps<E>(t: LinkedTree<E>, p: Ref, lt: LinkedTree<E>, rt: LinkedTree<E>)
    requires Attachable(t, p, lt, rt)
    ensures var u := Attached(t, p, lt, rt).0;
      && Valid(u) && Root(u) == Root(t) && ParentOf(u, p) == ParentOf(t, p)
      && (forall x :: x in Ids(t.shape) && x != p ==> SameBelow(t, u, x) && ParentOf(u, x) == ParentOf(t, x))
      && (forall x :: x in Ids(lt.shape) ==> SameBelow(lt, u, x) && (Some(x) != Root(lt) ==> ParentOf(u, x) == ParentOf(lt, x)))
      && (forall x :: x in Ids(rt.shape) ==> SameBelow(rt, u, x) && (Some(x) != Root(rt) ==> ParentOf(u, x) == ParentOf(rt, x)))
  {
    var u := Attached(t, p, lt, rt).0;
    AttachReplaced(t, p, lt, rt);
    AttachKeepsHost(t, p, lt, rt, p);
    forall x | x in Ids(t.shape) && x != p
      ensures SameBelow(t, u, x) && ParentOf(u, x) == ParentOf(t, x)
    {
      AttachKeepsHost(t, p, lt, rt, x);
    }
    forall x | x in Ids(lt.shape)
      ensures SameBelow(lt, u, x) && (Some(x) != Root(lt) ==> ParentOf(u, x) == ParentOf(lt, x))
    {
      AttachKeepsLeft(t, p, lt, rt, x);
    }
    forall x | x in Ids(rt.shape)
      ensures SameBelow(rt, u, x) && (Some(x) != Root(rt) ==> ParentOf(u, x) == ParentOf(rt, x))
    {
      AttachKeepsRight(t, p, lt, rt, x);
    }
  }

  lemma AttachCorrect<E>(t: LinkedTree<E>, p: Ref, lt: LinkedTree<E>, rt: LinkedTree<E>)
    requires Attachable(t, p, lt, rt)
    ensures var (u, l2, r2) := Attached(t, p, lt, rt); var s := Sub(t.shape, p);
      Valid(u) && Valid(l2) && Valid(r2) && IsEmpty(l2) && IsEmpty(r2)
      && u.size == t.size + lt.size + rt.size
      && s.Node? && Sub(u.shape, p) == Node(lt.shape, p, s.element, rt.shape)
      && u.shape == Put(t.shape, p, Node(lt.shape, p, s.element, rt.shape))
      && LeftOf(u, p) == Ok(Root(lt)) && RightOf(u, p) == Ok(Root(rt))
      && Ids(u.shape) == Ids(t.shape) + Ids(lt.shape) + Ids(rt.shape)
      && InOrder(u.shape) == Before(t.shape, p) + InOrder(lt.shape) + [p] + InOrder(rt.shape) + After(t.shape, p)
      && Root(u) == Root(t) && ParentOf(u, p) == ParentOf(t, p)
      && (forall x :: x in Ids(t.shape) && x != p ==> SameBelow(t, u, x) && ParentOf(u, x) == ParentOf(t, x))
      && (forall x :: x in Ids(lt.shape) ==> SameBelow(lt, u, x) && (Some(x) != Root(lt) ==> ParentOf(u, x) == ParentOf(lt, x)))
      && (forall x :: x in Ids(rt.shape) ==> SameBelow(rt, u, x) && (Some(x) != Root(rt) ==> ParentOf(u, x) == ParentOf(rt, x)))
  {
    AttachReplaced(t, p, lt, rt);
    AttachShape(t, p, lt, rt);
    AttachReads(t, p, lt, rt);
    AttachKeeps(t, p, lt, rt);
  }

  /** remove (lines 136-162): a node with at most one child is spliced
      out, its child (or null) taking its place below its parent or as the
      root; the node is marked removed and its element returned. */
  function Remove<E>(t: LinkedTree<E>, p: Ref): (r: Outcome<(LinkedTree<E>, E)>)
    requires Valid(t)
    ensures r.Ok? <==> NumChildren(t, p).Ok? && NumChildren(t, p).value < 2
    ensures r.Throws? ==> r.error == IllegalArgument
    ensures r.Ok? ==> var (u, e) := r.value; var s := Sub(t.shape, p);
      Valid(u) && s.Node? && e == s.element && u.size == t.size - 1
      && Ids(u.shape) == Ids(t.shape) - {p}
      && Validate(u, p) == Throws(IllegalArgument)
      && InOrder(u.shape) == Without(InOrder(t.shape), p)
      && (Promoted(s).Node? ==> ParentOf(u, Promoted(s).id) == ParentOf(t, p))
      && Root(u) == (if Root(t) == Some(p) then Top(Promoted(s)) else Root(t))
      && u.shape == Put(t.shape, p, Promoted(s))
      && (forall x :: x in Ids(u.shape) ==> ParentOf(u, x) == (if Some(x) == Top(Promoted(s)) then ParentOf(t, p) else ParentOf(t, x)))
      && (forall x :: x in Ids(u.shape) && Some(x) != Parent(t.shape, None, p) ==> SameBelow(t, u, x))
      && (Parent(t.shape, None, p).Some? ==>
            var q := Parent(t.shape, None, p).value;
            && q in Ids(u.shape) && Sub(t.shape, q).Node? && Sub(u.shape, q).Node?
            && Sub(u.shape, q).element == Sub(t.shape, q).element
            && LeftOf(u, q) == (if LeftOf(t, q) == Ok(Some(p)) then Ok(Top(Promoted(s))) else LeftOf(t, q))
            && RightOf(u, q) == (if LeftOf(t, q) == Ok(Some(p)) then RightOf(t, q) else Ok(Top(Promoted(s)))))
  {
    var node := Validate(t, p);
    if node.Throws? then Throws(node.error)
    else if NumChildren(t, p).value == 2 then Throws(IllegalArgument)
    else
      RemoveCorrect(t, p);
      Ok((Removed(t, p), t.heap[p].element))
  }

  /** A node with fewer than two children, of a valid tree. */
  ghost predicate Removable<E>(t: LinkedTree<E>, p: Ref) {
    Valid(t) && p in Ids(t.shape) && Sub(t.shape, p).Node?
    && (Sub(t.shape, p).left == Nil || Sub(t.shape, p).right == Nil)
  }

  /** The links around a removable node that remove reads and writes. */
  lemma RemoveLinks<E>(t: LinkedTree<E>, p: Ref)
    requires Removable(t, p)
    ensures p in t.heap && t.heap[p].Live?
    ensures var slot := t.heap[p]; var s := Sub(t.shape, p);
      var child := if slot.left.Some? then slot.left else slot.right;
      child == Top(Promoted(s)) && slot.element == s.element
      && slot.parent == Parent(t.shape, None, p)
      && (child.Some? ==> child.value in t.heap && t.heap[child.value].Live? && child.value != p
                          && Parent(t.shape, None, child.value) == Some(p) && Sub(t.shape, child.value) == Promoted(s))
      && (Some(p) != t.root ==>
            slot.parent.Some? && slot.parent.value in t.heap && t.heap[slot.parent.value].Live?
            && slot.parent.value != p && child != slot.parent)
  {
    var v := t.shape;
    var s := Sub(v, p);
    InArena(t);
    SubTop(v, p);
    SubUnique(v, p);
    RepresentsAt(t.heap, v, None, p);
    ChildLinks(t, p);
    if p != v.id {
      ParentSlot(t.heap, v, None, p);
    }
  }

  /** The tree after remove spliced out `p`. */
  function Removed<E>(t: LinkedTree<E>, p: Ref): LinkedTree<E>
    requires Removable(t, p)
  {
    RemoveLinks(t, p);
    var slot := t.heap[p];
    var child := if slot.left.Some? then slot.left else slot.right;
    var h1 := if child.Some? then t.heap[child.value := t.heap[child.value].(parent := slot.parent)] else t.heap;
    var h2 := if Some(p) == t.root then h1
              else h1[slot.parent.value := Relink(h1[slot.parent.value], p, child)];
    LinkedTree(h2[p := Defunct], if Some(p) == t.root then child else t.root, t.size - 1,
               Put(t.shape, p, Promoted(Sub(t.shape, p))), t.free)
  }

  /** remove leaves a valid tree. */
  lemma RemoveValid<E>(t: LinkedTree<E>, p: Ref)
    requires Removable(t, p)
    ensures Valid(Removed(t, p))
  {
    var v := t.shape;
    var c := Promoted(Sub(v, p));
    RemovedParts(t, p);
    RemovedChild(t, p);
    RemovedOutside(t, p);
    RemovedLive(t, p);
    Replaced(t, Removed(t, p), p, c);
  }

  /** The node remove takes out and the child it promotes: the child's nodes
      are the subtree's without `p`, and outside the subtree. */
  lemma RemovedParts<E>(t: LinkedTree<E>, p: Ref)
    requires Removable(t, p)
    ensures var s := Sub(t.shape, p); var c := Promoted(s);
      s.Node? && s.id == p && Unique(c) && Ids(s) == {p} + Ids(c) && p !in Ids(c)
      && Ids(c) !! Outside(t.shape, p)
      && Count(c) == Count(s) - 1
  {
    var s := Sub(t.shape, p);
    SubTop(t.shape, p);
    SubUnique(t.shape, p);
  }

  /** remove writes only `p`, its parent and its promoted child. */
  lemma RemovedWrites<E>(t: LinkedTree<E>, p: Ref)
    requires Removable(t, p)
    ensures p in t.heap && t.heap[p].Live?
    ensures var slot := t.heap[p];
      var child := if slot.left.Some? then slot.left else slot.right;
      forall k :: k != p && Some(k) != slot.parent && Some(k) != child ==> Kept(t.heap, Removed(t, p).heap, k)
  {
    RemoveLinks(t, p);
  }

  /** The promoted child hangs below `p`'s old parent. */
  lemma RemovedChild<E>(t: LinkedTree<E>, p: Ref)
    requires Removable(t, p)
    ensures Represents(Removed(t, p).heap, Promoted(Sub(t.shape, p)), Parent(t.shape, None, p))
  {
    var v := t.shape;
    var s := Sub(v, p);
    var c := Promoted(s);
    var u := Removed(t, p);
    if c.Node? {
      RemoveLinks(t, p);
      RemovedParts(t, p);
      RemovedWrites(t, p);
      if p != v.id {
        ParentSlot(t.heap, v, None, p);
      }
      RepresentsAt(t.heap, v, None, c.id);
      assert forall k :: k in Ids(c) && k != c.id ==> Kept(t.heap, u.heap, k);
      Reparent(t.heap, u.heap, c, Some(p), Parent(v, None, p));
    }
  }

  /** Outside the subtree only the parent's link changes, and it now points
      at the promoted child. */
  lemma RemovedOutside<E>(t: LinkedTree<E>, p: Ref)
    requires Removable(t, p)
    ensures var v := t.shape; var u := Removed(t, p); var c := Promoted(Sub(v, p));
      && (p != v.id ==>
            (Parent(v, None, p).Some?
             && var q := Parent(v, None, p).value;
                q in t.heap && t.heap[q].Live? && q in u.heap && u.heap[q] == Relink(t.heap[q], p, Top(c))))
      && forall k :: k in Outside(v, p) && Some(k) != Parent(v, None, p) ==> Kept(t.heap, u.heap, k)
  {
    var v := t.shape;
    RemoveLinks(t, p);
    RemovedParts(t, p);
    RemovedWrites(t, p);
    if p != v.id {
      ParentSlot(t.heap, v, None, p);
    }
  }

  /** After remove the live nodes are those outside the subtree and the
      promoted child's. */
  lemma RemovedLive<E>(t: LinkedTree<E>, p: Ref)
    requires Removable(t, p)
    ensures var u := Removed(t, p); var c := Promoted(Sub(t.shape, p));
      forall k :: k in u.heap ==> k < u.free && (u.heap[k].Live? <==> k in Outside(t.shape, p) + Ids(c))
  {
    var u := Removed(t, p);
    RemoveLinks(t, p);
    RemovedParts(t, p);
    SubTop(t.shape, p);
    assert u.heap.Keys == t.heap.Keys;
    forall k | k in u.heap ensures u.heap[k].Live? <==> k != p && t.heap[k].Live? {
      RemovedSlot(t, p, k);
    }
    assert Outside(t.shape, p) + Ids(Promoted(Sub(t.shape, p))) == Ids(t.shape) - {p};
  }

  /** remove retires the slot of `p` and leaves every other slot live or
      free as it was. */
  lemma RemovedSlot<E>(t: LinkedTree<E>, p: Ref, k: Ref)
    requires Removable(t, p) && k in t.heap
    ensures k in Removed(t, p).heap && (Removed(t, p).heap[k].Live? <==> k != p && t.heap[k].Live?)
  {
    RemoveLinks(t, p);
    RemovedWrites(t, p);
  }

  /** What remove does to one remaining node `x`: the promoted child takes
      `p`'s parent, `p`'s parent has its link to `p` redirected to the
      promoted child, and nothing else changes. */
  lemma RemoveKeepsAt<E>(t: LinkedTree<E>, p: Ref, x: Ref)
    requires Removable(t, p) && Valid(Removed(t, p)) && x in Ids(t.shape) && x != p
    requires Ids(Removed(t, p).shape) == Ids(t.shape) - {p}
    ensures var u := Removed(t, p); var c := Top(Promoted(Sub(t.shape, p)));
      && ParentOf(u, x) == (if Some(x) == c then ParentOf(t, p) else ParentOf(t, x))
      && (Some(x) != Parent(t.shape, None, p) ==> SameBelow(t, u, x))
      && (Some(x) == Parent(t.shape, None, p) ==>
            && Sub(t.shape, x).Node? && Sub(u.shape, x).Node? && Sub(u.shape, x).element == Sub(t.shape, x).element
            && LeftOf(u, x) == (if LeftOf(t, x) == Ok(Some(p)) then Ok(c) else LeftOf(t, x))
            && RightOf(u, x) == (if LeftOf(t, x) == Ok(Some(p)) then RightOf(t, x) else Ok(c)))
  {
    var u := Removed(t, p);
    RemoveLinks(t, p);
    RemovedWrites(t, p);
    InArena(t);
    var slot := t.heap[p];
    var child := if slot.left.Some? then slot.left else slot.right;
    RepresentsAt(t.heap, t.shape, None, x);
    RepresentsAt(u.heap, u.shape, None, x);
    if Some(x) == slot.parent {
      ParentSlot(t.heap, t.shape, None, p);
      assert u.heap[x] == Relink(t.heap[x], p, child);
    } else if Some(x) == child {
      assert u.heap[x] == t.heap[x].(parent := slot.parent);
      SameSlot(t, u, x);
    } else {
      SameSlot(t, u, x);
    }
  }

  /** remove changes only `p`'s parent link of the promoted child and the
      link from `p`'s parent down to `p`: every remaining node keeps its
      element, and every other link is kept. */
  lemma RemoveKeeps<E>(t: LinkedTree<E>, p: Ref)
    requires Removable(t, p)
    ensures var u := Removed(t, p); var c := Top(Promoted(Sub(t.shape, p)));
      && Valid(u) && Ids(u.shape) == Ids(t.shape) - {p}
      && (forall x :: x in Ids(u.shape) ==> ParentOf(u, x) == (if Some(x) == c then ParentOf(t, p) else ParentOf(t, x)))
      && (forall x :: x in Ids(u.shape) && Some(x) != Parent(t.shape, None, p) ==> SameBelow(t, u, x))
      && (Parent(t.shape, None, p).Some? ==>
            var q := Parent(t.shape, None, p).value;
            && q in Ids(u.shape) && Sub(t.shape, q).Node? && Sub(u.shape, q).Node?
            && Sub(u.shape, q).element == Sub(t.shape, q).element
            && LeftOf(u, q) == (if LeftOf(t, q) == Ok(Some(p)) then Ok(c) else LeftOf(t, q))
            && RightOf(u, q) == (if LeftOf(t, q) == Ok(Some(p)) then RightOf(t, q) else Ok(c)))
  {
    var v := t.shape;
    SubTop(v, p);
    RemoveValid(t, p);
    SpliceIds(v, p);
    var u := Removed(t, p);
    forall x | x in Ids(u.shape)
      ensures ParentOf(u, x) == (if Some(x) == Top(Promoted(Sub(v, p))) then ParentOf(t, p) else ParentOf(t, x))
      ensures Some(x) != Parent(v, None, p) ==> SameBelow(t, u, x)
    {
      RemoveKeepsAt(t, p, x);
    }
    if Parent(v, None, p).Some? {
      var q := Parent(v, None, p).value;
      RemoveLinks(t, p);
      ParentInside(v, None, p);
      RemoveKeepsAt(t, p, q);
    }
  }

  lemma RemoveCorrect<E>(t: LinkedTree<E>, p: Ref)
    requires Valid(t) && p in Ids(t.shape) && NumChildren(t, p).Ok? && NumChildren(t, p).value < 2
    ensures Removable(t, p) && p in t.heap && t.heap[p].Live?
    ensures var u := Removed(t, p); var s := Sub(t.shape, p);
      Valid(u) && s.Node? && t.heap[p].element == s.element && u.size == t.size - 1
      && Ids(u.shape) == Ids(t.shape) - {p}
      && Validate(u, p) == Throws(IllegalArgument)
      && InOrder(u.shape) == Without(InOrder(t.shape), p)
      && (Promoted(s).Node? ==> ParentOf(u, Promoted(s).id) == ParentOf(t, p))
      && Root(u) == (if Root(t) == Some(p) then Top(Promoted(s)) else Root(t))
      && u.shape == Put(t.shape, p, Promoted(s))
      && (forall x :: x in Ids(u.shape) ==> ParentOf(u, x) == (if Some(x) == Top(Promoted(s)) then ParentOf(t, p) else ParentOf(t, x)))
      && (forall x :: x in Ids(u.shape) && Some(x) != Parent(t.shape, None, p) ==> SameBelow(t, u, x))
      && (Parent(t.shape, None, p).Some? ==>
            var q := Parent(t.shape, None, p).value;
            && q in Ids(u.shape) && Sub(t.shape, q).Node? && Sub(u.shape, q).Node?
            && Sub(u.shape, q).element == Sub(t.shape, q).element
            && LeftOf(u, q) == (if LeftOf(t, q) == Ok(Some(p)) then Ok(Top(Promoted(s))) else LeftOf(t, q))
            && RightOf(u, q) == (if LeftOf(t, q) == Ok(Some(p)) then RightOf(t, q) else Ok(Top(Promoted(s)))))
  {
    var v := t.shape;
    var s := Sub(v, p);
    var c := Promoted(s);
    SubTop(v, p);
    RemoveLinks(t, p);
    RemoveValid(t, p);
    var u := Removed(t, p);
    SpliceIds(v, p);
    SpliceInOrder(v, p);
    if c.Node? {
      RepresentsAt(u.heap, u.shape, None, c.id);
    }
    RemoveKeeps(t, p);
  }

  // ---------------------------------------------------------------------
  // depth and height (tree/Tree.java)

  /** depth (tree/Tree.java, lines 39-46): the number of parent steps up
      to the root. A removed node is not the root, so the first parent call
      rejects it. */
  method DepthOf<E>(t: LinkedTree<E>, p: Ref) returns (r: Outcome<nat>)
    requires Valid(t)
    ensures r.Throws? <==> p !in Ids(t.shape)
    ensures r.Throws? ==> r.error == IllegalArgument
    ensures r.Ok? ==> r.value == Depth(t.shape, p)
  {
    var d := 0;
    var x := p;
    while !IsRoot(t, x)
      invariant p !in Ids(t.shape) ==> x == p && d == 0
      invariant p in Ids(t.shape) ==> x in Ids(t.shape) && d + Depth(t.shape, x) == Depth(t.shape, p)
      decreases if x in Ids(t.shape) then Depth(t.shape, x) else 0
    {
      var up := ParentOf(t, x);
      if up.Throws? || up.value.None? {
        return Throws(IllegalArgument);
      }
      d := d + 1;
      x := up.value.value;
    }
    return Ok(d);
  }

  /** The largest of `1 + height` over the subtrees topped by `kids`, or 0
      when there are none: the fold of lines 50-52. */
  ghost function Tallest<E>(v: Shape<E>, kids: seq<Ref>): nat {
    if kids == [] then 0
    else
      var a := Tallest(v, kids[..|kids| - 1]);
      var b := 1 + Height(Sub(v, kids[|kids| - 1]));
      if a < b then b else a
  }

  /** height (tree/Tree.java, lines 48-54): 0 for a leaf, otherwise one more
      than the tallest child's height. */
  method HeightOf<E>(t: LinkedTree<E>, p: Ref) returns (r: Outcome<nat>)
    requires Valid(t)
    ensures r.Throws? <==> p !in Ids(t.shape)
    ensures r.Throws? ==> r.error == IllegalArgument
    ensures r.Ok? ==> r.value == Height(Sub(t.shape, p))
    decreases if p in Ids(t.shape) then Count(Sub(t.shape, p)) else 0
  {
    var cs := Children(t, p);
    if cs.Throws? {
      return Throws(cs.error);
    }
    var kids := cs.value;
    KidsSmaller(t, p, kids);
    var h := 0;
    var i := 0;
    while i < |kids|
      invariant 0 <= i <= |kids|
      invariant h == Tallest(t.shape, kids[..i])
    {
      assert kids[..i + 1][..i] == kids[..i] && kids[..i + 1][i] == kids[i];
      var c := HeightOf(t, kids[i]);
      h := Max(h, 1 + c.value);
      i := i + 1;
    }
    assert kids[..|kids|] == kids;
    TallestChildren(t, p, kids);
    return Ok(h);
  }

  /** Every child of `p` is a node whose subtree is smaller than `p`'s. */
  lemma KidsSmaller<E>(t: LinkedTree<E>, p: Ref, kids: seq<Ref>)
    requires Valid(t) && p in Ids(t.shape)
    requires Children(t, p) == Ok(kids)
    ensures forall i :: 0 <= i < |kids| ==>
      kids[i] in Ids(t.shape) && Count(Sub(t.shape, kids[i])) < Count(Sub(t.shape, p))
  {
    forall i | 0 <= i < |kids|
      ensures kids[i] in Ids(t.shape) && Count(Sub(t.shape, kids[i])) < Count(Sub(t.shape, p))
    {
      assert kids[i] in kids;
    }
  }

  /** Folding over the children gives the height of the subtree. */
  lemma TallestChildren<E>(t: LinkedTree<E>, p: Ref, kids: seq<Ref>)
    requires Valid(t) && p in Ids(t.shape)
    requires Children(t, p) == Ok(kids)
    ensures Tallest(t.shape, kids) == Height(Sub(t.shape, p))
  {
    var s := Sub(t.shape, p);
    ChildLinks(t, p);
    assert LeftOf(t, p) == Ok(Top(s.left)) && RightOf(t, p) == Ok(Top(s.right));
    TallestOfNode(t.shape, s, kids);
  }

  /** The fold over a node's children, listed left first, gives the node's
      height. */
  lemma TallestOfNode<E>(v: Shape<E>, s: Shape<E>, kids: seq<Ref>)
    requires s.Node?
    requires s.left.Node? ==> Sub(v, s.left.id) == s.left
    requires s.right.Node? ==> Sub(v, s.right.id) == s.right
    requires kids == (if s.left.Node? then [s.left.id] else []) + (if s.right.Node? then [s.right.id] else [])
    ensures Tallest(v, kids) == Height(s)
  {
    var hl := if s.left.Nil? then 0 else 1 + Height(s.left);
    if s.left.Node? && s.right.Node? {
      assert kids[..1] == [s.left.id] && kids[..1][..0] == [];
      assert Tallest(v, kids[..1]) == hl;
    } else if s.left.Node? {
      assert kids[..0] == [];
    } else if s.right.Node? {
      assert kids[..0] == [];
    }
  }

  /** A live node's slot holds the element its subtree is topped with. */
  lemma ElementAt<E>(t: LinkedTree<E>, x: Ref)
    requires Valid(t) && x in Ids(t.shape)
    ensures x in t.heap && t.heap[x].Live? && Sub(t.shape, x).Node?
    ensures t.heap[x].element == Sub(t.shape, x).element
  {
    RepresentsAt(t.heap, t.shape, None, x);
  }

  /** Elements read from the slots of live nodes are the elements their
      subtrees are topped with. */
  lemma ElementsAt<E>(t: LinkedTree<E>, ps: seq<Ref>)
    requires Valid(t)
    requires forall x :: x in ps ==> x in Ids(t.shape)
    ensures forall j :: 0 <= j < |ps| ==> ps[j] in t.heap && t.heap[ps[j]].Live?
    ensures forall j :: 0 <= j < |ps| ==> Sub(t.shape, ps[j]).Node? && t.heap[ps[j]].element == Sub(t.shape, ps[j]).element
  {
    forall j | 0 <= j < |ps|
      ensures ps[j] in t.heap && t.heap[ps[j]].Live?
      ensures Sub(t.shape, ps[j]).Node? && t.heap[ps[j]].element == Sub(t.shape, ps[j]).element
    {
      ElementAt(t, ps[j]);
    }
  }

  // ---------------------------------------------------------------------
  // The lazy in-order iterator (lines 216-284)

  /** The state of a node iterator: how many nodes it has handed out and
      its stack of pending nodes, the top last. */
  datatype Iter = Iter(visited: nat, stack: seq<Ref>)

  /** The nodes a stack still owes, in order: each pending node followed by
      its right subtree, from the top of the stack down. */
  ghost function Pending<E>(v: Shape<E>, st: seq<Ref>): seq<Ref> {
    if st == [] then []
    else
      var x := st[|st| - 1];
      [x] + (InOrder(RightSub(Sub(v, x))) + Pending(v, st[..|st| - 1]))
  }

  /** An iterator state reachable on `t`: it owes exactly the in-order
      nodes not handed out yet. An empty stack before the first call is
      filled from the root on demand. */
  ghost predicate IterOk<E>(t: LinkedTree<E>, it: Iter) {
    it.visited <= Count(t.shape)
    && (forall i :: 0 <= i < |it.stack| ==> it.stack[i] in Ids(t.shape))
    && ((it.stack == [] && it.visited == 0) || Pending(t.shape, it.stack) == InOrder(t.shape)[it.visited..])
  }

  /** nodeIterator's constructor (lines 253-256), as returned by nodes()
      (lines 240-244). */
  function NewIter<E>(t: LinkedTree<E>): (it: Iter)
    requires Valid(t)
    ensures IterOk(t, it) && it.visited == 0
  {
    Iter(0, [])
  }

  /** hasNext (lines 258-261): some node is still owed. */
  function HasNext<E>(t: LinkedTree<E>, it: Iter): (b: bool)
    requires Valid(t) && IterOk(t, it)
    ensures b <==> it.visited < |InOrder(t.shape)|
  {
    it.visited != t.size
  }

  /** The left spine walk of lines 270-273 and 276-279: pushes `node` and
      its left descendants, so the stack also owes that whole subtree. */
  method PushLeft<E>(t: LinkedTree<E>, stack: seq<Ref>, node: Option<Ref>) returns (st: seq<Ref>)
    requires Valid(t)
    requires forall i :: 0 <= i < |stack| ==> stack[i] in Ids(t.shape)
    requires node.Some? ==> node.value in Ids(t.shape)
    ensures forall i :: 0 <= i < |st| ==> st[i] in Ids(t.shape)
    ensures Pending(t.shape, st) == InOrder(At(t.shape, node)) + Pending(t.shape, stack)
    ensures node.Some? ==> st != []
  {
    st := stack;
    var x := node;
    ghost var w := At(t.shape, node);
    if node.Some? {
      SubTop(t.shape, node.value);
    }
    while x.Some?
      invariant x == Top(w)
      invariant x.Some? ==> x.value in Ids(t.shape) && Sub(t.shape, x.value) == w
      invariant forall i :: 0 <= i < |st| ==> st[i] in Ids(t.shape)
      invariant InOrder(w) + Pending(t.shape, st) == InOrder(At(t.shape, node)) + Pending(t.shape, stack)
      invariant node.Some? ==> st != [] || x == node
      decreases Count(w)
    {
      ChildLinks(t, x.value);
      PushStep(t.shape, st, x.value);
      st := st + [x.value];
      var l := LeftOf(t, x.value);
      x := l.value;
      w := w.left;
    }
  }

  /** next (lines 263-283): the next node in order, or NoSuchElement once
      every node has been handed out. */
  method Next<E>(t: LinkedTree<E>, it: Iter) returns (r: Outcome<(Iter, Ref)>)
    requires Valid(t) && IterOk(t, it)
    ensures r.Throws? <==> it.visited == Size(t)
    ensures r.Throws? ==> r.error == NoSuchElement
    ensures r.Ok? ==>
      IterOk(t, r.value.0) && r.value.0.visited == it.visited + 1
      && r.value.1 == InOrder(t.shape)[it.visited]
  {
    if !HasNext(t, it) {
      return Throws(NoSuchElement);
    }
    var it', res := Advance(t, it);
    return Ok((it', res));
  }

  /** The body of next once a node is left: pop it and push the left spine
      of its right subtree. */
  method Advance<E>(t: LinkedTree<E>, it: Iter) returns (it': Iter, res: Ref)
    requires Valid(t) && IterOk(t, it) && it.visited < |InOrder(t.shape)|
    ensures IterOk(t, it') && it'.visited == it.visited + 1
    ensures res == InOrder(t.shape)[it.visited]
  {
    var stack := Filled(t, it);
    res := stack[|stack| - 1];
    var st := PushRight(t, stack[..|stack| - 1], res);
    NextOwes(t, it.visited, stack, st);
    it' := Iter(it.visited + 1, st);
  }

  /** The stack next() pops from: the iterator's own, or on the first
      call the left spine from the root (lines 266-274). */
  method Filled<E>(t: LinkedTree<E>, it: Iter) returns (stack: seq<Ref>)
    requires Valid(t) && IterOk(t, it) && it.visited < Count(t.shape)
    ensures stack != [] && forall i :: 0 <= i < |stack| ==> stack[i] in Ids(t.shape)
    ensures Pending(t.shape, stack) == InOrder(t.shape)[it.visited..]
  {
    stack := it.stack;
    if stack == [] {
      stack := PushLeft(t, stack, t.root);
      assert At(t.shape, t.root) == t.shape;
    }
  }

  /** Lines 275-280: after `x` is handed out, the left spine of its right
      subtree goes on the stack, which then also owes that subtree. */
  method PushRight<E>(t: LinkedTree<E>, rest: seq<Ref>, x: Ref) returns (st: seq<Ref>)
    requires Valid(t) && x in Ids(t.shape)
    requires forall i :: 0 <= i < |rest| ==> rest[i] in Ids(t.shape)
    ensures forall i :: 0 <= i < |st| ==> st[i] in Ids(t.shape)
    ensures Pending(t.shape, st) == InOrder(RightSub(Sub(t.shape, x))) + Pending(t.shape, rest)
  {
    var right := RightOf(t, x);
    RightAt(t, x);
    st := PushLeft(t, rest, right.value);
  }

  /** The subtree below the right link of `x` is `x`'s right subtree. */
  lemma RightAt<E>(t: LinkedTree<E>, x: Ref)
    requires Valid(t) && x in Ids(t.shape)
    ensures RightOf(t, x).Ok? && At(t.shape, RightOf(t, x).value) == RightSub(Sub(t.shape, x))
  {
    ChildLinks(t, x);
  }

  /** After the top of the stack is handed out and its right subtree's
      left spine pushed, the new stack owes the nodes after it. */
  lemma NextOwes<E>(t: LinkedTree<E>, k: nat, stack: seq<Ref>, st: seq<Ref>)
    requires k < Count(t.shape) && k < |InOrder(t.shape)| && stack != []
    requires Pending(t.shape, stack) == InOrder(t.shape)[k..]
    requires forall i :: 0 <= i < |st| ==> st[i] in Ids(t.shape)
    requires Pending(t.shape, st) ==
      InOrder(RightSub(Sub(t.shape, stack[|stack| - 1]))) + Pending(t.shape, stack[..|stack| - 1])
    ensures IterOk(t, Iter(k + 1, st)) && stack[|stack| - 1] == InOrder(t.shape)[k]
  {
    PendingPop(t.shape, stack, k);
  }

  /** Popping the top of a stack that owes the in-order nodes from `k` on
      hands out node `k` and leaves the rest owed. */
  lemma PendingPop<E>(v: Shape<E>, stack: seq<Ref>, k: nat)
    requires stack != [] && k < |InOrder(v)|
    requires Pending(v, stack) == InOrder(v)[k..]
    ensures stack[|stack| - 1] == InOrder(v)[k]
    ensures InOrder(RightSub(Sub(v, stack[|stack| - 1]))) + Pending(v, stack[..|stack| - 1]) == InOrder(v)[k + 1..]
  {
    var top := stack[|stack| - 1];
    var owed := InOrder(RightSub(Sub(v, top))) + Pending(v, stack[..|stack| - 1]);
    var tail := InOrder(v)[k..];
    assert tail == [top] + owed;
    assert tail[0] == InOrder(v)[k];
    assert tail[1..] == InOrder(v)[k + 1..];
  }

  /** Pushing `x` trades its subtree for its left subtree plus what the
      stack then owes. */
  lemma PushStep<E>(v: Shape<E>, st: seq<Ref>, x: Ref)
    requires Sub(v, x).Node? && Sub(v, x).id == x
    ensures InOrder(Sub(v, x).left) + Pending(v, st + [x]) == InOrder(Sub(v, x)) + Pending(v, st)
  {
    var st2 := st + [x];
    assert st2[..|st2| - 1] == st;
    var w := Sub(v, x);
    assert Pending(v, st2) == [x] + (InOrder(w.right) + Pending(v, st));
  }

  /** The node iterator run to the end (lines 240-284): every node once, in
      in-order, as many as the tree's size. */
  method Nodes<E>(t: LinkedTree<E>) returns (ps: seq<Ref>)
    requires Valid(t)
    ensures ps == InOrder(t.shape)
    ensures |ps| == Size(t) && Distinct(ps)
    ensures forall x :: x in ps <==> x in Ids(t.shape)
  {
    var it := NewIter(t);
    ps := [];
    while HasNext(t, it)
      invariant IterOk(t, it)
      invariant ps == InOrder(t.shape)[..it.visited]
      decreases Size(t) - it.visited
    {
      var r := Next(t, it);
      assert InOrder(t.shape)[..it.visited + 1] == ps + [r.value.1];
      ps := ps + [r.value.1];
      it := r.value.0;
    }
    assert ps == InOrder(t.shape);
    InOrderIds(t.shape);
  }

  /** The element iterator (lines 216-238): the elements of the nodes in
      in-order. */
  method Elements<E>(t: LinkedTree<E>) returns (es: seq<E>)
    requires Valid(t)
    ensures |es| == Size(t)
    ensures forall i :: 0 <= i < |es| ==> Sub(t.shape, InOrder(t.shape)[i]).Node? && es[i] == Sub(t.shape, InOrder(t.shape)[i]).element
  {
    var ps := Nodes(t);
    ElementsAt(t, ps);
    es := Gather(t.heap, ps);
  }

  /** The elements of the live nodes `ps`, in the same order. */
  method Gather<E>(heap: map<Ref, Slot<E>>, ps: seq<Ref>) returns (es: seq<E>)
    requires forall j :: 0 <= j < |ps| ==> ps[j] in heap && heap[ps[j]].Live?
    ensures |es| == |ps| && forall j :: 0 <= j < |ps| ==> es[j] == heap[ps[j]].element
  {
    es := [];
    var i := 0;
    while i < |ps|
      invariant 0 <= i <= |ps| && |es| == i
      invariant forall j :: 0 <= j < i ==> es[j] == heap[ps[j]].element
    {
      es := es + [heap[ps[i]].element];
      i := i + 1;
    }
  }
}
