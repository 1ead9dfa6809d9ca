/** The binary search tree shared by bst/AvlTree.java, bst/RedBlackTree.java
    and bst/SplayTree.java. A node carries a key, a value, the two subtrees
    and per-variant metadata `M` (the AVL height, the red-black colour, or
    nothing for the splay tree). A null child, and the red-black sentinel,
    are `Nil`. Parent links are not stored: every walk up the tree in the
    Java code follows the path a search came down, and the model walks back
    up that path as the recursion returns. */
module SearchTree {
  import opened Common

  datatype Tree<M, V> = Nil | Node(left: Tree<M, V>, key: int, value: V, meta: M, right: Tree<M, V>)

  /** The keys stored in `t`. */
  function Keys<M, V>(t: Tree<M, V>): set<int> {
    match t
    case Nil => {}
    case Node(l, k, _, _, r) => Keys(l) + {k} + Keys(r)
  }

  /** The keys of `t` in in-order (left, node, right). */
  function InOrder<M, V>(t: Tree<M, V>): seq<int> {
    match t
    case Nil => []
    case Node(l, k, _, _, r) => InOrder(l) + [k] + InOrder(r)
  }

  /** The search-tree order: every key of a left subtree is smaller, and
      every key of a right subtree larger, than the node's key. */
  predicate Ordered<M, V>(t: Tree<M, V>) {
    match t
    case Nil => true
    case Node(l, k, _, _, r) =>
      && Ordered(l) && Ordered(r)
      && (forall x :: x in Keys(l) ==> x < k)
      && (forall x :: x in Keys(r) ==> k < x)
  }

  /** The map the tree stands for. */
  function AsMap<M, V>(t: Tree<M, V>): map<int, V> {
    match t
    case Nil => map[]
    case Node(l, k, v, _, r) => (AsMap(l) + AsMap(r))[k := v]
  }

  /** The number of nodes. */
  function Count<M, V>(t: Tree<M, V>): nat {
    match t
    case Nil => 0
    case Node(l, _, _, _, r) => Count(l) + 1 + Count(r)
  }

  /** The map has exactly the tree's keys. */
  lemma {:induction false} AsMapKeys<M, V>(t: Tree<M, V>)
    ensures AsMap(t).Keys == Keys(t)
  {
    if t.Node? {
      AsMapKeys(t.left);
      AsMapKeys(t.right);
    }
  }

  /** An ordered tree has one key per node. */
  lemma {:induction false} CountKeys<M, V>(t: Tree<M, V>)
    requires Ordered(t)
    ensures Count(t) == |Keys(t)| == |AsMap(t)|
  {
    AsMapKeys(t);
    if t.Node? {
      CountKeys(t.left);
      CountKeys(t.right);
      SplitCard(Keys(t.left), t.key, Keys(t.right));
    }
  }

  /** Keys below `k`, `k` itself and keys above it are disjoint, so their
      numbers add up. */
  lemma SplitCard(a: set<int>, k: int, b: set<int>)
    requires forall x :: x in a ==> x < k
    requires forall x :: x in b ==> k < x
    ensures |a + {k} + b| == |a| + 1 + |b|
  {
    assert k !in a;
    assert |a + {k}| == |a| + 1;
    assert (a + {k}) !! b by {
      forall x | x in a + {k} ensures x !in b {
      }
    }
  }

  /** In an ordered tree the map answers from the subtree the key belongs to. */
  lemma AsMapNode<M, V>(t: Tree<M, V>, x: int)
    requires t.Node? && Ordered(t)
    ensures x < t.key ==> Lookup(AsMap(t), x) == Lookup(AsMap(t.left), x)
    ensures x > t.key ==> Lookup(AsMap(t), x) == Lookup(AsMap(t.right), x)
    ensures x == t.key ==> Lookup(AsMap(t), x) == Some(t.value)
  {
    AsMapKeys(t.left);
    AsMapKeys(t.right);
  }

  /** `m.get(k)`: the value, or null when absent. */
  function Lookup<V>(m: map<int, V>, k: int): Option<V> {
    if k in m then Some(m[k]) else None
  }

  /** Two maps that answer every lookup alike are equal. */
  lemma LookupExt<V>(m1: map<int, V>, m2: map<int, V>)
    requires forall k :: Lookup(m1, k) == Lookup(m2, k)
    ensures m1 == m2
  {
    forall k | k in m1 ensures k in m2 && m1[k] == m2[k] {
      assert Lookup(m1, k) == Lookup(m2, k);
    }
    forall k | k in m2 ensures k in m1 {
      assert Lookup(m1, k) == Lookup(m2, k);
    }
  }

  /** The search loop of every variant: from the root, stop at a node whose
      key is `k`, else go right when `k` is larger and left otherwise. The
      result is the node reached, as its subtree, or `Nil`. */
  function Search<M, V>(t: Tree<M, V>, k: int): (r: Tree<M, V>)
    ensures Ordered(t) ==> (r.Nil? <==> k !in Keys(t))
    ensures Ordered(t) && r.Node? ==> r.key == k && Lookup(AsMap(t), k) == Some(r.value)
  {
    match t
    case Nil => Nil
    case Node(l, key, _, _, right) =>
      var r := if k == key then t else if k > key then Search(right, k) else Search(l, k);
      if Ordered(t) then AsMapKeys(t); AsMapNode(t, k); r else r
  }

  /** `get(key)`: the value of the node `search` reaches, or null. */
  function Get<M, V>(t: Tree<M, V>, k: int): (r: Option<V>)
    requires Ordered(t)
    ensures r == Lookup(AsMap(t), k)
  {
    var n := Search(t, k);
    AsMapKeys(t);
    if n.Nil? then None else Some(n.value)
  }

  /** `rotateRight(node)`: the left child `x` is lifted, `node` becomes its
      right child and takes over `x`'s right subtree. `low` and `high` are the
      metadata the two nodes end with. */
  function RotateRight<M, V>(t: Tree<M, V>, low: M, high: M): (r: Tree<M, V>)
    requires t.Node? && t.left.Node?
    ensures r.Node? && r.right.Node?
  {
    var x := t.left;
    Node(x.left, x.key, x.value, high, Node(x.right, t.key, t.value, low, t.right))
  }

  /** `rotateLeft(node)`: the mirror image of `RotateRight`. */
  function RotateLeft<M, V>(t: Tree<M, V>, low: M, high: M): (r: Tree<M, V>)
    requires t.Node? && t.right.Node?
    ensures r.Node? && r.left.Node?
  {
    var y := t.right;
    Node(Node(t.left, t.key, t.value, low, y.left), y.key, y.value, high, y.right)
  }

  /** Rotations keep the in-order key sequence, hence the keys, the map and
      the search-tree order. */
  lemma RotateRightKeeps<M, V>(t: Tree<M, V>, low: M, high: M)
    requires t.Node? && t.left.Node?
    ensures InOrder(RotateRight(t, low, high)) == InOrder(t)
    ensures Keys(RotateRight(t, low, high)) == Keys(t)
    ensures Count(RotateRight(t, low, high)) == Count(t)
    ensures Ordered(t) ==> Ordered(RotateRight(t, low, high)) && AsMap(RotateRight(t, low, high)) == AsMap(t)
  {
    if Ordered(t) {
      RotateRightOrdered(t, low, high);
      RotateRightMap(t, low, high);
    }
  }

  lemma RotateRightOrdered<M, V>(t: Tree<M, V>, low: M, high: M)
    requires t.Node? && t.left.Node? && Ordered(t)
    ensures Ordered(RotateRight(t, low, high))
  {
    var r := RotateRight(t, low, high);
    var x := t.left;
    assert Ordered(x) && x.key in Keys(t.left);
    assert forall z :: z in Keys(x.right) ==> z in Keys(x) && z < t.key;
    assert Ordered(r.right);
    assert forall z :: z in Keys(r.right) ==> x.key < z;
  }

  lemma RotateRightMap<M, V>(t: Tree<M, V>, low: M, high: M)
    requires t.Node? && t.left.Node? && Ordered(t) && Ordered(RotateRight(t, low, high))
    ensures AsMap(RotateRight(t, low, high)) == AsMap(t)
  {
    var r := RotateRight(t, low, high);
    var x := t.left;
    assert x.key in Keys(t.left);
    forall z ensures Lookup(AsMap(r), z) == Lookup(AsMap(t), z) {
      AsMapNode(r, z);
      AsMapNode(t, z);
      if z < x.key {
        AsMapNode(x, z);
      } else if z > x.key {
        AsMapNode(r.right, z);
        if z < t.key {
          AsMapNode(x, z);
        }
      }
    }
    LookupExt(AsMap(r), AsMap(t));
  }

  lemma RotateLeftKeeps<M, V>(t: Tree<M, V>, low: M, high: M)
    requires t.Node? && t.right.Node?
    ensures InOrder(RotateLeft(t, low, high)) == InOrder(t)
    ensures Keys(RotateLeft(t, low, high)) == Keys(t)
    ensures Count(RotateLeft(t, low, high)) == Count(t)
    ensures Ordered(t) ==> Ordered(RotateLeft(t, low, high)) && AsMap(RotateLeft(t, low, high)) == AsMap(t)
  {
    if Ordered(t) {
      RotateLeftOrdered(t, low, high);
      RotateLeftMap(t, low, high);
    }
  }

  lemma RotateLeftOrdered<M, V>(t: Tree<M, V>, low: M, high: M)
    requires t.Node? && t.right.Node? && Ordered(t)
    ensures Ordered(RotateLeft(t, low, high))
  {
    var r := RotateLeft(t, low, high);
    var y := t.right;
    assert Ordered(y) && y.key in Keys(t.right);
    assert forall z :: z in Keys(y.left) ==> z in Keys(y) && t.key < z;
    assert Ordered(r.left);
    assert forall z :: z in Keys(r.left) ==> z < y.key;
  }

  lemma RotateLeftMap<M, V>(t: Tree<M, V>, low: M, high: M)
    requires t.Node? && t.right.Node? && Ordered(t) && Ordered(RotateLeft(t, low, high))
    ensures AsMap(RotateLeft(t, low, high)) == AsMap(t)
  {
    var r := RotateLeft(t, low, high);
    var y := t.right;
    assert y.key in Keys(t.right);
    forall z ensures Lookup(AsMap(r), z) == Lookup(AsMap(t), z) {
      AsMapNode(r, z);
      AsMapNode(t, z);
      if z > y.key {
        AsMapNode(y, z);
      } else if z < y.key {
        AsMapNode(r.left, z);
        if z > t.key {
          AsMapNode(y, z);
        }
      }
    }
    LookupExt(AsMap(r), AsMap(t));
  }

  /** An ordered tree lists its keys in strictly increasing in-order. */
  lemma {:induction false} OrderedInOrder<M, V>(t: Tree<M, V>)
    requires Ordered(t)
    ensures forall i, j :: 0 <= i < j < |InOrder(t)| ==> InOrder(t)[i] < InOrder(t)[j]
    ensures forall i :: 0 <= i < |InOrder(t)| ==> InOrder(t)[i] in Keys(t)
  {
    if t.Node? {
      OrderedInOrder(t.left);
      OrderedInOrder(t.right);
      var a, b := InOrder(t.left), InOrder(t.right);
      assert InOrder(t) == a + [t.key] + b;
      forall i | 0 <= i < |InOrder(t)| ensures InOrder(t)[i] in Keys(t) {
        if i < |a| {
        } else if i > |a| {
          assert InOrder(t)[i] == b[i - |a| - 1];
        }
      }
      forall i, j | 0 <= i < j < |InOrder(t)| ensures InOrder(t)[i] < InOrder(t)[j] {
        if j < |a| {
        } else if i > |a| {
          assert InOrder(t)[i] == b[i - |a| - 1] && InOrder(t)[j] == b[j - |a| - 1];
        } else if i == |a| {
          assert InOrder(t)[j] == b[j - |a| - 1];
        } else if j == |a| {
        } else {
          assert InOrder(t)[j] == b[j - |a| - 1];
          assert a[i] in Keys(t.left) && b[j - |a| - 1] in Keys(t.right);
        }
      }
    }
  }

  /** What a restructuring keeps, as one predicate: `b` lists the same keys in
      the same order as `a`, and stands for the same map when `a` is a
      search tree. */
  ghost predicate SameMap<M, V>(a: Tree<M, V>, b: Tree<M, V>) {
    && InOrder(b) == InOrder(a) && Keys(b) == Keys(a) && Count(b) == Count(a)
    && (Ordered(a) ==> Ordered(b) && AsMap(b) == AsMap(a))
  }

  lemma SameMapLeft<M, V>(t: Tree<M, V>, l': Tree<M, V>)
    requires t.Node? && SameMap(t.left, l')
    ensures SameMap(t, t.(left := l'))
  {
  }

  lemma SameMapRight<M, V>(t: Tree<M, V>, r': Tree<M, V>)
    requires t.Node? && SameMap(t.right, r')
    ensures SameMap(t, t.(right := r'))
  {
  }

  /** Putting a subtree that gained key `k` back under a node on the side
      `k` belongs to gives the node's map with `k` stored. */
  lemma PutBackLeft<M, V>(t: Tree<M, V>, l': Tree<M, V>, k: int, v: V)
    requires t.Node? && Ordered(t) && k < t.key
    requires Ordered(l') && Keys(l') == Keys(t.left) + {k} && AsMap(l') == AsMap(t.left)[k := v]
    ensures var n := t.(left := l'); Ordered(n) && Keys(n) == Keys(t) + {k} && AsMap(n) == AsMap(t)[k := v]
  {
    var n := t.(left := l');
    assert Ordered(n);
    forall z ensures Lookup(AsMap(n), z) == Lookup(AsMap(t)[k := v], z) {
      AsMapNode(n, z);
      AsMapNode(t, z);
    }
    LookupExt(AsMap(n), AsMap(t)[k := v]);
  }

  lemma PutBackRight<M, V>(t: Tree<M, V>, r': Tree<M, V>, k: int, v: V)
    requires t.Node? && Ordered(t) && k > t.key
    requires Ordered(r') && Keys(r') == Keys(t.right) + {k} && AsMap(r') == AsMap(t.right)[k := v]
    ensures var n := t.(right := r'); Ordered(n) && Keys(n) == Keys(t) + {k} && AsMap(n) == AsMap(t)[k := v]
  {
    var n := t.(right := r');
    assert Ordered(n);
    forall z ensures Lookup(AsMap(n), z) == Lookup(AsMap(t)[k := v], z) {
      AsMapNode(n, z);
      AsMapNode(t, z);
    }
    LookupExt(AsMap(n), AsMap(t)[k := v]);
  }

  /** Taking key `k` out of the subtree on the side it belongs to takes it
      out of the node's map. */
  lemma TakeBackLeft<M, V>(t: Tree<M, V>, l': Tree<M, V>, k: int)
    requires t.Node? && Ordered(t) && k < t.key
    requires Ordered(l') && Keys(l') == Keys(t.left) - {k} && AsMap(l') == AsMap(t.left) - {k}
    ensures var n := t.(left := l'); Ordered(n) && Keys(n) == Keys(t) - {k} && AsMap(n) == AsMap(t) - {k}
  {
    var n := t.(left := l');
    assert Ordered(n);
    forall z ensures Lookup(AsMap(n), z) == Lookup(AsMap(t) - {k}, z) {
      AsMapNode(n, z);
      AsMapNode(t, z);
    }
    LookupExt(AsMap(n), AsMap(t) - {k});
  }

  lemma TakeBackRight<M, V>(t: Tree<M, V>, r': Tree<M, V>, k: int)
    requires t.Node? && Ordered(t) && k > t.key
    requires Ordered(r') && Keys(r') == Keys(t.right) - {k} && AsMap(r') == AsMap(t.right) - {k}
    ensures var n := t.(right := r'); Ordered(n) && Keys(n) == Keys(t) - {k} && AsMap(n) == AsMap(t) - {k}
  {
    var n := t.(right := r');
    assert Ordered(n);
    forall z ensures Lookup(AsMap(n), z) == Lookup(AsMap(t) - {k}, z) {
      AsMapNode(n, z);
      AsMapNode(t, z);
    }
    LookupExt(AsMap(n), AsMap(t) - {k});
  }

  /** Putting the right subtree's minimum, taken out of it, in place of the
      node leaves the node's map without the node's key. */
  lemma Splice<M, V>(t: Tree<M, V>, sk: int, sv: V, sh: M, r': Tree<M, V>)
    requires t.Node? && Ordered(t)
    requires sk in Keys(t.right) && (forall x :: x in Keys(t.right) ==> sk <= x)
    requires Lookup(AsMap(t.right), sk) == Some(sv)
    requires Ordered(r') && Keys(r') == Keys(t.right) - {sk} && AsMap(r') == AsMap(t.right) - {sk}
    ensures var n := Node(t.left, sk, sv, sh, r');
      Ordered(n) && Keys(n) == Keys(t) - {t.key} && AsMap(n) == AsMap(t) - {t.key}
  {
    var n := Node(t.left, sk, sv, sh, r');
    SpliceOrdered(t, sk, sv, sh, r');
    forall z ensures Lookup(AsMap(n), z) == Lookup(AsMap(t) - {t.key}, z) {
      SpliceLookup(t, sk, sv, sh, r', z);
    }
    LookupExt(AsMap(n), AsMap(t) - {t.key});
    AsMapKeys(n);
    AsMapKeys(t);
  }

  /** The spliced node is ordered: the left subtree lies below the right
      subtree's minimum, and the rest of the right subtree above it. */
  lemma SpliceOrdered<M, V>(t: Tree<M, V>, sk: int, sv: V, sh: M, r': Tree<M, V>)
    requires t.Node? && Ordered(t)
    requires sk in Keys(t.right) && (forall x :: x in Keys(t.right) ==> sk <= x)
    requires Lookup(AsMap(t.right), sk) == Some(sv)
    requires Ordered(r') && Keys(r') == Keys(t.right) - {sk} && AsMap(r') == AsMap(t.right) - {sk}
    ensures Ordered(Node(t.left, sk, sv, sh, r'))
  {
  }

  /** The spliced node answers a lookup as the old node without its key. */
  lemma SpliceLookup<M, V>(t: Tree<M, V>, sk: int, sv: V, sh: M, r': Tree<M, V>, z: int)
    requires t.Node? && Ordered(t)
    requires sk in Keys(t.right) && (forall x :: x in Keys(t.right) ==> sk <= x)
    requires Lookup(AsMap(t.right), sk) == Some(sv)
    requires Ordered(r') && Keys(r') == Keys(t.right) - {sk} && AsMap(r') == AsMap(t.right) - {sk}
    requires Ordered(Node(t.left, sk, sv, sh, r'))
    ensures Lookup(AsMap(Node(t.left, sk, sv, sh, r')), z) == Lookup(AsMap(t) - {t.key}, z)
  {
    var n := Node(t.left, sk, sv, sh, r');
    AsMapKeys(t.left);
    AsMapKeys(t.right);
    AsMapNode(n, z);
    AsMapNode(t, z);
    if z == sk {
      assert Lookup(AsMap(t), z) == Lookup(AsMap(t.right), z);
    } else if t.key < z < sk {
      assert z !in Keys(t.right) && z !in Keys(t.left);
    } else if z > sk {
      assert Lookup(AsMap(r'), z) == Lookup(AsMap(t.right), z);
    }
  }

  /** Changing a node's metadata (height or colour) keeps its map. */
  lemma WithMetaKeeps<M, V>(t: Tree<M, V>, m: M)
    requires t.Node?
    ensures SameMap(t, t.(meta := m))
  {
  }

  /** The height of a tree: 0 when empty, else one more than the taller
      subtree. */
  function Height<M, V>(t: Tree<M, V>): nat {
    match t
    case Nil => 0
    case Node(l, _, _, _, r) => 1 + (if Height(l) >= Height(r) then Height(l) else Height(r))
  }

  /** Two trees with the same keys and metadata in the same places; only
      the values may differ. */
  ghost predicate SameShape<M, V>(a: Tree<M, V>, b: Tree<M, V>) {
    match a
    case Nil => b.Nil?
    case Node(l, k, _, h, r) => b.Node? && b.key == k && b.meta == h && SameShape(l, b.left) && SameShape(r, b.right)
  }

  lemma {:induction false} SameShapeRefl<M, V>(t: Tree<M, V>)
    ensures SameShape(t, t)
  {
    if t.Node? {
      SameShapeRefl(t.left);
      SameShapeRefl(t.right);
    }
  }

  lemma {:induction false} SameShapeKeys<M, V>(a: Tree<M, V>, b: Tree<M, V>)
    requires SameShape(a, b)
    ensures Keys(a) == Keys(b) && Count(a) == Count(b) && InOrder(a) == InOrder(b)
    ensures Ordered(a) <==> Ordered(b)
  {
    if a.Node? {
      SameShapeKeys(a.left, b.left);
      SameShapeKeys(a.right, b.right);
    }
  }

  /** The minimum of a node whose left child has no left child is that
      child; taking it out leaves its right subtree in its place. */
  lemma RemoveMinBase<M, V>(t: Tree<M, V>)
    requires t.Node? && t.left.Node? && t.left.left.Nil? && Ordered(t)
    ensures var l := t.left;
      && l.key in Keys(t) && (forall x :: x in Keys(t) ==> l.key <= x)
      && Lookup(AsMap(t), l.key) == Some(l.value)
      && var n := t.(left := l.right);
         Ordered(n) && Keys(n) == Keys(t) - {l.key} && AsMap(n) == AsMap(t) - {l.key}
  {
    var l := t.left;
    AsMapKeys(l);
    AsMapKeys(l.right);
    AsMapNode(t, l.key);
    AsMapNode(l, l.key);
    assert AsMap(l.right) == AsMap(l) - {l.key};
    TakeBackLeft(t, l.right, l.key);
  }

  /** The recursive depth walk of `getHeight` and `dfs`: the depth of the
      deepest absent child below `t`, where `t` itself sits at `depth`. */
  function HeightFrom<M, V>(t: Tree<M, V>, depth: int): (h: int)
    ensures h == depth + Height(t)
  {
    match t
    case Nil => depth
    case Node(l, _, _, _, r) =>
      var lh := HeightFrom(l, depth + 1);
      var rh := HeightFrom(r, depth + 1);
      if lh > rh then lh else rh
  }
}
