/** bst/SplayTree.java: a search tree restructured by a top-down splay on
    every access, so that the node reached moves to the root. Its nodes
    carry no metadata (`Plain<V>`, a `Tree<(), V>`).

    The Java splay walks down once, hanging the nodes it passes on a "left
    tree" and a "right tree" under the `header` node and assembling the
    three parts at the end. Hanging a node on the right tree and splaying
    on below it comes to the same tree as splaying its left subtree first
    and then lifting that subtree's new root over the node, which is how
    `Splay` is written here. */
module SplayTree {
  import opened Common
  import opened SearchTree

  /** A search tree whose nodes carry no metadata. */
  type Plain<V> = Tree<(), V>

  /** `splay(key, node)` (lines 42-101) on a non-empty tree. The walk stops
      at `k`, or where the next child towards `k` is absent. Two steps in
      the same direction first lift the child over the node (the zig-zig
      rotations of lines 55-64 and 75-84), stopping there if the lifted
      node has no child further towards `k`; otherwise the node is linked
      into the right tree (lines 67-69) or left tree (lines 87-89) and the
      walk goes on below it. */
  function Splay<V>(t: Plain<V>, k: int): (r: Plain<V>)
    requires t.Node?
    ensures r.Node?
  {
    if k < t.key then
      if t.left.Nil? then t
      else
        var l := t.left;
        if k < l.key then
          var y := Node(l.left, l.key, l.value, (), Node(l.right, t.key, t.value, (), t.right));
          if l.left.Nil? then y
          else
            var s := Splay(l.left, k);
            Node(s.left, s.key, s.value, (), y.(left := s.right))
        else
          var s := Splay(l, k);
          Node(s.left, s.key, s.value, (), t.(left := s.right))
    else if k > t.key then
      if t.right.Nil? then t
      else
        var r := t.right;
        if k > r.key then
          var y := Node(Node(t.left, t.key, t.value, (), r.left), r.key, r.value, (), r.right);
          if r.right.Nil? then y
          else
            var s := Splay(r.right, k);
            Node(y.(right := s.left), s.key, s.value, (), s.right)
        else
          var s := Splay(r, k);
          Node(t.(right := s.left), s.key, s.value, (), s.right)
    else
      t
  }

  /** A splay only rearranges the tree: the in-order keys, the map and the
      search-tree order stay. */
  lemma {:induction false} SplayKeeps<V>(t: Plain<V>, k: int)
    requires t.Node?
    ensures SameMap(t, Splay(t, k))
  {
    if k < t.key && t.left.Node? {
      var l := t.left;
      if k < l.key {
        var y := RotateRight(t, (), ());
        RotateRightKeeps(t, (), ());
        if l.left.Node? {
          SplayKeeps(l.left, k);
          SameMapLeft(y, Splay(l.left, k));
          RotateRightKeeps(y.(left := Splay(l.left, k)), (), ());
        }
      } else {
        SplayKeeps(l, k);
        SameMapLeft(t, Splay(l, k));
        RotateRightKeeps(t.(left := Splay(l, k)), (), ());
      }
    } else if k > t.key && t.right.Node? {
      var r := t.right;
      if k > r.key {
        var y := RotateLeft(t, (), ());
        RotateLeftKeeps(t, (), ());
        if r.right.Node? {
          SplayKeeps(r.right, k);
          SameMapRight(y, Splay(r.right, k));
          RotateLeftKeeps(y.(right := Splay(r.right, k)), (), ());
        }
      } else {
        SplayKeeps(r, k);
        SameMapRight(t, Splay(r, k));
        RotateLeftKeeps(t.(right := Splay(r, k)), (), ());
      }
    }
  }

  /** No key of `ks` lies strictly between `k` and `x`. */
  ghost predicate Adjacent(ks: set<int>, k: int, x: int) {
    forall z :: z in ks ==> !(k < z < x) && !(x < z < k)
  }

  /** The splayed root is `k` when the tree holds `k`, and otherwise a
      neighbour of `k` among the tree's keys: the largest key below it or
      the smallest above it. */
  lemma {:induction false} SplayRoot<V>(t: Plain<V>, k: int)
    requires t.Node? && Ordered(t)
    ensures var r := Splay(t, k);
      && r.key in Keys(t)
      && (k in Keys(t) ==> r.key == k)
      && Adjacent(Keys(t), k, r.key)
    decreases t, 1
  {
    if k < t.key && t.left.Node? {
      SplayRootLeft(t, k);
    } else if k > t.key && t.right.Node? {
      SplayRootRight(t, k);
    }
  }

  /** `SplayRoot` when the splay descends to the left. */
  lemma {:induction false} SplayRootLeft<V>(t: Plain<V>, k: int)
    requires t.Node? && Ordered(t) && k < t.key && t.left.Node?
    ensures var r := Splay(t, k);
      && r.key in Keys(t)
      && (k in Keys(t) ==> r.key == k)
      && Adjacent(Keys(t), k, r.key)
    decreases t, 0
  {
    SplayKeeps(t, k);
    var l := t.left;
    if k < l.key {
      if l.left.Node? {
        assert Ordered(l) && Keys(l) == Keys(l.left) + {l.key} + Keys(l.right);
        SplayRoot(l.left, k);
        assert Splay(t, k).key == Splay(l.left, k).key;
        assert l.key in Keys(l) && l.key < t.key;
        if k in Keys(t) {
          assert k !in Keys(t.right) && k != t.key;
          assert k in Keys(l);
          assert k in Keys(l.left);
        }
        assert forall z :: z in Keys(t) && z !in Keys(l) ==> z >= t.key;
        assert forall z :: z in Keys(t) && z !in Keys(l.left) ==> z >= l.key;
        var x := Splay(l.left, k).key;
        assert x in Keys(l.left) && x < l.key;
        assert Adjacent(Keys(l.left), k, x);
      } else {
        assert Ordered(l) && Keys(l) == {l.key} + Keys(l.right);
        assert forall z :: z in Keys(t) ==> z >= l.key;
      }
    } else {
      SplayRoot(l, k);
      assert forall z :: z in Keys(t) && z !in Keys(l) ==> z >= t.key;
    }
  }

  /** `SplayRoot` when the splay descends to the right. */
  lemma {:induction false} SplayRootRight<V>(t: Plain<V>, k: int)
    requires t.Node? && Ordered(t) && k > t.key && t.right.Node?
    ensures var r := Splay(t, k);
      && r.key in Keys(t)
      && (k in Keys(t) ==> r.key == k)
      && Adjacent(Keys(t), k, r.key)
    decreases t, 0
  {
    SplayKeeps(t, k);
    var r := t.right;
    if k > r.key {
      if r.right.Node? {
        assert Ordered(r) && Keys(r) == Keys(r.left) + {r.key} + Keys(r.right);
        SplayRoot(r.right, k);
        assert Splay(t, k).key == Splay(r.right, k).key;
        assert r.key in Keys(r) && r.key > t.key;
        assert k in Keys(t) ==> k in Keys(r);
        assert forall z :: z in Keys(t) && z !in Keys(r) ==> z <= t.key;
        assert forall z :: z in Keys(t) && z !in Keys(r.right) ==> z <= r.key;
      } else {
        assert Ordered(r) && Keys(r) == Keys(r.left) + {r.key};
        assert forall z :: z in Keys(t) ==> z <= r.key;
      }
    } else {
      SplayRoot(r, k);
      assert forall z :: z in Keys(t) && z !in Keys(r) ==> z <= t.key;
    }
  }

  /** Splaying for a key above every key of the tree brings the maximum to
      the root, which then has no right child (what `remove` relies on at
      lines 164-165). */
  lemma SplayMax<V>(t: Plain<V>, k: int)
    requires t.Node? && Ordered(t) && forall z :: z in Keys(t) ==> z < k
    ensures Splay(t, k).right.Nil?
    ensures forall z :: z in Keys(t) ==> z <= Splay(t, k).key
  {
    var r := Splay(t, k);
    SplayRoot(t, k);
  }

  /** What a splay for `k` leaves at the root, in terms of the map: the
      same map, with `k` at the root exactly when it is stored, and
      otherwise a neighbour of `k` there. */
  lemma SplayFacts<V>(t: Plain<V>, k: int)
    requires t.Node? && Ordered(t)
    ensures var s := Splay(t, k);
      && Ordered(s) && Keys(s) == Keys(t) && AsMap(s) == AsMap(t) && Count(s) == Count(t)
      && (k in Keys(t) <==> s.key == k)
      && Adjacent(Keys(s), k, s.key)
      && Lookup(AsMap(t), k) == (if s.key == k then Some(s.value) else None)
  {
    SplayKeeps(t, k);
    SplayRoot(t, k);
    AsMapKeys(t);
    AsMapNode(Splay(t, k), k);
  }

  /** `put`'s split of a splayed root above the new key (lines 133-136):
      the new node takes the root's left subtree and has the root, without
      it, on its right. */
  lemma SplitBelow<V>(t: Plain<V>, k: int, v: V)
    requires t.Node? && Ordered(t) && k < t.key && k !in Keys(t) && Adjacent(Keys(t), k, t.key)
    ensures var n := Node(t.left, k, v, (), Node(Nil, t.key, t.value, (), t.right));
      && Ordered(n) && AsMap(n) == AsMap(t)[k := v] && Count(n) == Count(t) + 1
  {
    SplitBelowOrdered(t, k, v);
    SplitBelowMap(t, k, v);
    var e: Plain<V> := Nil;
    assert Count(e) == 0;
  }

  lemma SplitBelowOrdered<V>(t: Plain<V>, k: int, v: V)
    requires t.Node? && Ordered(t) && k < t.key && k !in Keys(t) && Adjacent(Keys(t), k, t.key)
    ensures Ordered(Node(t.left, k, v, (), Node(Nil, t.key, t.value, (), t.right)))
  {
    var n := Node(t.left, k, v, (), Node(Nil, t.key, t.value, (), t.right));
    assert forall z :: z in Keys(t.left) ==> z < k;
    var e: Plain<V> := Nil;
    assert Keys(e) == {};
    assert Keys(n.right) == {t.key} + Keys(t.right);
    assert Ordered(n.right);
  }

  /** Whatever the order, the split puts `k` over the root's map. */
  lemma SplitBelowMap<V>(t: Plain<V>, k: int, v: V)
    requires t.Node?
    ensures AsMap(Node(t.left, k, v, (), Node(Nil, t.key, t.value, (), t.right))) == AsMap(t)[k := v]
  {
    var e: Plain<V> := Nil;
    assert AsMap(e) == map[];
    assert AsMap(Node(e, t.key, t.value, (), t.right)) == AsMap(t.right)[t.key := t.value];
    assert AsMap(t.left) + AsMap(t.right)[t.key := t.value] == (AsMap(t.left) + AsMap(t.right))[t.key := t.value];
  }

  /** The mirror image of `SplitBelow` (lines 137-141). */
  lemma SplitAbove<V>(t: Plain<V>, k: int, v: V)
    requires t.Node? && Ordered(t) && k > t.key && k !in Keys(t) && Adjacent(Keys(t), k, t.key)
    ensures var n := Node(Node(t.left, t.key, t.value, (), Nil), k, v, (), t.right);
      && Ordered(n) && AsMap(n) == AsMap(t)[k := v] && Count(n) == Count(t) + 1
  {
    SplitAboveOrdered(t, k, v);
    SplitAboveMap(t, k, v);
    var e: Plain<V> := Nil;
    assert Count(e) == 0;
  }

  lemma SplitAboveOrdered<V>(t: Plain<V>, k: int, v: V)
    requires t.Node? && Ordered(t) && k > t.key && k !in Keys(t) && Adjacent(Keys(t), k, t.key)
    ensures Ordered(Node(Node(t.left, t.key, t.value, (), Nil), k, v, (), t.right))
  {
    var n := Node(Node(t.left, t.key, t.value, (), Nil), k, v, (), t.right);
    assert forall z :: z in Keys(t.right) ==> z > k;
    var e: Plain<V> := Nil;
    assert Keys(e) == {};
    assert Keys(n.left) == Keys(t.left) + {t.key};
    assert Ordered(n.left);
  }

  /** The left split puts `k` over the root's map once the root's key is
      not among its right subtree's. */
  lemma SplitAboveMap<V>(t: Plain<V>, k: int, v: V)
    requires t.Node? && Ordered(t)
    ensures AsMap(Node(Node(t.left, t.key, t.value, (), Nil), k, v, (), t.right)) == AsMap(t)[k := v]
  {
    var e: Plain<V> := Nil;
    assert AsMap(e) == map[];
    assert AsMap(Node(t.left, t.key, t.value, (), e)) == AsMap(t.left)[t.key := t.value];
    AsMapKeys(t.right);
    assert t.key !in AsMap(t.right);
    assert AsMap(t.left)[t.key := t.value] + AsMap(t.right) == (AsMap(t.left) + AsMap(t.right))[t.key := t.value];
  }

  /** `remove`'s join (lines 162-165): the left subtree, splayed for the
      removed key, has its maximum at the root with no right child, and
      takes the right subtree there. */
  lemma Join<V>(t: Plain<V>)
    requires t.Node? && t.left.Node? && Ordered(t)
    ensures var s := Splay(t.left, t.key); var n := Node(s.left, s.key, s.value, (), t.right);
      && Ordered(n) && AsMap(n) == AsMap(t) - {t.key} && Count(n) == Count(t) - 1
  {
    var s := Splay(t.left, t.key);
    SplayKeeps(t.left, t.key);
    SplayMax(t.left, t.key);
    JoinMaps(t, s);
  }

  lemma JoinMaps<V>(t: Plain<V>, s: Plain<V>)
    requires t.Node? && Ordered(t) && s.Node? && s.right.Nil? && Ordered(s)
    requires Keys(s) == Keys(t.left) && AsMap(s) == AsMap(t.left) && Count(s) == Count(t.left)
    ensures var n := Node(s.left, s.key, s.value, (), t.right);
      && Ordered(n) && AsMap(n) == AsMap(t) - {t.key} && Count(n) == Count(t) - 1
  {
    JoinOrdered(t, s);
    AsMapKeys(t.left);
    AsMapKeys(t.right);
    JoinAsMap(t, s);
  }

  lemma JoinAsMap<V>(t: Plain<V>, s: Plain<V>)
    requires t.Node? && s.Node? && s.right.Nil? && AsMap(s) == AsMap(t.left)
    requires s.key !in AsMap(t.right) && t.key !in AsMap(t.left) && t.key !in AsMap(t.right)
    ensures AsMap(Node(s.left, s.key, s.value, (), t.right)) == AsMap(t) - {t.key}
  {
    assert AsMap(s) == AsMap(s.left)[s.key := s.value] by {
      assert AsMap(s.right) == map[];
      assert AsMap(s.left) + AsMap(s.right) == AsMap(s.left);
    }
    MapJoin(AsMap(s.left), AsMap(t.right), s.key, s.value);
    MapUnjoin(AsMap(t.left), AsMap(t.right), t.key, t.value);
  }

  lemma JoinOrdered<V>(t: Plain<V>, s: Plain<V>)
    requires t.Node? && Ordered(t) && s.Node? && Ordered(s) && Keys(s) == Keys(t.left)
    ensures Ordered(Node(s.left, s.key, s.value, (), t.right))
    ensures s.key !in Keys(t.right)
  {
    assert s.key in Keys(t.left);
  }

  /** Setting a key absent from `r` before or after joining `r` on. */
  lemma MapJoin<V>(a: map<int, V>, r: map<int, V>, k: int, v: V)
    requires k !in r
    ensures (a + r)[k := v] == a[k := v] + r
  {
  }

  /** Setting, then removing, a key absent from both parts. */
  lemma MapUnjoin<V>(a: map<int, V>, r: map<int, V>, k: int, v: V)
    requires k !in a && k !in r
    ensures (a + r)[k := v] - {k} == a + r
  {
  }

  // ---------------------------------------------------------------- the map

  /** A `SplayTree`: its root (null when empty) and its `size` field. */
  datatype SplayMap<V> = SplayMap(root: Plain<V>, size: int)

  /** What every public operation keeps: a search tree whose `size` is its
      node count. */
  predicate Valid<V>(m: SplayMap<V>) {
    Ordered(m.root) && m.size == Count(m.root)
  }

  function Contents<V>(m: SplayMap<V>): map<int, V> {
    AsMap(m.root)
  }

  /** `new SplayTree()`: no root. */
  method New<V>() returns (m: SplayMap<V>)
    ensures Valid(m) && Contents(m) == map[]
  {
    m := SplayMap(Nil, 0);
  }

  /** `size()`: the number of keys. */
  function Size<V>(m: SplayMap<V>): (n: int)
    ensures Valid(m) ==> n == |Contents(m)|
  {
    if Valid(m) then CountKeys(m.root); m.size else m.size
  }

  /** `get(key)` (lines 103-112): null on an empty tree; otherwise the tree
      is splayed for `key` and the root's value returned if the root holds
      `key`. The accessed key ends at the root. */
  function Get<V>(m: SplayMap<V>, k: int): (r: (SplayMap<V>, Option<V>))
    requires Valid(m)
    ensures Valid(r.0) && Contents(r.0) == Contents(m)
    ensures r.1 == Lookup(Contents(m), k)
    ensures k in Contents(m) ==> r.0.root.Node? && r.0.root.key == k
  {
    AsMapKeys(m.root);
    if m.root.Nil? then (m, None)
    else
      var t := Splay(m.root, k);
      SplayFacts(m.root, k);
      (SplayMap(t, m.size), if k == t.key then Some(t.value) else None)
  }

  /** `put(key, value)` (lines 114-145): an empty tree gets a root node;
      otherwise the tree is splayed for `key`, a root holding `key` gets
      the new value and the old one is returned, and any other root is
      split round a new root node. A new key returns the new value and is
      counted. The key put ends at the root. */
  function Put<V>(m: SplayMap<V>, k: int, v: V): (r: (SplayMap<V>, Option<V>))
    requires Valid(m)
    ensures Valid(r.0) && Contents(r.0) == Contents(m)[k := v]
    ensures r.1 == Some(if k in Contents(m) then Contents(m)[k] else v)
    ensures r.0.root.Node? && r.0.root.key == k
  {
    AsMapKeys(m.root);
    if m.root.Nil? then
      (SplayMap(Node(Nil, k, v, (), Nil), m.size + 1), Some(v))
    else
      var t := Splay(m.root, k);
      SplayFacts(m.root, k);
      if k == t.key then
        (SplayMap(t.(value := v), m.size), Some(t.value))
      else if k < t.key then
        SplitBelow(t, k, v);
        (SplayMap(Node(t.left, k, v, (), Node(Nil, t.key, t.value, (), t.right)), m.size + 1), Some(v))
      else
        SplitAbove(t, k, v);
        (SplayMap(Node(Node(t.left, t.key, t.value, (), Nil), k, v, (), t.right), m.size + 1), Some(v))
  }

  /** `remove(key)` (lines 147-170): null on an empty tree, or when the
      splayed root does not hold `key` (the tree stays splayed). Otherwise
      the root goes: a root without left child gives way to its right
      child, and otherwise the left subtree is splayed for `key`, bringing
      its maximum to the top, which takes the right subtree. */
  function Remove<V>(m: SplayMap<V>, k: int): (r: (SplayMap<V>, Option<V>))
    requires Valid(m)
    ensures Valid(r.0) && Contents(r.0) == Contents(m) - {k}
    ensures r.1 == Lookup(Contents(m), k)
  {
    if m.root.Nil? then (m, None)
    else
      var t := Splay(m.root, k);
      SplayFacts(m.root, k);
      if k != t.key then
        AbsentKey(m.root, k);
        (SplayMap(t, m.size), None)
      else if t.left.Nil? then
        DropLeftless(t);
        (SplayMap(t.right, m.size - 1), Some(t.value))
      else
        Join(t);
        var s := Splay(t.left, k);
        (SplayMap(Node(s.left, s.key, s.value, (), t.right), m.size - 1), Some(t.value))
  }

  /** Removing a key the tree does not hold leaves its map alone. */
  lemma AbsentKey<V>(t: Plain<V>, k: int)
    requires k !in Keys(t)
    ensures AsMap(t) - {k} == AsMap(t)
  {
    AsMapKeys(t);
  }

  /** A root without a left child is removed by promoting its right
      subtree. */
  lemma DropLeftless<V>(t: Plain<V>)
    requires t.Node? && t.left.Nil? && Ordered(t)
    ensures Ordered(t.right) && AsMap(t.right) == AsMap(t) - {t.key} && Count(t.right) == Count(t) - 1
  {
    AsMapKeys(t.right);
    assert t.key !in AsMap(t.right);
    MapUnjoin(map[], AsMap(t.right), t.key, t.value);
    assert map[] + AsMap(t.right) == AsMap(t.right);
  }

  /** `getHeight()` (lines 185-190): the number of links on the longest
      path from the root, -1 for the empty tree. */
  function GetHeight<V>(m: SplayMap<V>): (h: int)
    ensures h == Height(m.root) - 1
  {
    HeightFrom(m.root, -1)
  }
}
