/** bst/AvlTree.java: a search tree whose nodes store their height. `put`
    and `remove` change one search path and then `rebalance` walks from the
    lowest changed node up to the root: at each node it rotates when the
    stored heights of the children differ by two, and recomputes the height.
    The walk is modelled as the return path of the recursion that came down
    (`RebalanceAt` is one position of the walk). */
module AvlTree {
  import opened Common
  import opened SearchTree

  function Max(x: int, y: int): int {
    if x >= y then x else y
  }

  /** `height(node)`: the stored height, 0 for null. */
  function H<V>(t: Tree<int, V>): int {
    if t.Nil? then 0 else t.meta
  }

  /** Every stored height is one more than the larger stored height of the
      children. */
  predicate HeightsOK<V>(t: Tree<int, V>) {
    match t
    case Nil => true
    case Node(l, _, _, h, r) => HeightsOK(l) && HeightsOK(r) && h == Max(H(l), H(r)) + 1
  }

  /** The AVL condition: at every node the children's heights differ by at
      most one. */
  predicate Balanced<V>(t: Tree<int, V>) {
    match t
    case Nil => true
    case Node(l, _, _, _, r) => Balanced(l) && Balanced(r) && -1 <= H(l) - H(r) <= 1
  }

  /** The class invariant of a tree built by `put`. */
  predicate IsAvl<V>(t: Tree<int, V>) {
    Ordered(t) && HeightsOK(t) && Balanced(t)
  }

  /** The balance factor `height(node.left) - height(node.right)`. */
  function Diff<V>(t: Tree<int, V>): int
    requires t.Node?
  {
    H(t.left) - H(t.right)
  }

  lemma {:induction false} HeightFacts<V>(t: Tree<int, V>)
    requires HeightsOK(t)
    ensures H(t) >= 0 && (t.Nil? <==> H(t) == 0)
  {
    if t.Node? {
      HeightFacts(t.left);
      HeightFacts(t.right);
    }
  }

  lemma {:induction false} SameShapeKeeps<V>(a: Tree<int, V>, b: Tree<int, V>)
    requires SameShape(a, b)
    ensures H(a) == H(b)
    ensures HeightsOK(a) <==> HeightsOK(b)
    ensures Balanced(a) <==> Balanced(b)
  {
    if a.Node? {
      SameShapeKeeps(a.left, b.left);
      SameShapeKeeps(a.right, b.right);
    }
  }

  /** Line 130: `node.height = max(height(node.left), height(node.right)) + 1`. */
  function Fix<V>(t: Tree<int, V>): (r: Tree<int, V>)
    requires t.Node?
    ensures r.Node? && r.left == t.left && r.right == t.right && r.key == t.key && r.value == t.value
    ensures HeightsOK(t.left) && HeightsOK(t.right) ==> HeightsOK(r)
  {
    t.(meta := Max(H(t.left), H(t.right)) + 1)
  }

  /** `rotateRight(node)`: the lowered node's height is recomputed from its
      new children, and the lifted node is given that same value, which is
      below its own height until the walk recomputes it. */
  function RotR<V>(t: Tree<int, V>): (r: Tree<int, V>)
    requires t.Node? && t.left.Node?
    ensures r.Node? && r.right.Node? && r.meta == H(r.right) < Max(H(r.left), H(r.right)) + 1
    ensures HeightsOK(t.left.right) && HeightsOK(t.right) ==> HeightsOK(r.right)
  {
    var low := Max(H(t.left.right), H(t.right)) + 1;
    RotateRight(t, low, low)
  }

  /** `rotateLeft(node)`, with the same height writes. */
  function RotL<V>(t: Tree<int, V>): (r: Tree<int, V>)
    requires t.Node? && t.right.Node?
    ensures r.Node? && r.left.Node? && r.meta == H(r.left) < Max(H(r.left), H(r.right)) + 1
    ensures HeightsOK(t.left) && HeightsOK(t.right.left) ==> HeightsOK(r.left)
  {
    var low := Max(H(t.left), H(t.right.left)) + 1;
    RotateLeft(t, low, low)
  }

  /** The heavy child is balanced: the case where the choice between a
      single and a double rotation matters. */
  predicate Tie<V>(t: Tree<int, V>)
    requires t.Node?
  {
    || (Diff(t) == 2 && t.left.Node? && H(t.left.left) == H(t.left.right))
    || (Diff(t) == -2 && t.right.Node? && H(t.right.right) == H(t.right.left))
  }

  /** The rotations of lines 110-128 at a node whose balance factor is 2 or
      -2. The code rotates once when the heavy child leans outward strictly
      (`>`) and twice otherwise; with `singleOnTie` a balanced heavy child
      also gets a single rotation (`>=`). */
  function Rotated<V>(t: Tree<int, V>, singleOnTie: bool): (r: Tree<int, V>)
    requires t.Node? && HeightsOK(t.left) && HeightsOK(t.right)
    requires Diff(t) == 2 || Diff(t) == -2
    ensures r.Node? && HeightsOK(r.left) && HeightsOK(r.right)
  {
    HeightFacts(t.left);
    HeightFacts(t.right);
    if Diff(t) == 2 then
      var l := t.left;
      HeightFacts(l.left);
      HeightFacts(l.right);
      if H(l.left) > H(l.right) || (singleOnTie && H(l.left) == H(l.right)) then
        RotR(t)
      else
        assert HeightsOK(l.right.left) && HeightsOK(l.right.right);
        RotR(t.(left := RotL(l)))
    else
      var r := t.right;
      HeightFacts(r.left);
      HeightFacts(r.right);
      if H(r.right) > H(r.left) || (singleOnTie && H(r.right) == H(r.left)) then
        RotL(t)
      else
        assert HeightsOK(r.left.left) && HeightsOK(r.left.right);
        RotL(t.(right := RotR(r)))
  }

  /** One position of `rebalance`'s walk: while the node at the position
      has balance factor 2 or -2 it is rotated and the node lifted into its
      place is looked at again (line 131 moves to the lifted node, which is
      the rotated node's new parent); then the height is recomputed. Two
      rounds are enough: `SecondRoundSettles` shows a third never rotates. */
  function RebalanceAt<V>(t: Tree<int, V>, singleOnTie: bool): (r: Tree<int, V>)
    requires t.Node? && HeightsOK(t.left) && HeightsOK(t.right)
    ensures r.Node? && HeightsOK(r)
  {
    if Diff(t) == 2 || Diff(t) == -2 then
      var x := Rotated(t, singleOnTie);
      if Diff(x) == 2 || Diff(x) == -2 then Fix(Rotated(x, singleOnTie)) else Fix(x)
    else
      Fix(t)
  }

  /** `Fix` only rewrites the stored height. */
  lemma FixKeeps<V>(t: Tree<int, V>)
    requires t.Node?
    ensures InOrder(Fix(t)) == InOrder(t) && Keys(Fix(t)) == Keys(t) && Count(Fix(t)) == Count(t)
    ensures Ordered(Fix(t)) == Ordered(t) && AsMap(Fix(t)) == AsMap(t)
  {
  }

  /** The rotations of one round keep the map. */
  lemma RotatedKeeps<V>(t: Tree<int, V>, singleOnTie: bool)
    requires t.Node? && HeightsOK(t.left) && HeightsOK(t.right)
    requires Diff(t) == 2 || Diff(t) == -2
    ensures SameMap(t, Rotated(t, singleOnTie))
  {
    HeightFacts(t.left);
    HeightFacts(t.right);
    if Diff(t) == 2 {
      LeftHeavyKeeps(t, singleOnTie);
    } else {
      RightHeavyKeeps(t, singleOnTie);
    }
  }

  lemma LeftHeavyKeeps<V>(t: Tree<int, V>, singleOnTie: bool)
    requires t.Node? && HeightsOK(t.left) && HeightsOK(t.right) && Diff(t) == 2
    ensures SameMap(t, Rotated(t, singleOnTie))
  {
    HeightFacts(t.left);
    HeightFacts(t.right);
    var l := t.left;
    HeightFacts(l.left);
    HeightFacts(l.right);
    if H(l.left) > H(l.right) || (singleOnTie && H(l.left) == H(l.right)) {
      var low := Max(H(t.left.right), H(t.right)) + 1;
      RotateRightKeeps(t, low, low);
    } else {
      LeftDoubleKeeps(t);
      assert Rotated(t, singleOnTie) == RotR(t.(left := RotL(l)));
    }
  }

  /** The double rotation at a left-heavy node keeps the map. */
  lemma LeftDoubleKeeps<V>(t: Tree<int, V>)
    requires t.Node? && HeightsOK(t.left) && HeightsOK(t.right) && Diff(t) == 2
    requires t.left.Node? && t.left.right.Node? && H(t.left.left) <= H(t.left.right)
    ensures SameMap(t, RotR(t.(left := RotL(t.left))))
  {
    HeightFacts(t.left);
    HeightFacts(t.right);
    var l := t.left;
    HeightFacts(l.left);
    HeightFacts(l.right);
    var lowL := Max(H(l.left), H(l.right.left)) + 1;
    RotateLeftKeeps(l, lowL, lowL);
    SameMapLeft(t, RotL(l));
    var t' := t.(left := RotL(l));
    var low := Max(H(t'.left.right), H(t'.right)) + 1;
    RotateRightKeeps(t', low, low);
  }

  lemma RightHeavyKeeps<V>(t: Tree<int, V>, singleOnTie: bool)
    requires t.Node? && HeightsOK(t.left) && HeightsOK(t.right) && Diff(t) == -2
    ensures SameMap(t, Rotated(t, singleOnTie))
  {
    HeightFacts(t.left);
    HeightFacts(t.right);
    var r := t.right;
    HeightFacts(r.left);
    HeightFacts(r.right);
    if H(r.right) > H(r.left) || (singleOnTie && H(r.right) == H(r.left)) {
      var low := Max(H(t.left), H(t.right.left)) + 1;
      RotateLeftKeeps(t, low, low);
    } else {
      RightDoubleKeeps(t);
      assert Rotated(t, singleOnTie) == RotL(t.(right := RotR(r)));
    }
  }

  /** The double rotation at a right-heavy node keeps the map. */
  lemma RightDoubleKeeps<V>(t: Tree<int, V>)
    requires t.Node? && HeightsOK(t.left) && HeightsOK(t.right) && Diff(t) == -2
    requires t.right.Node? && t.right.left.Node? && H(t.right.right) <= H(t.right.left)
    ensures SameMap(t, RotL(t.(right := RotR(t.right))))
  {
    HeightFacts(t.left);
    HeightFacts(t.right);
    var r := t.right;
    HeightFacts(r.left);
    HeightFacts(r.right);
    var lowR := Max(H(r.left.right), H(r.right)) + 1;
    RotateRightKeeps(r, lowR, lowR);
    SameMapRight(t, RotR(r));
    var t' := t.(right := RotR(r));
    var low := Max(H(t'.left), H(t'.right.left)) + 1;
    RotateLeftKeeps(t', low, low);
  }

  /** A step of the walk keeps the in-order sequence, hence the keys, the
      map and the search-tree order. */
  lemma RebalanceAtKeeps<V>(t: Tree<int, V>, singleOnTie: bool)
    requires t.Node? && HeightsOK(t.left) && HeightsOK(t.right)
    ensures SameMap(t, RebalanceAt(t, singleOnTie))
  {
    if Diff(t) == 2 || Diff(t) == -2 {
      var x := Rotated(t, singleOnTie);
      RotatedKeeps(t, singleOnTie);
      if Diff(x) == 2 || Diff(x) == -2 {
        RotatedKeeps(x, singleOnTie);
        FixKeeps(Rotated(x, singleOnTie));
      } else {
        FixKeeps(x);
      }
    } else {
      FixKeeps(t);
    }
  }

  /** After the first round at a left-heavy node the lifted node is not
      left-heavy by two; if it is right-heavy by two, its heavy child does
      not lean inward. (The mirror image for a right-heavy node.) */
  lemma FirstRound<V>(t: Tree<int, V>, singleOnTie: bool)
    requires t.Node? && HeightsOK(t.left) && HeightsOK(t.right)
    requires Diff(t) == 2 || Diff(t) == -2
    ensures var x := Rotated(t, singleOnTie);
      && (Diff(t) == 2 ==> Diff(x) <= 1 && (Diff(x) <= -2 ==> x.right.Node? && H(x.right.right) >= H(x.right.left)))
      && (Diff(t) == -2 ==> Diff(x) >= -1 && (Diff(x) >= 2 ==> x.left.Node? && H(x.left.left) >= H(x.left.right)))
  {
    if Diff(t) == 2 {
      FirstRoundLeft(t, singleOnTie);
    } else {
      FirstRoundRight(t, singleOnTie);
    }
  }

  /** `FirstRound` at a node leaning left by two. */
  lemma FirstRoundLeft<V>(t: Tree<int, V>, singleOnTie: bool)
    requires t.Node? && HeightsOK(t.left) && HeightsOK(t.right) && Diff(t) == 2
    ensures var x := Rotated(t, singleOnTie);
      Diff(x) <= 1 && (Diff(x) <= -2 ==> x.right.Node? && H(x.right.right) >= H(x.right.left))
  {
    HeightFacts(t.left);
    HeightFacts(t.right);
    var x := Rotated(t, singleOnTie);
    var l := t.left;
    HeightFacts(l.left);
    HeightFacts(l.right);
    if H(l.left) > H(l.right) || (singleOnTie && H(l.left) == H(l.right)) {
      assert x.left == l.left;
      assert H(x.right) == Max(H(l.right), H(t.right)) + 1;
    } else {
      var m := l.right;
      HeightFacts(m.left);
      HeightFacts(m.right);
      assert H(x.left) == Max(H(l.left), H(m.left)) + 1;
      assert x.right == Node(m.right, t.key, t.value, Max(H(m.right), H(t.right)) + 1, t.right);
    }
  }

  /** `FirstRound` at a node leaning right by two. */
  lemma FirstRoundRight<V>(t: Tree<int, V>, singleOnTie: bool)
    requires t.Node? && HeightsOK(t.left) && HeightsOK(t.right) && Diff(t) == -2
    ensures var x := Rotated(t, singleOnTie);
      Diff(x) >= -1 && (Diff(x) >= 2 ==> x.left.Node? && H(x.left.left) >= H(x.left.right))
  {
    HeightFacts(t.left);
    HeightFacts(t.right);
    var x := Rotated(t, singleOnTie);
    var r := t.right;
    HeightFacts(r.left);
    HeightFacts(r.right);
    if H(r.right) > H(r.left) || (singleOnTie && H(r.right) == H(r.left)) {
      assert x.right == r.right;
      assert H(x.left) == Max(H(t.left), H(r.left)) + 1;
    } else {
      var m := r.left;
      HeightFacts(m.left);
      HeightFacts(m.right);
      assert H(x.right) == Max(H(m.right), H(r.right)) + 1;
      assert x.left == Node(t.left, t.key, t.value, Max(H(t.left), H(m.left)) + 1, m.left);
    }
  }

  /** A round at a node whose heavy child does not lean inward leaves a
      balance factor in [-1, 1]. */
  lemma OutwardRound<V>(x: Tree<int, V>, singleOnTie: bool)
    requires x.Node? && HeightsOK(x.left) && HeightsOK(x.right)
    requires (Diff(x) == 2 && x.left.Node? && H(x.left.left) >= H(x.left.right))
          || (Diff(x) == -2 && x.right.Node? && H(x.right.right) >= H(x.right.left))
    ensures -1 <= Diff(Rotated(x, singleOnTie)) <= 1
  {
    HeightFacts(x.left);
    HeightFacts(x.right);
    var y := Rotated(x, singleOnTie);
    if Diff(x) == 2 {
      var l := x.left;
      HeightFacts(l.left);
      HeightFacts(l.right);
      if H(l.left) > H(l.right) || (singleOnTie && H(l.left) == H(l.right)) {
        assert y.left == l.left;
        assert H(y.right) == Max(H(l.right), H(x.right)) + 1;
      } else {
        var m := l.right;
        HeightFacts(m.left);
        HeightFacts(m.right);
        assert H(y.left) == Max(H(l.left), H(m.left)) + 1;
        assert H(y.right) == Max(H(m.right), H(x.right)) + 1;
      }
    } else {
      var r := x.right;
      HeightFacts(r.left);
      HeightFacts(r.right);
      if H(r.right) > H(r.left) || (singleOnTie && H(r.right) == H(r.left)) {
        assert y.right == r.right;
        assert H(y.left) == Max(H(x.left), H(r.left)) + 1;
      } else {
        var m := r.left;
        HeightFacts(m.left);
        HeightFacts(m.right);
        assert H(y.right) == Max(H(m.right), H(r.right)) + 1;
        assert H(y.left) == Max(H(x.left), H(m.left)) + 1;
      }
    }
  }

  /** `rebalance` rotates at most twice at one position: when it looks at
      the node lifted by a second round, the balance factor is in [-1, 1],
      so `RebalanceAt` is the whole of the loop's work there. */
  lemma SecondRoundSettles<V>(t: Tree<int, V>, singleOnTie: bool)
    requires t.Node? && HeightsOK(t.left) && HeightsOK(t.right)
    requires Diff(t) == 2 || Diff(t) == -2
    ensures var x := Rotated(t, singleOnTie);
      Diff(x) == 2 || Diff(x) == -2 ==> -1 <= Diff(Rotated(x, singleOnTie)) <= 1
  {
    var x := Rotated(t, singleOnTie);
    FirstRound(t, singleOnTie);
    if Diff(x) == 2 || Diff(x) == -2 {
      OutwardRound(x, singleOnTie);
    }
  }

  /** With AVL subtrees, one round at a left- or right-heavy node leaves an
      AVL subtree, unless it is the code's double rotation on a tie. Its
      height is the taller child's, or one more on a tie. */
  lemma BalancedRound<V>(t: Tree<int, V>, singleOnTie: bool)
    requires t.Node? && HeightsOK(t.left) && HeightsOK(t.right) && Balanced(t.left) && Balanced(t.right)
    requires Diff(t) == 2 || Diff(t) == -2
    requires Tie(t) ==> singleOnTie
    ensures var x := Rotated(t, singleOnTie);
      && -1 <= Diff(x) <= 1 && Balanced(x.left) && Balanced(x.right)
      && Max(H(x.left), H(x.right)) == Max(H(t.left), H(t.right)) - (if Tie(t) then 0 else 1)
  {
    if Diff(t) == 2 {
      BalancedRoundLeft(t, singleOnTie);
    } else {
      BalancedRoundRight(t, singleOnTie);
    }
  }

  /** `BalancedRound` at a left-heavy node. */
  lemma BalancedRoundLeft<V>(t: Tree<int, V>, singleOnTie: bool)
    requires t.Node? && HeightsOK(t.left) && HeightsOK(t.right) && Balanced(t.left) && Balanced(t.right)
    requires Diff(t) == 2
    requires Tie(t) ==> singleOnTie
    ensures var x := Rotated(t, singleOnTie);
      && -1 <= Diff(x) <= 1 && Balanced(x.left) && Balanced(x.right)
      && Max(H(x.left), H(x.right)) == Max(H(t.left), H(t.right)) - (if Tie(t) then 0 else 1)
  {
    HeightFacts(t.left);
    HeightFacts(t.right);
    var x := Rotated(t, singleOnTie);
    var l := t.left;
    HeightFacts(l.left);
    HeightFacts(l.right);
    if H(l.left) > H(l.right) || (singleOnTie && H(l.left) == H(l.right)) {
      assert x.left == l.left;
      assert x.right == Node(l.right, t.key, t.value, Max(H(l.right), H(t.right)) + 1, t.right);
    } else {
      var m := l.right;
      HeightFacts(m.left);
      HeightFacts(m.right);
      assert x.left == Node(l.left, l.key, l.value, Max(H(l.left), H(m.left)) + 1, m.left);
      assert x.right == Node(m.right, t.key, t.value, Max(H(m.right), H(t.right)) + 1, t.right);
    }
  }

  /** `BalancedRound` at a right-heavy node. */
  lemma BalancedRoundRight<V>(t: Tree<int, V>, singleOnTie: bool)
    requires t.Node? && HeightsOK(t.left) && HeightsOK(t.right) && Balanced(t.left) && Balanced(t.right)
    requires Diff(t) == -2
    requires Tie(t) ==> singleOnTie
    ensures var x := Rotated(t, singleOnTie);
      && -1 <= Diff(x) <= 1 && Balanced(x.left) && Balanced(x.right)
      && Max(H(x.left), H(x.right)) == Max(H(t.left), H(t.right)) - (if Tie(t) then 0 else 1)
  {
    HeightFacts(t.left);
    HeightFacts(t.right);
    var x := Rotated(t, singleOnTie);
    var r := t.right;
    HeightFacts(r.left);
    HeightFacts(r.right);
    if H(r.right) > H(r.left) || (singleOnTie && H(r.right) == H(r.left)) {
      assert x.right == r.right;
      assert x.left == Node(t.left, t.key, t.value, Max(H(t.left), H(r.left)) + 1, r.left);
    } else {
      var m := r.left;
      HeightFacts(m.left);
      HeightFacts(m.right);
      assert x.right == Node(m.right, r.key, r.value, Max(H(m.right), H(r.right)) + 1, r.right);
      assert x.left == Node(t.left, t.key, t.value, Max(H(t.left), H(m.left)) + 1, m.left);
    }
  }

  /** A step of the walk over AVL subtrees whose heights differ by at most
      two leaves an AVL subtree, unless it is the code's double rotation on
      a tie. Without a rotation its height is one more than the taller
      child's; a rotation takes one level off that, except on a tie. */
  lemma RebalanceAtBalances<V>(t: Tree<int, V>, singleOnTie: bool)
    requires t.Node? && HeightsOK(t.left) && HeightsOK(t.right) && Balanced(t.left) && Balanced(t.right)
    requires -2 <= Diff(t) <= 2
    requires Tie(t) ==> singleOnTie
    ensures Balanced(RebalanceAt(t, singleOnTie))
    ensures -1 <= Diff(t) <= 1 ==> H(RebalanceAt(t, singleOnTie)) == Max(H(t.left), H(t.right)) + 1
    ensures Diff(t) == 2 || Diff(t) == -2 ==>
              H(RebalanceAt(t, singleOnTie)) == Max(H(t.left), H(t.right)) + (if Tie(t) then 1 else 0)
  {
    if Diff(t) == 2 || Diff(t) == -2 {
      BalancedRound(t, singleOnTie);
    }
  }

  /** The descent of `put` below a non-empty root (lines 146-170) and the
      walk `rebalance(p)` from the new leaf's parent (line 172): a new key
      becomes a leaf of height 1 and every node on its path takes one step
      of the walk; an existing key only has its value replaced. The second
      component is the old value, or None for a new key. */
  function Insert<V>(t: Tree<int, V>, k: int, v: V): (r: (Tree<int, V>, Option<V>))
    requires HeightsOK(t)
    ensures r.0.Node? && HeightsOK(r.0)
    ensures r.1.Some? ==> SameShape(t, r.0)
  {
    match t
    case Nil => (Node(Nil, k, v, 1, Nil), None)
    case Node(l, key, val, h, right) =>
      if k < key then
        var (l', prev) := Insert(l, k, v);
        var n := Node(l', key, val, h, right);
        if prev.Some? then
          SameShapeKeeps(l, l');
          SameShapeRefl(right);
          (n, prev)
        else
          (RebalanceAt(n, false), None)
      else if k > key then
        var (r', prev) := Insert(right, k, v);
        var n := Node(l, key, val, h, r');
        if prev.Some? then
          SameShapeKeeps(right, r');
          SameShapeRefl(l);
          (n, prev)
        else
          (RebalanceAt(n, false), None)
      else
        SameShapeRefl(l);
        SameShapeRefl(right);
        (Node(l, key, v, h, right), Some(val))
  }

  /** Insertion stores the key with its value and reports the old value;
      the search-tree order is kept and a new key adds one node. */
  lemma {:induction false} InsertKeeps<V>(t: Tree<int, V>, k: int, v: V)
    requires Ordered(t) && HeightsOK(t)
    ensures var (r, prev) := Insert(t, k, v);
      && Ordered(r) && Keys(r) == Keys(t) + {k}
      && AsMap(r) == AsMap(t)[k := v]
      && prev == Lookup(AsMap(t), k)
      && Count(r) == Count(t) + (if prev.Some? then 0 else 1)
  {
    AsMapKeys(t);
    if t.Node? {
      AsMapNode(t, k);
      if k < t.key {
        InsertKeeps(t.left, k, v);
        var (l', prev) := Insert(t.left, k, v);
        PutBackLeft(t, l', k, v);
        if prev.None? {
          RebalanceAtKeeps(t.(left := l'), false);
        }
      } else if k > t.key {
        InsertKeeps(t.right, k, v);
        var (r', prev) := Insert(t.right, k, v);
        PutBackRight(t, r', k, v);
        if prev.None? {
          RebalanceAtKeeps(t.(right := r'), false);
        }
      } else {
        var r := Insert(t, k, v).0;
        forall z ensures Lookup(AsMap(r), z) == Lookup(AsMap(t)[k := v], z) {
          AsMapNode(r, z);
          AsMapNode(t, z);
        }
        LookupExt(AsMap(r), AsMap(t)[k := v]);
      }
    }
  }

  /** Insertion keeps an AVL tree balanced. A new key makes it at most one
      level taller, and when it does grow (and was not empty) its root leans
      to one side: the fact that rules out a tie at the first rotation. */
  lemma {:induction false} InsertBalances<V>(t: Tree<int, V>, k: int, v: V)
    requires HeightsOK(t) && Balanced(t)
    ensures var (r, prev) := Insert(t, k, v);
      && Balanced(r)
      && (prev.None? ==> H(r) == H(t) || (H(r) == H(t) + 1 && (t.Nil? || Diff(r) != 0)))
  {
    var (r, prev) := Insert(t, k, v);
    if prev.Some? {
      SameShapeKeeps(t, r);
    } else if t.Node? {
      HeightFacts(t.left);
      HeightFacts(t.right);
      if k < t.key {
        InsertBalances(t.left, k, v);
        var (l', _) := Insert(t.left, k, v);
        HeightFacts(l');
        var n := Node(l', t.key, t.value, t.meta, t.right);
        RebalanceAtBalances(n, false);
      } else if k > t.key {
        InsertBalances(t.right, k, v);
        var (r', _) := Insert(t.right, k, v);
        HeightFacts(r');
        var n := Node(t.left, t.key, t.value, t.meta, r');
        RebalanceAtBalances(n, false);
      }
    }
  }

  /** `minimum(deleteNode.right)` and what `remove` does with it when it is
      not the right child itself (lines 215-224): the minimum node is
      replaced by its right child and the walk starts at its parent. The
      result is `t` without its minimum, and that node's key, value and
      stored height. */
  function RemoveMin<V>(t: Tree<int, V>, singleOnTie: bool): (r: (Tree<int, V>, int, V, int))
    requires t.Node? && t.left.Node? && HeightsOK(t)
    ensures r.0.Node? && HeightsOK(r.0)
  {
    var l := t.left;
    assert HeightsOK(l) && HeightsOK(l.right) && HeightsOK(t.right);
    if l.left.Nil? then
      (RebalanceAt(t.(left := l.right), singleOnTie), l.key, l.value, l.meta)
    else
      var (l', mk, mv, mh) := RemoveMin(l, singleOnTie);
      (RebalanceAt(t.(left := l'), singleOnTie), mk, mv, mh)
  }

  /** A leaf: the node `remove` cannot take out as written. */
  predicate IsLeaf<V>(t: Tree<int, V>) {
    t.Node? && t.left.Nil? && t.right.Nil?
  }

  /** The body of `remove(key)` once `search` has found the node
      (lines 206-232), with the walk from the fix point. As written
      (`fixed` false) a leaf leaves the fix point null and line 108
      dereferences it, and the walk rotates twice on a tie. With `fixed`
      a removed leaf's parent is where the walk starts and a tie gets a
      single rotation. */
  function Delete<V>(t: Tree<int, V>, k: int, fixed: bool): (r: Outcome<Tree<int, V>>)
    requires HeightsOK(t) && Ordered(t) && k in Keys(t)
    ensures r.Ok? ==> HeightsOK(r.value)
  {
    match t
    case Node(l, key, val, h, right) =>
      assert HeightsOK(l) && HeightsOK(right);
      assert l.Node? ==> HeightsOK(l.left) && HeightsOK(l.right);
      assert right.Node? ==> HeightsOK(right.left) && HeightsOK(right.right);
      assert k in Keys(l) || k == key || k in Keys(right);
      assert k < key ==> k !in Keys(right);
      assert k > key ==> k !in Keys(l);
      if k < key then
        match Delete(l, k, fixed)
        case Throws(e) => Throws(e)
        case Ok(l') => Ok(RebalanceAt(Node(l', key, val, h, right), fixed))
      else if k > key then
        match Delete(right, k, fixed)
        case Throws(e) => Throws(e)
        case Ok(r') => Ok(RebalanceAt(Node(l, key, val, h, r'), fixed))
      else if l.Nil? && right.Nil? then
        if fixed then Ok(Nil) else Throws(NullPointer)
      else if l.Nil? then
        Ok(RebalanceAt(right, fixed))
      else if right.Nil? then
        Ok(RebalanceAt(l, fixed))
      else if right.left.Nil? then
        Ok(RebalanceAt(Node(l, right.key, right.value, right.meta, right.right), fixed))
      else
        var (r', sk, sv, sh) := RemoveMin(right, fixed);
        Ok(RebalanceAt(Node(l, sk, sv, sh, r'), fixed))
  }

  /** `RemoveMin` takes out the smallest key and returns its value. */
  lemma {:induction false} RemoveMinKeeps<V>(t: Tree<int, V>, singleOnTie: bool)
    requires t.Node? && t.left.Node? && HeightsOK(t) && Ordered(t)
    ensures var (r, mk, mv, _) := RemoveMin(t, singleOnTie);
      && mk in Keys(t) && (forall x :: x in Keys(t) ==> mk <= x)
      && Lookup(AsMap(t), mk) == Some(mv)
      && Ordered(r) && Keys(r) == Keys(t) - {mk} && AsMap(r) == AsMap(t) - {mk}
      && Count(r) == Count(t) - 1
    decreases t, 1
  {
    var l := t.left;
    if l.left.Nil? {
      RemoveMinBase(t);
      assert Count(l) == Count(l.right) + 1;
      RebalanceAtKeeps(t.(left := l.right), singleOnTie);
    } else {
      RemoveMinKeepsDeeper(t, singleOnTie);
    }
  }

  /** `RemoveMinKeeps` when the minimum lies below the left child. */
  lemma {:induction false} RemoveMinKeepsDeeper<V>(t: Tree<int, V>, singleOnTie: bool)
    requires t.Node? && t.left.Node? && t.left.left.Node? && HeightsOK(t) && Ordered(t)
    ensures var (r, mk, mv, _) := RemoveMin(t, singleOnTie);
      && mk in Keys(t) && (forall x :: x in Keys(t) ==> mk <= x)
      && Lookup(AsMap(t), mk) == Some(mv)
      && Ordered(r) && Keys(r) == Keys(t) - {mk} && AsMap(r) == AsMap(t) - {mk}
      && Count(r) == Count(t) - 1
    decreases t, 0
  {
    var l := t.left;
    RemoveMinKeeps(l, singleOnTie);
    var (l', mk, mv, _) := RemoveMin(l, singleOnTie);
    MinTakenLeft(t, l', mk, mv, singleOnTie);
  }

  /** Taking the minimum `mk` out of the left subtree and rebalancing takes
      it out of the whole tree, and `mk` is the whole tree's minimum. */
  lemma MinTakenLeft<V>(t: Tree<int, V>, l': Tree<int, V>, mk: int, mv: V, singleOnTie: bool)
    requires t.Node? && Ordered(t) && HeightsOK(l') && HeightsOK(t.right)
    requires mk in Keys(t.left) && (forall x :: x in Keys(t.left) ==> mk <= x)
    requires Lookup(AsMap(t.left), mk) == Some(mv)
    requires Ordered(l') && Keys(l') == Keys(t.left) - {mk} && AsMap(l') == AsMap(t.left) - {mk}
    requires Count(l') == Count(t.left) - 1
    ensures var r := RebalanceAt(t.(left := l'), singleOnTie);
      && mk in Keys(t) && (forall x :: x in Keys(t) ==> mk <= x)
      && Lookup(AsMap(t), mk) == Some(mv)
      && Ordered(r) && Keys(r) == Keys(t) - {mk} && AsMap(r) == AsMap(t) - {mk}
      && Count(r) == Count(t) - 1
  {
    MinOfLeftIsMin(t, mk, mv);
    var n := t.(left := l');
    TakeBackLeft(t, l', mk);
    assert Count(n) == Count(t) - 1;
    RebalanceAtKeeps(n, singleOnTie);
  }

  /** The minimum of the left subtree of a search tree is the minimum of the
      whole tree, with the same value. */
  lemma MinOfLeftIsMin<V>(t: Tree<int, V>, mk: int, mv: V)
    requires t.Node? && Ordered(t)
    requires mk in Keys(t.left) && (forall x :: x in Keys(t.left) ==> mk <= x)
    requires Lookup(AsMap(t.left), mk) == Some(mv)
    ensures mk in Keys(t) && (forall x :: x in Keys(t) ==> mk <= x)
    ensures Lookup(AsMap(t), mk) == Some(mv)
  {
    assert mk < t.key;
    AsMapNode(t, mk);
  }

  /** Removal at the node holding `k`. */
  lemma DeleteHere<V>(t: Tree<int, V>, fixed: bool)
    requires HeightsOK(t) && Ordered(t) && t.Node?
    ensures var r := Delete(t, t.key, fixed);
      && (r.Throws? <==> !fixed && IsLeaf(t))
      && (r.Throws? ==> r.error == NullPointer)
      && (r.Ok? ==> Ordered(r.value) && Keys(r.value) == Keys(t) - {t.key}
                    && AsMap(r.value) == AsMap(t) - {t.key} && Count(r.value) == Count(t) - 1)
  {
    if t.left.Nil? || t.right.Nil? {
      DeleteHereSide(t, fixed);
    } else {
      DeleteHereInner(t, fixed);
    }
  }

  /** `DeleteHere` at a node with at most one child. */
  lemma DeleteHereSide<V>(t: Tree<int, V>, fixed: bool)
    requires HeightsOK(t) && Ordered(t) && t.Node? && (t.left.Nil? || t.right.Nil?)
    ensures var r := Delete(t, t.key, fixed);
      && (r.Throws? <==> !fixed && IsLeaf(t))
      && (r.Throws? ==> r.error == NullPointer)
      && (r.Ok? ==> Ordered(r.value) && Keys(r.value) == Keys(t) - {t.key}
                    && AsMap(r.value) == AsMap(t) - {t.key} && Count(r.value) == Count(t) - 1)
  {
    var l, right, k := t.left, t.right, t.key;
    if l.Nil? && right.Nil? {
      AsMapKeys(t);
      assert AsMap(t) - {k} == map[];
    } else if l.Nil? {
      DeleteHereRight(t, fixed);
    } else {
      DeleteHereLeft(t, fixed);
    }
  }

  /** `DeleteHere` at a node with only a right child, which takes its place. */
  lemma DeleteHereRight<V>(t: Tree<int, V>, fixed: bool)
    requires HeightsOK(t) && Ordered(t) && t.Node? && t.left.Nil? && t.right.Node?
    ensures var r := Delete(t, t.key, fixed);
      && r.Ok? && Ordered(r.value) && Keys(r.value) == Keys(t) - {t.key}
      && AsMap(r.value) == AsMap(t) - {t.key} && Count(r.value) == Count(t) - 1
  {
    assert Delete(t, t.key, fixed) == Ok(RebalanceAt(t.right, fixed));
    AsMapKeys(t);
    AsMapKeys(t.right);
    assert AsMap(t) - {t.key} == AsMap(t.right);
    RebalanceAtKeeps(t.right, fixed);
  }

  /** `DeleteHere` at a node with only a left child, which takes its place. */
  lemma DeleteHereLeft<V>(t: Tree<int, V>, fixed: bool)
    requires HeightsOK(t) && Ordered(t) && t.Node? && t.left.Node? && t.right.Nil?
    ensures var r := Delete(t, t.key, fixed);
      && r.Ok? && Ordered(r.value) && Keys(r.value) == Keys(t) - {t.key}
      && AsMap(r.value) == AsMap(t) - {t.key} && Count(r.value) == Count(t) - 1
  {
    assert Delete(t, t.key, fixed) == Ok(RebalanceAt(t.left, fixed));
    AsMapKeys(t);
    AsMapKeys(t.left);
    assert AsMap(t) - {t.key} == AsMap(t.left);
    RebalanceAtKeeps(t.left, fixed);
  }

  /** `DeleteHere` at a node with two children: the successor takes its
      place. */
  lemma DeleteHereInner<V>(t: Tree<int, V>, fixed: bool)
    requires HeightsOK(t) && Ordered(t) && t.Node? && t.left.Node? && t.right.Node?
    ensures var r := Delete(t, t.key, fixed);
      && r.Ok? && Ordered(r.value) && Keys(r.value) == Keys(t) - {t.key}
      && AsMap(r.value) == AsMap(t) - {t.key} && Count(r.value) == Count(t) - 1
  {
    var l, right, k := t.left, t.right, t.key;
    if right.left.Nil? {
      var n := Node(l, right.key, right.value, right.meta, right.right);
      assert Delete(t, k, fixed) == Ok(RebalanceAt(n, fixed));
      AsMapKeys(right);
      AsMapKeys(right.right);
      AsMapNode(right, right.key);
      assert AsMap(right.right) == AsMap(right) - {right.key};
      Splice(t, right.key, right.value, right.meta, right.right);
      assert Count(right) == 1 + Count(right.right);
      assert Count(n) == Count(t) - 1;
      RebalanceAtKeeps(n, fixed);
    } else {
      RemoveMinKeeps(right, fixed);
      var (r', sk, sv, sh) := RemoveMin(right, fixed);
      assert Delete(t, k, fixed) == Ok(RebalanceAt(Node(l, sk, sv, sh, r'), fixed));
      Splice(t, sk, sv, sh, r');
      RebalanceAtKeeps(Node(l, sk, sv, sh, r'), fixed);
    }
  }

  /** Removal takes exactly key `k` out. As written it throws
      NullPointerException exactly when the node holding `k` is a leaf. */
  lemma {:induction false} DeleteKeeps<V>(t: Tree<int, V>, k: int, fixed: bool)
    requires HeightsOK(t) && Ordered(t) && k in Keys(t)
    ensures var r := Delete(t, k, fixed);
      && (r.Throws? <==> !fixed && IsLeaf(Search(t, k)))
      && (r.Throws? ==> r.error == NullPointer)
      && (r.Ok? ==> Ordered(r.value) && Keys(r.value) == Keys(t) - {k}
                    && AsMap(r.value) == AsMap(t) - {k} && Count(r.value) == Count(t) - 1)
  {
    if k < t.key {
      DeleteKeeps(t.left, k, fixed);
      var r := Delete(t.left, k, fixed);
      if r.Ok? {
        TakeBackLeft(t, r.value, k);
        RebalanceAtKeeps(t.(left := r.value), fixed);
      }
    } else if k > t.key {
      assert k in Keys(t.right);
      DeleteKeeps(t.right, k, fixed);
      var r := Delete(t.right, k, fixed);
      if r.Ok? {
        TakeBackRight(t, r.value, k);
        RebalanceAtKeeps(t.(right := r.value), fixed);
      }
    } else {
      DeleteHere(t, fixed);
    }
  }

  /** A step of the corrected walk at a node one of whose AVL subtrees lost
      at most one level leaves an AVL subtree at most one level lower. */
  lemma ShrinkStep<V>(t: Tree<int, V>, n: Tree<int, V>)
    requires t.Node? && HeightsOK(t) && Balanced(t)
    requires n.Node? && HeightsOK(n.left) && HeightsOK(n.right) && Balanced(n.left) && Balanced(n.right)
    requires || (n.left == t.left && H(t.right) - 1 <= H(n.right) <= H(t.right))
             || (n.right == t.right && H(t.left) - 1 <= H(n.left) <= H(t.left))
    ensures Balanced(RebalanceAt(n, true)) && H(t) - 1 <= H(RebalanceAt(n, true)) <= H(t)
  {
    RebalanceAtBalances(n, true);
  }

  lemma {:induction false} RemoveMinBalances<V>(t: Tree<int, V>)
    requires t.Node? && t.left.Node? && HeightsOK(t) && Balanced(t)
    ensures var r := RemoveMin(t, true).0; Balanced(r) && H(t) - 1 <= H(r) <= H(t)
  {
    var l := t.left;
    HeightFacts(l.right);
    if l.left.Nil? {
      ShrinkStep(t, t.(left := l.right));
    } else {
      RemoveMinBalances(l);
      ShrinkStep(t, t.(left := RemoveMin(l, true).0));
    }
  }

  /** The corrected removal keeps an AVL tree balanced and lowers it by at
      most one level. */
  lemma {:induction false} DeleteBalances<V>(t: Tree<int, V>, k: int)
    requires HeightsOK(t) && Balanced(t) && Ordered(t) && k in Keys(t)
    ensures Delete(t, k, true).Ok?
    ensures var r := Delete(t, k, true).value; Balanced(r) && H(t) - 1 <= H(r) <= H(t)
  {
    var l, right := t.left, t.right;
    HeightFacts(l);
    HeightFacts(right);
    if k < t.key {
      DeleteBalances(l, k);
      HeightFacts(Delete(l, k, true).value);
      ShrinkStep(t, t.(left := Delete(l, k, true).value));
    } else if k > t.key {
      DeleteBalances(right, k);
      HeightFacts(Delete(right, k, true).value);
      ShrinkStep(t, t.(right := Delete(right, k, true).value));
    } else if l.Nil? && right.Nil? {
    } else if l.Nil? {
      HeightFacts(right.left);
      HeightFacts(right.right);
      RebalanceAtBalances(right, true);
    } else if right.Nil? {
      HeightFacts(l.left);
      HeightFacts(l.right);
      RebalanceAtBalances(l, true);
    } else if right.left.Nil? {
      HeightFacts(right.right);
      ShrinkStep(t, Node(l, right.key, right.value, right.meta, right.right));
    } else {
      RemoveMinBalances(right);
      var r' := RemoveMin(right, true).0;
      HeightFacts(r');
      var m := RemoveMin(right, true);
      ShrinkStep(t, Node(l, m.1, m.2, m.3, r'));
    }
  }

  /** An `AvlTree` object: the root and the `size` field. */
  datatype AvlMap<V> = AvlMap(root: Tree<int, V>, size: int)

  /** What every operation keeps, even as written: a search tree whose
      stored heights are right. */
  predicate WellFormed<V>(m: AvlMap<V>) {
    Ordered(m.root) && HeightsOK(m.root)
  }

  /** The AVL invariant, which only the corrected operations keep. */
  predicate Valid<V>(m: AvlMap<V>) {
    IsAvl(m.root)
  }

  /** `size` counts the nodes, which the corrected operations keep. */
  predicate Counted<V>(m: AvlMap<V>) {
    m.size == Count(m.root)
  }

  function Contents<V>(m: AvlMap<V>): map<int, V> {
    AsMap(m.root)
  }

  /** The tree `new AvlTree()` builds. */
  function Empty<V>(): AvlMap<V> {
    AvlMap(Nil, 0)
  }

  /** `new AvlTree()`. */
  method New<V>() returns (m: AvlMap<V>)
    ensures Valid(m) && WellFormed(m) && Counted(m) && Contents(m) == map[]
  {
    m := Empty();
  }

  /** `size()`: the node count when the field is kept right. */
  function Size<V>(m: AvlMap<V>): (n: int)
    ensures WellFormed(m) && Counted(m) ==> n == |Contents(m)|
  {
    if WellFormed(m) then CountKeys(m.root); m.size else m.size
  }

  /** `get(key)`: the value of the node `search` finds, or null. */
  function Get<V>(m: AvlMap<V>, k: int): (r: Option<V>)
    requires WellFormed(m)
    ensures r == Lookup(Contents(m), k)
  {
    SearchTree.Get(m.root, k)
  }

  /** `containsKey(key)`: `search` finds a node. */
  function ContainsKey<V>(m: AvlMap<V>, k: int): (b: bool)
    requires WellFormed(m)
    ensures b <==> k in Contents(m)
  {
    AsMapKeys(m.root);
    Search(m.root, k).Node?
  }

  /** `put(key, value)` as written: an empty tree gets a root node without
      `size` being incremented (lines 141-143); otherwise a new key is added
      by `Insert` and counted. A new key returns the new value (line 173),
      an existing one the old value. */
  function Put<V>(m: AvlMap<V>, k: int, v: V): (r: (AvlMap<V>, Option<V>))
    requires WellFormed(m)
    ensures WellFormed(r.0) && Contents(r.0) == Contents(m)[k := v]
    ensures Valid(m) ==> Valid(r.0)
    ensures r.1 == Some(if k in Contents(m) then Contents(m)[k] else v)
    ensures r.0.size == m.size + (if m.root.Nil? || k in Contents(m) then 0 else 1)
  {
    AsMapKeys(m.root);
    if m.root.Nil? then
      (AvlMap(Node(Nil, k, v, 1, Nil), m.size), Some(v))
    else
      InsertKeeps(m.root, k, v);
      var (root', prev) := Insert(m.root, k, v);
      var r := if prev.Some? then (AvlMap(root', m.size), prev) else (AvlMap(root', m.size + 1), Some(v));
      if Balanced(m.root) then InsertBalances(m.root, k, v); r else r
  }

  /** `put` with the first node counted: the size stays the node count. */
  function PutCounted<V>(m: AvlMap<V>, k: int, v: V): (r: (AvlMap<V>, Option<V>))
    requires WellFormed(m)
    ensures WellFormed(r.0) && Contents(r.0) == Contents(m)[k := v]
    ensures Valid(m) ==> Valid(r.0)
    ensures Counted(m) ==> Counted(r.0)
    ensures r.1 == Some(if k in Contents(m) then Contents(m)[k] else v)
  {
    AsMapKeys(m.root);
    if m.root.Nil? then
      (AvlMap(Node(Nil, k, v, 1, Nil), m.size + 1), Some(v))
    else
      InsertKeeps(m.root, k, v);
      var (root', prev) := Insert(m.root, k, v);
      var r := if prev.Some? then (AvlMap(root', m.size), prev) else (AvlMap(root', m.size + 1), Some(v));
      if Balanced(m.root) then InsertBalances(m.root, k, v); r else r
  }

  /** `remove(key)` as written: an absent key returns null and changes
      nothing; removing a leaf throws NullPointerException; otherwise the
      key is gone, the old value returned and `size` decremented. */
  function Remove<V>(m: AvlMap<V>, k: int): (r: Outcome<(AvlMap<V>, Option<V>)>)
    requires WellFormed(m)
    ensures k !in Contents(m) ==> r == Ok((m, None))
    ensures k in Contents(m) ==> (r.Throws? <==> IsLeaf(Search(m.root, k)))
    ensures r.Throws? ==> r.error == NullPointer
    ensures r.Ok? && k in Contents(m) ==>
              && WellFormed(r.value.0) && Contents(r.value.0) == Contents(m) - {k}
              && r.value.1 == Some(Contents(m)[k]) && r.value.0.size == m.size - 1
  {
    AsMapKeys(m.root);
    var n := Search(m.root, k);
    if n.Nil? then Ok((m, None))
    else
      DeleteKeeps(m.root, k, false);
      match Delete(m.root, k, false)
      case Throws(e) => Throws(e)
      case Ok(root') => Ok((AvlMap(root', m.size - 1), Some(n.value)))
  }

  /** `remove` with the walk started at a removed leaf's parent and a single
      rotation on a tie: it never throws, and keeps the AVL invariant and
      the count. */
  function RemoveFixed<V>(m: AvlMap<V>, k: int): (r: (AvlMap<V>, Option<V>))
    requires WellFormed(m)
    ensures WellFormed(r.0) && Contents(r.0) == Contents(m) - {k}
    ensures r.1 == Lookup(Contents(m), k)
    ensures Valid(m) ==> Valid(r.0)
    ensures Counted(m) ==> Counted(r.0)
  {
    AsMapKeys(m.root);
    var n := Search(m.root, k);
    if n.Nil? then
      assert Contents(m) - {k} == Contents(m);
      (m, None)
    else
      DeleteKeeps(m.root, k, true);
      if Valid(m) then DeleteBalances(m.root, k); (AvlMap(Delete(m.root, k, true).value, m.size - 1), Some(n.value))
      else (AvlMap(Delete(m.root, k, true).value, m.size - 1), Some(n.value))
  }

  /** Lines 141-143: the first `put` leaves `size` at 0 with one key stored;
      the corrected `put` counts it. */
  lemma PutIntoEmptyMiscounts()
    ensures var m := Put(Empty<int>(), 5, 50).0; m.size == 0 && |Contents(m)| == 1
    ensures var m := PutCounted(Empty<int>(), 5, 50).0; m.size == 1 && Counted(m)
  {
    var m := Put(Empty<int>(), 5, 50).0;
    assert Contents(m) == map[5 := 50];
  }

  /** Lines 208-210 and 232: removing the only key of a tree throws, where
      the corrected removal leaves the empty tree. */
  lemma RemoveLeafThrows()
    ensures var m := PutCounted(Empty<int>(), 5, 50).0;
      Remove(m, 5) == Throws(NullPointer) && RemoveFixed(m, 5) == (Empty(), Some(50))
  {
    var m := PutCounted(Empty<int>(), 5, 50).0;
    assert m.root == Node(Nil, 5, 50, 1, Nil);
    assert Search(m.root, 5) == m.root;
    assert Delete(m.root, 5, true) == Ok(Nil);
  }

  /** An AVL tree with keys 1, 2, 4, 5, 6, 8, 9, 10 (each value equal to its
      key). */
  function SampleTree(): Tree<int, int> {
    var leaf := (k: int) => Node(Nil, k, k, 1, Nil);
    Node(Node(Node(leaf(1), 2, 2, 2, Nil), 4, 4, 3, Node(Nil, 5, 5, 2, leaf(6))),
         8, 8, 4,
         Node(Nil, 9, 9, 2, leaf(10)))
  }

  lemma SampleIsAvl()
    ensures Valid(AvlMap(SampleTree(), 8))
  {
    var t := SampleTree();
    assert Ordered(t.left.left) && Ordered(t.left.right) && Ordered(t.right);
    assert Ordered(t.left);
  }

  /** Lines 111 and 120: removing 9 from `SampleTree` makes node 8
      left-heavy by two with a balanced left child; `>` picks the double
      rotation, which leaves node 4 with balance factor 2. */
  lemma RemoveUnbalances()
    ensures var r := Remove(AvlMap(SampleTree(), 8), 9);
      r.Ok? && !Balanced(r.value.0.root)
  {
    var t := SampleTree();
    SampleIsAvl();
    assert Search(t, 9) == t.right;
    SampleDelete();
    SampleRebalance();
  }

  /** Removing 9 deletes the right child's root and leaves the walk to
      rebalance node 8 over the remaining leaf 10. */
  lemma SampleDelete()
    ensures var t := SampleTree();
      Delete(t, 9, false) == Ok(RebalanceAt(Node(t.left, 8, 8, 4, t.right.right), false))
  {
    var t := SampleTree();
    SampleIsAvl();
    var r' := RebalanceAt(t.right.right, false);
    assert r' == t.right.right;
    assert Delete(t.right, 9, false) == Ok(r');
  }

  /** Rebalancing node 8 over leaf 10 with the double rotation on a tie
      leaves an unbalanced node. */
  lemma SampleRebalance()
    ensures var t := SampleTree();
      !Balanced(RebalanceAt(Node(t.left, 8, 8, 4, t.right.right), false))
  {
    var t := SampleTree();
    var n := Node(t.left, 8, 8, 4, t.right.right);
    assert Diff(n) == 2 && H(t.left.left) == H(t.left.right);
    var x := Rotated(n, false);
    assert x.left == Node(t.left.left, 4, 4, 3, Nil);
    assert !Balanced(x.left);
  }

}
