/** bst/RedBlackTree.java: a search tree whose nodes are coloured RED or
    BLACK, with a shared BLACK sentinel for every absent child. The parent
    links of the Java nodes are not modelled: the walks up from an inserted
    or removed node (`insertFixUp`, `deleteFixUp`) are the return path of
    the recursion that went down to it, and each rotation or repaint they
    make happens at the level where the recursion returns through the
    nodes it touches. The sentinel is `Nil`, whose colour is BLACK. */
module RedBlackTree {
  import opened Common
  import opened SearchTree

  datatype Color = Red | Black

  /** A node's colour; the sentinel is BLACK (line 17). */
  function ColorOf<V>(t: Tree<Color, V>): Color {
    if t.Nil? then Black else t.meta
  }

  predicate IsRed<V>(t: Tree<Color, V>) {
    ColorOf(t) == Red
  }

  /** `x.color = c`. The sentinel stays BLACK: the only repaints that can
      reach it (line 238) paint it BLACK. */
  function Paint<V>(t: Tree<Color, V>, c: Color): (r: Tree<Color, V>)
    ensures t.Node? ==> r.Node? && ColorOf(r) == c
    ensures r.Nil? <==> t.Nil?
  {
    if t.Nil? then t else t.(meta := c)
  }

  /** The number of BLACK nodes on the leftmost path (the sentinel not
      counted); with `BlackRule` it is the same on every path. */
  function BlackHeight<V>(t: Tree<Color, V>): nat {
    match t
    case Nil => 0
    case Node(l, _, _, c, _) => BlackHeight(l) + (if c == Black then 1 else 0)
  }

  /** Every path from a node down to the sentinel meets as many BLACK nodes. */
  predicate BlackRule<V>(t: Tree<Color, V>) {
    match t
    case Nil => true
    case Node(l, _, _, _, r) => BlackRule(l) && BlackRule(r) && BlackHeight(l) == BlackHeight(r)
  }

  /** No RED node has a RED child. */
  predicate RedRule<V>(t: Tree<Color, V>) {
    match t
    case Nil => true
    case Node(l, _, _, c, r) => RedRule(l) && RedRule(r) && (c == Red ==> !IsRed(l) && !IsRed(r))
  }

  /** The red-black tree invariant, with a BLACK root as `insertFixUp`
      leaves it (line 153). */
  predicate IsRedBlack<V>(t: Tree<Color, V>) {
    Ordered(t) && RedRule(t) && BlackRule(t) && !IsRed(t)
  }

  // ---------------------------------------------------------------- insertion

  /** The child of `c` on the way to `k`: the right one when `k` is greater
      (the test `node == node.parent.right`), else the left one. */
  function PathChild<V>(c: Tree<Color, V>, k: int): Tree<Color, V>
    requires c.Node?
  {
    if k > c.key then c.right else c.left
  }

  /** The child of `c` off the way to `k`. */
  function OtherChild<V>(c: Tree<Color, V>, k: int): Tree<Color, V>
    requires c.Node?
  {
    if k > c.key then c.left else c.right
  }

  /** One pass of the `insertFixUp` loop (lines 105-127) at grandparent `g`
      when the parent is `g`'s left child: nothing happens unless the
      parent and the node below it on the way to `k` are both RED. Then a
      RED uncle means the parent and uncle turn BLACK and `g` RED (lines
      111-115); otherwise a right-hand node is first lifted over the parent
      (lines 116-120) and the parent is lifted over `g`, the lifted node
      BLACK and `g` RED (lines 122-125). */
  function InsFixLeft<V>(g: Tree<Color, V>, k: int): (r: Tree<Color, V>)
    requires g.Node?
    ensures r.Node?
  {
    var c := g.left;
    if IsRed(c) && IsRed(PathChild(c, k)) then
      if IsRed(g.right) then
        Node(Paint(c, Black), g.key, g.value, Red, Paint(g.right, Black))
      else if k > c.key then
        RotateRight(g.(left := RotateLeft(c, Red, Red)), Red, Black)
      else
        RotateRight(g, Red, Black)
    else
      g
  }

  /** The mirror image of `InsFixLeft` (lines 128-151). */
  function InsFixRight<V>(g: Tree<Color, V>, k: int): (r: Tree<Color, V>)
    requires g.Node?
    ensures r.Node?
  {
    var c := g.right;
    if IsRed(c) && IsRed(PathChild(c, k)) then
      if IsRed(g.left) then
        Node(Paint(g.left, Black), g.key, g.value, Red, Paint(c, Black))
      else if k <= c.key then
        RotateLeft(g.(right := RotateRight(c, Red, Red)), Red, Black)
      else
        RotateLeft(g, Red, Black)
    else
      g
  }

  /** The descent of `put` (lines 158-181) and the walk of `insertFixUp`
      back up. A key already present has its value replaced and nothing
      else changes (lines 166-170); a new key hangs a RED node off the
      sentinel where the search ended. Also returns the replaced value. */
  function Ins<V>(t: Tree<Color, V>, k: int, v: V): (r: (Tree<Color, V>, Option<V>))
    ensures r.0.Node?
    ensures r.1.Some? ==> SameShape(t, r.0)
  {
    match t
    case Nil => (Node(Nil, k, v, Red, Nil), None)
    case Node(l, key, val, c, right) =>
      if k < key then
        var (l', prev) := Ins(l, k, v);
        if prev.Some? then SameShapeRefl(right); (Node(l', key, val, c, right), prev)
        else (InsFixLeft(Node(l', key, val, c, right), k), None)
      else if k > key then
        var (r', prev) := Ins(right, k, v);
        if prev.Some? then SameShapeRefl(l); (Node(l, key, val, c, r'), prev)
        else (InsFixRight(Node(l, key, val, c, r'), k), None)
      else
        SameShapeRefl(l);
        SameShapeRefl(right);
        (Node(l, key, v, c, right), Some(val))
  }

  /** A fix-up pass only rotates and repaints: the map is unchanged. */
  lemma InsFixLeftKeeps<V>(g: Tree<Color, V>, k: int)
    requires g.Node?
    ensures SameMap(g, InsFixLeft(g, k))
  {
    var c := g.left;
    if IsRed(c) && IsRed(PathChild(c, k)) {
      if IsRed(g.right) {
        WithMetaKeeps(c, Black);
        SameMapLeft(g, Paint(c, Black));
        var g1 := g.(left := Paint(c, Black));
        WithMetaKeeps(g.right, Black);
        SameMapRight(g1, Paint(g.right, Black));
        WithMetaKeeps(g1.(right := Paint(g.right, Black)), Red);
      } else if k > c.key {
        RotateLeftKeeps(c, Red, Red);
        SameMapLeft(g, RotateLeft(c, Red, Red));
        RotateRightKeeps(g.(left := RotateLeft(c, Red, Red)), Red, Black);
      } else {
        RotateRightKeeps(g, Red, Black);
      }
    }
  }

  lemma InsFixRightKeeps<V>(g: Tree<Color, V>, k: int)
    requires g.Node?
    ensures SameMap(g, InsFixRight(g, k))
  {
    var c := g.right;
    if IsRed(c) && IsRed(PathChild(c, k)) {
      if IsRed(g.left) {
        WithMetaKeeps(g.left, Black);
        SameMapLeft(g, Paint(g.left, Black));
        var g1 := g.(left := Paint(g.left, Black));
        WithMetaKeeps(c, Black);
        SameMapRight(g1, Paint(c, Black));
        WithMetaKeeps(g1.(right := Paint(c, Black)), Red);
      } else if k <= c.key {
        RotateRightKeeps(c, Red, Red);
        SameMapRight(g, RotateRight(c, Red, Red));
        RotateLeftKeeps(g.(right := RotateRight(c, Red, Red)), Red, Black);
      } else {
        RotateLeftKeeps(g, Red, Black);
      }
    }
  }

  /** Insertion stores `v` under `k`, keeps every other entry and the
      search-tree order, and reports the value it replaced. */
  lemma {:induction false} InsKeeps<V>(t: Tree<Color, V>, k: int, v: V)
    requires Ordered(t)
    ensures var (r, prev) := Ins(t, k, v);
      && Ordered(r) && Keys(r) == Keys(t) + {k} && AsMap(r) == AsMap(t)[k := v]
      && prev == Lookup(AsMap(t), k)
      && Count(r) == Count(t) + (if prev.None? then 1 else 0)
    decreases t, 1
  {
    AsMapKeys(t);
    if t.Node? {
      if k < t.key {
        InsKeepsLeft(t, k, v);
      } else if k > t.key {
        InsKeepsRight(t, k, v);
      } else {
        AsMapNode(t, k);
        AsMapKeys(t.left);
        AsMapKeys(t.right);
        assert AsMap(t.(value := v)) == AsMap(t)[k := v];
      }
    }
  }

  /** `InsKeeps` for a key below the root's: the left subtree takes it. */
  lemma {:induction false} InsKeepsLeft<V>(t: Tree<Color, V>, k: int, v: V)
    requires Ordered(t) && t.Node? && k < t.key
    ensures var (r, prev) := Ins(t, k, v);
      && Ordered(r) && Keys(r) == Keys(t) + {k} && AsMap(r) == AsMap(t)[k := v]
      && prev == Lookup(AsMap(t), k)
      && Count(r) == Count(t) + (if prev.None? then 1 else 0)
    decreases t, 0
  {
    AsMapKeys(t);
    AsMapNode(t, k);
    InsKeeps(t.left, k, v);
    var (l', prev) := Ins(t.left, k, v);
    PutBackLeft(t, l', k, v);
    InsFixLeftKeeps(t.(left := l'), k);
  }

  /** `InsKeeps` for a key above the root's: the right subtree takes it. */
  lemma {:induction false} InsKeepsRight<V>(t: Tree<Color, V>, k: int, v: V)
    requires Ordered(t) && t.Node? && k > t.key
    ensures var (r, prev) := Ins(t, k, v);
      && Ordered(r) && Keys(r) == Keys(t) + {k} && AsMap(r) == AsMap(t)[k := v]
      && prev == Lookup(AsMap(t), k)
      && Count(r) == Count(t) + (if prev.None? then 1 else 0)
    decreases t, 0
  {
    AsMapKeys(t);
    AsMapNode(t, k);
    InsKeeps(t.right, k, v);
    var (r', prev) := Ins(t.right, k, v);
    PutBackRight(t, r', k, v);
    InsFixRightKeeps(t.(right := r'), k);
  }

  /** Trees with the same shape and colours obey the colour rules alike. */
  lemma {:induction false} SameShapeColors<V>(a: Tree<Color, V>, b: Tree<Color, V>)
    requires SameShape(a, b)
    ensures IsRed(a) == IsRed(b) && BlackHeight(a) == BlackHeight(b)
    ensures RedRule(a) == RedRule(b) && BlackRule(a) == BlackRule(b)
  {
    if a.Node? {
      SameShapeColors(a.left, b.left);
      SameShapeColors(a.right, b.right);
    }
  }

  /** The colour invariant of insertion, level by level: the black height
      never changes and the paths stay black-balanced; a BLACK subtree
      comes back obeying the red rule, and a RED one comes back RED, with
      the same key, with its off-path child unchanged and both children
      obeying the red rule, so that a RED-RED pair can only sit on the path
      to `k`, just below the level that repairs it. */
  lemma {:induction false} InsColors<V>(t: Tree<Color, V>, k: int, v: V)
    requires RedRule(t) && BlackRule(t)
    ensures var (r, prev) := Ins(t, k, v);
      && BlackRule(r) && BlackHeight(r) == BlackHeight(t)
      && (!IsRed(t) ==> RedRule(r))
      && (IsRed(t) ==> && IsRed(r) && r.key == t.key && RedRule(r.left) && RedRule(r.right)
                       && (prev.None? ==> OtherChild(r, k) == OtherChild(t, k)))
  {
    var (r, prev) := Ins(t, k, v);
    if prev.Some? {
      SameShapeColors(t, r);
      if IsRed(t) {
        assert RedRule(r);
      }
    } else {
      match t
      case Nil =>
      case Node(l, key, val, c, right) =>
        if k < key {
          InsColors(l, k, v);
          InsFixLeftColors(t, Ins(l, k, v).0, k);
        } else {
          assert k > key;
          InsColors(right, k, v);
          InsFixRightColors(t, Ins(right, k, v).0, k);
        }
    }
  }

  /** The fix-up pass at `t` after a new key went into its left subtree,
      which came back as `l'`. */
  lemma InsFixLeftColors<V>(t: Tree<Color, V>, l': Tree<Color, V>, k: int)
    requires t.Node? && RedRule(t) && BlackRule(t) && k < t.key
    requires l'.Node? && BlackRule(l') && BlackHeight(l') == BlackHeight(t.left)
    requires !IsRed(t.left) ==> RedRule(l')
    requires IsRed(t.left) ==> && IsRed(l') && l'.key == t.left.key && RedRule(l'.left) && RedRule(l'.right)
                               && OtherChild(l', k) == OtherChild(t.left, k)
    ensures var r := InsFixLeft(t.(left := l'), k);
      && BlackRule(r) && BlackHeight(r) == BlackHeight(t)
      && (!IsRed(t) ==> RedRule(r))
      && (IsRed(t) ==> IsRed(r) && r.key == t.key && RedRule(r.left) && RedRule(r.right)
                       && OtherChild(r, k) == OtherChild(t, k))
  {
    var g := t.(left := l');
    var l := t.left;
    if IsRed(l) && IsRed(PathChild(l', k)) {
      assert !IsRed(OtherChild(l, k));
      if IsRed(t.right) {
        assert BlackHeight(Paint(l', Black)) == BlackHeight(l) + 1;
      } else if k > l'.key {
        var z := l'.right;
        assert RedRule(z) && !IsRed(z.left) && !IsRed(z.right);
        assert BlackHeight(z.left) == BlackHeight(l'.left);
      } else {
        assert RedRule(l'.left);
      }
    }
  }

  /** The mirror image of `InsFixLeftColors`. */
  lemma InsFixRightColors<V>(t: Tree<Color, V>, r': Tree<Color, V>, k: int)
    requires t.Node? && RedRule(t) && BlackRule(t) && k > t.key
    requires r'.Node? && BlackRule(r') && BlackHeight(r') == BlackHeight(t.right)
    requires !IsRed(t.right) ==> RedRule(r')
    requires IsRed(t.right) ==> && IsRed(r') && r'.key == t.right.key && RedRule(r'.left) && RedRule(r'.right)
                                && OtherChild(r', k) == OtherChild(t.right, k)
    ensures var r := InsFixRight(t.(right := r'), k);
      && BlackRule(r) && BlackHeight(r) == BlackHeight(t)
      && (!IsRed(t) ==> RedRule(r))
      && (IsRed(t) ==> IsRed(r) && r.key == t.key && RedRule(r.left) && RedRule(r.right)
                       && OtherChild(r, k) == OtherChild(t, k))
  {
    var right := t.right;
    if IsRed(right) && IsRed(PathChild(r', k)) {
      assert !IsRed(OtherChild(right, k));
      if IsRed(t.left) {
        assert BlackHeight(Paint(r', Black)) == BlackHeight(right) + 1;
      } else if k <= r'.key {
        var z := r'.left;
        assert RedRule(z) && !IsRed(z.left) && !IsRed(z.right);
        assert BlackHeight(z.right) == BlackHeight(r'.right);
      } else {
        assert RedRule(r'.right);
      }
    }
  }

  // ----------------------------------------------------------------- deletion

  /** What happens to the node `x` that takes the place of a spliced-out
      node of colour `moved` (lines 259-283): after a RED node nothing is
      done; after a BLACK one a RED `x` is painted BLACK (the loop of
      `deleteFixUp` does not start and line 238 paints it), and a BLACK `x`
      is left one BLACK node short, which the second component reports. */
  function Settle<V>(x: Tree<Color, V>, moved: Color): (r: (Tree<Color, V>, bool))
    ensures RedRule(x) ==> RedRule(r.0)
    ensures BlackRule(x) ==> BlackRule(r.0)
    ensures BlackHeight(r.0) + (if r.1 then 1 else 0) == BlackHeight(x) + (if moved == Black then 1 else 0)
    ensures r.1 ==> moved == Black
    ensures moved == Black ==> !IsRed(r.0)
    ensures SameMap(x, r.0)
  {
    if moved == Red then (x, false)
    else if IsRed(x) then WithMetaKeeps(x, Black); (Paint(x, Black), false)
    else (x, true)
  }

  /** The state `deleteFixUp` works on at `p` when its left child `x` is
      one BLACK node short: both subtrees obey the colour rules, `x` is
      BLACK, its sibling has one more BLACK node on every path, and a RED
      `p` has a BLACK sibling below it. */
  predicate ShortLeft<V>(p: Tree<Color, V>) {
    && p.Node?
    && RedRule(p.left) && RedRule(p.right) && BlackRule(p.left) && BlackRule(p.right)
    && !IsRed(p.left) && BlackHeight(p.right) == BlackHeight(p.left) + 1
    && (p.meta == Red ==> !IsRed(p.right))
  }

  /** The mirror image of `ShortLeft`. */
  predicate ShortRight<V>(p: Tree<Color, V>) {
    && p.Node?
    && RedRule(p.left) && RedRule(p.right) && BlackRule(p.left) && BlackRule(p.right)
    && !IsRed(p.right) && BlackHeight(p.left) == BlackHeight(p.right) + 1
    && (p.meta == Red ==> !IsRed(p.left))
  }

  /** Case 4 of `deleteFixUp` for a left child (lines 207-211): the sibling
      takes the parent's colour, the parent and the sibling's right child
      turn BLACK, and the sibling is lifted over the parent. The shortage
      is gone. */
  function DelCase4Left<V>(p: Tree<Color, V>): (r: Tree<Color, V>)
    requires ShortLeft(p) && p.right.Node? && !IsRed(p.right) && IsRed(p.right.right)
    ensures RedRule(r) && BlackRule(r)
    ensures BlackHeight(r) == BlackHeight(p.right) + (if p.meta == Black then 1 else 0)
    ensures p.meta == Black ==> !IsRed(r)
  {
    var w := p.right;
    assert RedRule(w.left) && RedRule(w.right) && BlackRule(w.right);
    assert BlackHeight(w.left) == BlackHeight(p.left);
    assert BlackHeight(Paint(w.right, Black)) == BlackHeight(w.right) + 1;
    RotateLeft(p.(right := w.(right := Paint(w.right, Black))), Black, p.meta)
  }

  /** The mirror image of `DelCase4Left` (lines 230-234). */
  function DelCase4Right<V>(p: Tree<Color, V>): (r: Tree<Color, V>)
    requires ShortRight(p) && p.left.Node? && !IsRed(p.left) && IsRed(p.left.left)
    ensures RedRule(r) && BlackRule(r)
    ensures BlackHeight(r) == BlackHeight(p.left) + (if p.meta == Black then 1 else 0)
    ensures p.meta == Black ==> !IsRed(r)
  {
    var w := p.left;
    assert RedRule(w.left) && RedRule(w.right) && BlackRule(w.left);
    assert BlackHeight(w.right) == BlackHeight(p.right);
    assert BlackHeight(Paint(w.left, Black)) == BlackHeight(w.left) + 1;
    RotateRight(p.(left := w.(left := Paint(w.left, Black))), Black, p.meta)
  }

  /** Case 3 of `deleteFixUp` for a left child (lines 201-205): a BLACK
      sibling with a RED left and BLACK right child has the RED child lifted
      over it, BLACK, the sibling turning RED; the shortage is still there,
      now with a RED outer nephew, which is what case 4 needs. */
  lemma Case3Left<V>(p: Tree<Color, V>)
    requires ShortLeft(p) && p.right.Node? && !IsRed(p.right) && IsRed(p.right.left) && !IsRed(p.right.right)
    ensures var p' := p.(right := RotateRight(p.right, Red, Black));
      ShortLeft(p') && p'.right.Node? && !IsRed(p'.right) && IsRed(p'.right.right)
  {
    var w := p.right;
    var w' := RotateRight(w, Red, Black);
    var wl := w.left;
    assert RedRule(wl) && BlackRule(wl);
    assert BlackHeight(wl.right) == BlackHeight(w.right);
    assert RedRule(w'.right) && BlackRule(w'.right);
    assert BlackHeight(w') == BlackHeight(w);
  }

  /** The mirror image of `Case3Left` (lines 224-228). */
  lemma Case3Right<V>(p: Tree<Color, V>)
    requires ShortRight(p) && p.left.Node? && !IsRed(p.left) && IsRed(p.left.right) && !IsRed(p.left.left)
    ensures var p' := p.(left := RotateLeft(p.left, Red, Black));
      ShortRight(p') && p'.left.Node? && !IsRed(p'.left) && IsRed(p'.left.left)
  {
    var w := p.left;
    var w' := RotateLeft(w, Red, Black);
    var wr := w.right;
    assert RedRule(wr) && BlackRule(wr);
    assert BlackHeight(wr.left) == BlackHeight(w.left);
    assert RedRule(w'.left) && BlackRule(w'.left);
    assert BlackHeight(w') == BlackHeight(w);
  }

  /** Cases 2 to 4 of `deleteFixUp` for a left child with a BLACK sibling
      (lines 198-211). Both of the sibling's children BLACK: the sibling
      turns RED and the shortage moves up to the parent, where a RED parent
      is painted BLACK and ends it (line 238). Otherwise a RED left and
      BLACK right child of the sibling are first turned round by a rotation
      (case 3, lines 201-205), and case 4 ends it. */
  function DelFixLeftBlack<V>(p: Tree<Color, V>): (r: (Tree<Color, V>, bool))
    requires ShortLeft(p) && !IsRed(p.right)
    ensures RedRule(r.0) && BlackRule(r.0)
    ensures BlackHeight(r.0) + (if r.1 then 1 else 0) == BlackHeight(p.right) + (if p.meta == Black then 1 else 0)
    ensures r.1 ==> p.meta == Black
    ensures r.1 || p.meta == Black ==> !IsRed(r.0)
  {
    var w := p.right;
    if !IsRed(w.left) && !IsRed(w.right) then
      if p.meta == Red then (Node(p.left, p.key, p.value, Black, Paint(w, Red)), false)
      else (p.(right := Paint(w, Red)), true)
    else if !IsRed(w.right) then
      Case3Left(p);
      (DelCase4Left(p.(right := RotateRight(w, Red, Black))), false)
    else
      (DelCase4Left(p), false)
  }

  /** The mirror image of `DelFixLeftBlack` (lines 221-234). */
  function DelFixRightBlack<V>(p: Tree<Color, V>): (r: (Tree<Color, V>, bool))
    requires ShortRight(p) && !IsRed(p.left)
    ensures RedRule(r.0) && BlackRule(r.0)
    ensures BlackHeight(r.0) + (if r.1 then 1 else 0) == BlackHeight(p.left) + (if p.meta == Black then 1 else 0)
    ensures r.1 ==> p.meta == Black
    ensures r.1 || p.meta == Black ==> !IsRed(r.0)
  {
    var w := p.left;
    if !IsRed(w.left) && !IsRed(w.right) then
      if p.meta == Red then (Node(Paint(w, Red), p.key, p.value, Black, p.right), false)
      else (p.(left := Paint(w, Red)), true)
    else if !IsRed(w.left) then
      Case3Right(p);
      (DelCase4Right(p.(left := RotateLeft(w, Red, Black))), false)
    else
      (DelCase4Right(p), false)
  }

  /** One visit of the `deleteFixUp` loop at the parent `p` of a short
      left child (lines 190-212). A RED sibling is first lifted over the
      parent, BLACK, with the parent turned RED (case 1, lines 192-197);
      the parent, now one level down, has a BLACK sibling. The result
      says whether the shortage moved up past `p`. */
  function DelFixLeft<V>(p: Tree<Color, V>): (r: (Tree<Color, V>, bool))
    requires ShortLeft(p)
    ensures RedRule(r.0) && BlackRule(r.0)
    ensures BlackHeight(r.0) + (if r.1 then 1 else 0) == BlackHeight(p.right) + (if p.meta == Black then 1 else 0)
    ensures r.1 ==> p.meta == Black
    ensures r.1 || p.meta == Black ==> !IsRed(r.0)
  {
    if IsRed(p.right) then
      var q := RotateLeft(p, Red, Black);
      var (l', short) := DelFixLeftBlack(q.left);
      (q.(left := l'), short)
    else
      DelFixLeftBlack(p)
  }

  /** The mirror image of `DelFixLeft` (lines 213-236). */
  function DelFixRight<V>(p: Tree<Color, V>): (r: (Tree<Color, V>, bool))
    requires ShortRight(p)
    ensures RedRule(r.0) && BlackRule(r.0)
    ensures BlackHeight(r.0) + (if r.1 then 1 else 0) == BlackHeight(p.left) + (if p.meta == Black then 1 else 0)
    ensures r.1 ==> p.meta == Black
    ensures r.1 || p.meta == Black ==> !IsRed(r.0)
  {
    if IsRed(p.left) then
      var q := RotateRight(p, Red, Black);
      var (r', short) := DelFixRightBlack(q.right);
      (q.(right := r'), short)
    else
      DelFixRightBlack(p)
  }

  /** `minimum(node.right)` taken out of the right subtree (lines 267-275):
      the leftmost node's right child takes its place, `Settle` deals with
      its colour, and the shortage, if any, is repaired on the way back up
      (line 283). Also returns the key and value taken out. */
  function DelMin<V>(t: Tree<Color, V>): (r: (Tree<Color, V>, bool, int, V))
    requires t.Node? && t.left.Node? && RedRule(t) && BlackRule(t)
    ensures RedRule(r.0) && BlackRule(r.0)
    ensures BlackHeight(r.0) + (if r.1 then 1 else 0) == BlackHeight(t)
    ensures r.1 ==> !IsRed(r.0)
    ensures !IsRed(t) ==> !IsRed(r.0)
  {
    var l := t.left;
    if l.left.Nil? then
      assert RedRule(l) && BlackRule(l) && BlackHeight(l.right) == BlackHeight(l.left) == 0;
      assert RedRule(l.right) && BlackRule(l.right);
      var (x, short) := Settle(l.right, l.meta);
      var n := t.(left := x);
      if short then
        var (f, s) := DelFixLeft(n);
        (f, s, l.key, l.value)
      else
        assert BlackHeight(x) == BlackHeight(l) == BlackHeight(t.right);
        assert t.meta == Red ==> !IsRed(l) && !IsRed(x);
        (n, false, l.key, l.value)
    else
      var (l', short, mk, mv) := DelMin(l);
      var n := t.(left := l');
      if short then
        var (f, s) := DelFixLeft(n);
        (f, s, mk, mv)
      else
        (n, false, mk, mv)
  }

  /** The body of `remove(key)` below the node holding `k` (lines 258-283)
      and the walk of `deleteFixUp` back up. A node without a left child
      gives way to its right child, one without a right child to its left
      child; otherwise its successor takes its place and its colour (line
      280), the successor's own right child taking the successor's place.
      The second component says whether the subtree came back one BLACK
      node short, with the walk still going. */
  function Del<V>(t: Tree<Color, V>, k: int): (r: (Tree<Color, V>, bool))
    requires Ordered(t) && RedRule(t) && BlackRule(t) && k in Keys(t)
    ensures RedRule(r.0) && BlackRule(r.0)
    ensures BlackHeight(r.0) + (if r.1 then 1 else 0) == BlackHeight(t)
    ensures r.1 ==> !IsRed(r.0)
    ensures !IsRed(t) ==> !IsRed(r.0)
  {
    match t
    case Node(l, key, val, c, right) =>
      assert k in Keys(l) || k == key || k in Keys(right);
      assert k < key ==> k !in Keys(right);
      assert k > key ==> k !in Keys(l);
      if k < key then
        var (l', short) := Del(l, k);
        var n := Node(l', key, val, c, right);
        if short then DelFixLeft(n) else (n, false)
      else if k > key then
        var (r', short) := Del(right, k);
        var n := Node(l, key, val, c, r');
        if short then DelFixRight(n) else (n, false)
      else
        DelAt(t)
  }

  /** `Del` at the node holding the key: the node gives way to a child, or
      its successor takes its place and colour. */
  function DelAt<V>(t: Tree<Color, V>): (r: (Tree<Color, V>, bool))
    requires t.Node? && RedRule(t) && BlackRule(t)
    ensures RedRule(r.0) && BlackRule(r.0)
    ensures BlackHeight(r.0) + (if r.1 then 1 else 0) == BlackHeight(t)
    ensures r.1 ==> !IsRed(r.0)
    ensures !IsRed(t) ==> !IsRed(r.0)
  {
    var Node(l, _, _, c, right) := t;
    if l.Nil? then
      Settle(right, c)
    else if right.Nil? then
      Settle(l, c)
    else if right.left.Nil? then
      assert RedRule(right) && BlackRule(right) && BlackHeight(right.right) == BlackHeight(right.left) == 0;
      assert RedRule(right.right) && BlackRule(right.right);
      var (x, short) := Settle(right.right, right.meta);
      var n := Node(l, right.key, right.value, c, x);
      if short then DelFixRight(n)
      else
        assert BlackHeight(x) == BlackHeight(right) == BlackHeight(l);
        assert c == Red ==> !IsRed(right) && !IsRed(x) && !IsRed(l);
        (n, false)
    else
      var (r', short, sk, sv) := DelMin(right);
      var n := Node(l, sk, sv, c, r');
      if short then DelFixRight(n) else (n, false)
  }

  /** The fix-up passes of `deleteFixUp` only rotate and repaint: the map
      is unchanged. */
  lemma DelCase4LeftKeeps<V>(p: Tree<Color, V>)
    requires ShortLeft(p) && p.right.Node? && !IsRed(p.right) && IsRed(p.right.right)
    ensures SameMap(p, DelCase4Left(p))
  {
    var w := p.right;
    WithMetaKeeps(w.right, Black);
    SameMapRight(w, Paint(w.right, Black));
    var p1 := p.(right := w.(right := Paint(w.right, Black)));
    SameMapRight(p, p1.right);
    RotateLeftKeeps(p1, Black, p.meta);
  }

  lemma DelCase4RightKeeps<V>(p: Tree<Color, V>)
    requires ShortRight(p) && p.left.Node? && !IsRed(p.left) && IsRed(p.left.left)
    ensures SameMap(p, DelCase4Right(p))
  {
    var w := p.left;
    WithMetaKeeps(w.left, Black);
    SameMapLeft(w, Paint(w.left, Black));
    var p1 := p.(left := w.(left := Paint(w.left, Black)));
    SameMapLeft(p, p1.left);
    RotateRightKeeps(p1, Black, p.meta);
  }

  lemma DelFixLeftBlackKeeps<V>(p: Tree<Color, V>)
    requires ShortLeft(p) && !IsRed(p.right)
    ensures SameMap(p, DelFixLeftBlack(p).0)
  {
    var w := p.right;
    WithMetaKeeps(w, Red);
    SameMapRight(p, Paint(w, Red));
    if !IsRed(w.left) && !IsRed(w.right) {
      WithMetaKeeps(p.(right := Paint(w, Red)), Black);
    } else if !IsRed(w.right) {
      var w' := RotateRight(w, Red, Black);
      RotateRightKeeps(w, Red, Black);
      SameMapRight(p, w');
      Case3Left(p);
      DelCase4LeftKeeps(p.(right := w'));
    } else {
      DelCase4LeftKeeps(p);
    }
  }

  lemma DelFixRightBlackKeeps<V>(p: Tree<Color, V>)
    requires ShortRight(p) && !IsRed(p.left)
    ensures SameMap(p, DelFixRightBlack(p).0)
  {
    var w := p.left;
    WithMetaKeeps(w, Red);
    SameMapLeft(p, Paint(w, Red));
    if !IsRed(w.left) && !IsRed(w.right) {
      WithMetaKeeps(p.(left := Paint(w, Red)), Black);
    } else if !IsRed(w.left) {
      var w' := RotateLeft(w, Red, Black);
      RotateLeftKeeps(w, Red, Black);
      SameMapLeft(p, w');
      Case3Right(p);
      DelCase4RightKeeps(p.(left := w'));
    } else {
      DelCase4RightKeeps(p);
    }
  }

  lemma DelFixLeftKeeps<V>(p: Tree<Color, V>)
    requires ShortLeft(p)
    ensures SameMap(p, DelFixLeft(p).0)
  {
    if IsRed(p.right) {
      var q := RotateLeft(p, Red, Black);
      RotateLeftKeeps(p, Red, Black);
      DelFixLeftBlackKeeps(q.left);
      SameMapLeft(q, DelFixLeftBlack(q.left).0);
    } else {
      DelFixLeftBlackKeeps(p);
    }
  }

  lemma DelFixRightKeeps<V>(p: Tree<Color, V>)
    requires ShortRight(p)
    ensures SameMap(p, DelFixRight(p).0)
  {
    if IsRed(p.left) {
      var q := RotateRight(p, Red, Black);
      RotateRightKeeps(p, Red, Black);
      DelFixRightBlackKeeps(q.right);
      SameMapRight(q, DelFixRightBlack(q.right).0);
    } else {
      DelFixRightBlackKeeps(p);
    }
  }

  /** The leftmost node of `t` is its left child: taking it out leaves its
      right subtree, settled, in its place. */
  lemma DelMinBase<V>(t: Tree<Color, V>)
    requires t.Node? && t.left.Node? && t.left.left.Nil? && RedRule(t) && BlackRule(t) && Ordered(t)
    ensures var (r, _, mk, mv) := DelMin(t);
      && mk in Keys(t) && (forall x :: x in Keys(t) ==> mk <= x)
      && Lookup(AsMap(t), mk) == Some(mv)
      && Ordered(r) && Keys(r) == Keys(t) - {mk} && AsMap(r) == AsMap(t) - {mk}
      && Count(r) == Count(t) - 1
  {
    var l := t.left;
    assert RedRule(l) && BlackRule(l);
    RemoveMinBase(t);
    var n := t.(left := l.right);
    var (x, short) := Settle(l.right, l.meta);
    SameMapLeft(n, x);
    assert Count(l) == Count(l.right) + 1;
    if short {
      DelFixLeftKeeps(t.(left := x));
    }
  }

  /** `DelMin` takes out the smallest key and returns its value. */
  lemma {:induction false} DelMinKeeps<V>(t: Tree<Color, V>)
    requires t.Node? && t.left.Node? && RedRule(t) && BlackRule(t) && Ordered(t)
    ensures var (r, _, mk, mv) := DelMin(t);
      && mk in Keys(t) && (forall x :: x in Keys(t) ==> mk <= x)
      && Lookup(AsMap(t), mk) == Some(mv)
      && Ordered(r) && Keys(r) == Keys(t) - {mk} && AsMap(r) == AsMap(t) - {mk}
      && Count(r) == Count(t) - 1
  {
    var l := t.left;
    assert RedRule(l) && BlackRule(l);
    if l.left.Nil? {
      DelMinBase(t);
    } else {
      DelMinKeeps(l);
      var (l', short, mk, mv) := DelMin(l);
      AsMapNode(t, mk);
      TakeBackLeft(t, l', mk);
      if short {
        DelFixLeftKeeps(t.(left := l'));
      }
    }
  }

  /** Removal at a node whose right child has no left child: that child
      is the successor and takes the node's place. */
  lemma DelHereNext<V>(t: Tree<Color, V>)
    requires t.Node? && t.left.Node? && t.right.Node? && t.right.left.Nil?
    requires Ordered(t) && RedRule(t) && BlackRule(t)
    ensures var r := Del(t, t.key).0;
      Ordered(r) && Keys(r) == Keys(t) - {t.key} && AsMap(r) == AsMap(t) - {t.key} && Count(r) == Count(t) - 1
  {
    var l, right := t.left, t.right;
    assert RedRule(right) && BlackRule(right);
    AsMapKeys(right);
    AsMapKeys(right.right);
    AsMapNode(right, right.key);
    assert AsMap(right.right) == AsMap(right) - {right.key};
    var (x, short) := Settle(right.right, right.meta);
    Splice(t, right.key, right.value, t.meta, x);
    assert Count(right) == Count(right.right) + 1;
    if short {
      DelFixRightKeeps(Node(l, right.key, right.value, t.meta, x));
    }
  }

  /** Removal at a node whose successor lies deeper in its right subtree. */
  lemma DelHereMin<V>(t: Tree<Color, V>)
    requires t.Node? && t.left.Node? && t.right.Node? && t.right.left.Node?
    requires Ordered(t) && RedRule(t) && BlackRule(t)
    ensures var r := Del(t, t.key).0;
      Ordered(r) && Keys(r) == Keys(t) - {t.key} && AsMap(r) == AsMap(t) - {t.key} && Count(r) == Count(t) - 1
  {
    var l, right := t.left, t.right;
    DelMinKeeps(right);
    var (r', short, sk, sv) := DelMin(right);
    Splice(t, sk, sv, t.meta, r');
    if short {
      DelFixRightKeeps(Node(l, sk, sv, t.meta, r'));
    }
  }

  /** Removal at the node holding `k`. */
  lemma DelHere<V>(t: Tree<Color, V>)
    requires t.Node? && Ordered(t) && RedRule(t) && BlackRule(t)
    ensures var r := Del(t, t.key).0;
      Ordered(r) && Keys(r) == Keys(t) - {t.key} && AsMap(r) == AsMap(t) - {t.key} && Count(r) == Count(t) - 1
  {
    var l, right, k := t.left, t.right, t.key;
    AsMapKeys(t);
    if l.Nil? {
      AsMapKeys(right);
      assert AsMap(t) - {k} == AsMap(right);
    } else if right.Nil? {
      AsMapKeys(l);
      assert AsMap(t) - {k} == AsMap(l);
    } else if right.left.Nil? {
      DelHereNext(t);
    } else {
      DelHereMin(t);
    }
  }

  /** Removal takes exactly key `k` out and keeps the search-tree order. */
  lemma {:induction false} DelKeeps<V>(t: Tree<Color, V>, k: int)
    requires Ordered(t) && RedRule(t) && BlackRule(t) && k in Keys(t)
    ensures var r := Del(t, k).0;
      Ordered(r) && Keys(r) == Keys(t) - {k} && AsMap(r) == AsMap(t) - {k} && Count(r) == Count(t) - 1
  {
    if k < t.key {
      assert k in Keys(t.left);
      DelKeeps(t.left, k);
      var (l', short) := Del(t.left, k);
      TakeBackLeft(t, l', k);
      if short {
        DelFixLeftKeeps(t.(left := l'));
      }
    } else if k > t.key {
      assert k in Keys(t.right);
      DelKeeps(t.right, k);
      var (r', short) := Del(t.right, k);
      TakeBackRight(t, r', k);
      if short {
        DelFixRightKeeps(t.(right := r'));
      }
    } else {
      DelHere(t);
    }
  }

  // ------------------------------------------------------------------ heights

  /** A RED node has BLACK children, so a path has at most as many RED nodes
      as BLACK ones, plus one for a RED top. */
  lemma {:induction false} HeightBound<V>(t: Tree<Color, V>)
    requires RedRule(t) && BlackRule(t)
    ensures Height(t) <= 2 * BlackHeight(t) + (if IsRed(t) then 1 else 0)
  {
    if t.Node? {
      HeightBound(t.left);
      HeightBound(t.right);
    }
  }

  function Pow2(n: nat): (p: nat)
    ensures p >= 1
  {
    if n == 0 then 1 else 2 * Pow2(n - 1)
  }

  lemma {:induction false} Pow2Monotone(a: nat, b: nat)
    requires a <= b
    ensures Pow2(a) <= Pow2(b)
  {
    if a < b {
      Pow2Monotone(a, b - 1);
    }
  }

  lemma {:induction false} Pow2Double(a: nat)
    ensures Pow2(2 * a) == Pow2(a) * Pow2(a)
  {
    if a > 0 {
      Pow2Double(a - 1);
      assert Pow2(2 * a) == 4 * Pow2(2 * (a - 1));
    }
  }

  /** Every path meets `BlackHeight(t)` BLACK nodes, so the tree holds at
      least a full tree of that height. */
  lemma {:induction false} SizeBound<V>(t: Tree<Color, V>)
    requires BlackRule(t)
    ensures Pow2(BlackHeight(t)) <= Count(t) + 1
  {
    if t.Node? {
      SizeBound(t.left);
      SizeBound(t.right);
    }
  }

  /** A red-black tree of `n` nodes is at most `2 log2(n + 1)` high. */
  lemma LogHeight<V>(t: Tree<Color, V>)
    requires IsRedBlack(t)
    ensures Pow2(Height(t)) <= (Count(t) + 1) * (Count(t) + 1)
  {
    var b := BlackHeight(t);
    HeightBound(t);
    SizeBound(t);
    Pow2Monotone(Height(t), 2 * b);
    Pow2Double(b);
    SquareMonotone(Pow2(b), Count(t) + 1);
  }

  lemma SquareMonotone(a: nat, b: nat)
    requires a <= b
    ensures a * a <= b * b
  {
    assert a * a <= a * b by {
      MulLeft(a, a, b);
    }
    MulLeft(b, a, b);
  }

  lemma MulLeft(c: nat, a: nat, b: nat)
    requires a <= b
    ensures c * a <= c * b
  {
  }

  // ---------------------------------------------------------------- the map

  /** A `RedBlackTree`: its root and its `size` field. */
  datatype RbMap<V> = RbMap(root: Tree<Color, V>, size: int)

  /** What every public operation keeps: a red-black search tree whose
      `size` is its node count. */
  predicate Valid<V>(m: RbMap<V>) {
    IsRedBlack(m.root) && m.size == Count(m.root)
  }

  function Contents<V>(m: RbMap<V>): map<int, V> {
    AsMap(m.root)
  }

  /** `new RedBlackTree()` (lines 15-19): the root is the sentinel. */
  method New<V>() returns (m: RbMap<V>)
    ensures Valid(m) && Contents(m) == map[]
  {
    m := RbMap(Nil, 0);
  }

  /** `size()`: the number of keys. */
  function Size<V>(m: RbMap<V>): (n: int)
    ensures Valid(m) ==> n == |Contents(m)|
  {
    if Valid(m) then CountKeys(m.root); m.size else m.size
  }

  /** `get(key)` (lines 38-54): the value of the node the search stops at,
      or null at the sentinel. */
  function Get<V>(m: RbMap<V>, k: int): (r: Option<V>)
    requires Ordered(m.root)
    ensures r == Lookup(Contents(m), k)
  {
    SearchTree.Get(m.root, k)
  }

  /** `put(key, value)` (lines 156-186): an existing key gets the new value
      and nothing else changes, and the old value is returned; a new key is
      inserted, the walk repairs the colours, the root is painted BLACK
      (line 153), `size` goes up and the new value is returned. */
  function Put<V>(m: RbMap<V>, k: int, v: V): (r: (RbMap<V>, Option<V>))
    requires Valid(m)
    ensures Valid(r.0) && Contents(r.0) == Contents(m)[k := v]
    ensures r.1 == Some(if k in Contents(m) then Contents(m)[k] else v)
    ensures k in Contents(m) ==> SameShape(m.root, r.0.root)
  {
    InsKeeps(m.root, k, v);
    InsColors(m.root, k, v);
    var (t, prev) := Ins(m.root, k, v);
    if prev.Some? then
      SameShapeColors(m.root, t);
      (RbMap(t, m.size), prev)
    else
      WithMetaKeeps(t, Black);
      (RbMap(Paint(t, Black), m.size + 1), Some(v))
  }

  /** `remove(key)` (lines 241-288): an absent key returns null and changes
      nothing; otherwise the node is taken out, the colours repaired, `size`
      goes down and the old value is returned. The walk leaves the root
      BLACK, so the final `node.color = BLACK` of line 238 never changes a
      root that the walk reached. */
  function Remove<V>(m: RbMap<V>, k: int): (r: (RbMap<V>, Option<V>))
    requires Valid(m)
    ensures Valid(r.0) && Contents(r.0) == Contents(m) - {k}
    ensures r.1 == Lookup(Contents(m), k)
    ensures k !in Contents(m) ==> r.0 == m
  {
    AsMapKeys(m.root);
    var n := Search(m.root, k);
    if n.Nil? then
      assert Contents(m) - {k} == Contents(m);
      (m, None)
    else
      DelKeeps(m.root, k);
      (RbMap(Del(m.root, k).0, m.size - 1), Some(n.value))
  }

  /** `getHeight()` (lines 327-329): the number of links on the longest
      path from the root, -1 for the empty tree. */
  function GetHeight<V>(m: RbMap<V>): (h: int)
    ensures h == Height(m.root) - 1
    ensures Valid(m) ==> Pow2(h + 1) <= (m.size + 1) * (m.size + 1)
  {
    if Valid(m) then SizeHeight(m); HeightFrom(m.root, -1) else HeightFrom(m.root, -1)
  }

  /** The height bound in terms of the size field. */
  lemma SizeHeight<V>(m: RbMap<V>)
    requires Valid(m)
    ensures Pow2(Height(m.root)) <= (m.size + 1) * (m.size + 1)
  {
    LogHeight(m.root);
  }
}
